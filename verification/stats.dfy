/**
 * The likes and comments block shown under a photograph, shared by the
 * full-screen gallery and the preview: the like count, the "liked" class, the
 * comment count and the word "комментарий" declined for that count.
 */
module Stats {
  import opened Web
  import PhotoModel

  const Many := " комментариев"
  const Few := " комментария"
  const One := " комментарий"

  /**
   * The suffix as both views compute it: 10 to 20 take the genitive plural,
   * otherwise the last digit, as JavaScript's `%` gives it, decides: 2-4 the
   * paucal, 1 the singular, anything else the genitive plural.
   */
  function CommentsSuffix(count: int): (s: string)
    ensures s == Many || s == Few || s == One
    ensures 10 <= count <= 20 ==> s == Many
    ensures !(10 <= count <= 20) ==> (s == Few <==> 2 <= JsRemainder(count, 10) <= 4)
    ensures !(10 <= count <= 20) ==> (s == One <==> JsRemainder(count, 10) == 1)
    ensures count < 0 ==> s == Many
  {
    if 10 <= count <= 20 then Many
    else
      var digit := JsRemainder(count, 10);
      if 2 <= digit <= 4 then Few
      else if digit == 1 then One
      else Many
  }

  /**
   * The Russian rule for a count of items: the singular after a last digit 1
   * and the paucal after 2-4, except when the last two digits are 11-14.
   */
  function RussianSuffix(count: nat): (s: string)
    ensures s == One <==> count % 10 == 1 && count % 100 != 11
    ensures s == Few <==> 2 <= count % 10 <= 4 && !(12 <= count % 100 <= 14)
    ensures s == Many <==> !(count % 10 == 1 && count % 100 != 11) && !(2 <= count % 10 <= 4 && !(12 <= count % 100 <= 14))
  {
    LastDigitsAgree(count);
    if 11 <= count % 100 <= 14 then Many
    else if count % 10 == 1 then One
    else if 2 <= count % 10 <= 4 then Few
    else Many
  }

  /** The last digit of a number is the last digit of its last two digits. */
  lemma LastDigitsAgree(n: nat)
    ensures n % 10 == (n % 100) % 10
  {
    var q := n / 100;
    assert n == 100 * q + n % 100;
    assert n % 100 == 10 * ((n % 100) / 10) + (n % 100) % 10;
    assert n == 10 * (10 * q + (n % 100) / 10) + (n % 100) % 10;
  }

  /** The Russian rule depends on the last two digits only. */
  lemma {:induction false} RussianSuffixPeriodic(n: nat)
    ensures RussianSuffix(n + 100) == RussianSuffix(n)
  {
    ShiftedDigits(n);
    var m := n + 100;
    assert 11 <= m % 100 <= 14 <==> 11 <= n % 100 <= 14;
  }

  /** Adding a hundred keeps the last two digits. */
  lemma ShiftedDigits(n: nat)
    ensures (n + 100) % 100 == n % 100 && (n + 100) % 10 == n % 10
  {
    LastDigitsAgree(n);
    LastDigitsAgree(n + 100);
  }

  /**
   * The code's rule and the Russian rule part exactly on the counts from 100
   * on whose last two digits are 11 to 14: there the code takes the last
   * digit alone.
   */
  lemma SuffixesDisagreeIff(n: nat)
    ensures CommentsSuffix(n) != RussianSuffix(n) <==> n >= 100 && 11 <= n % 100 <= 14
  {
    LastDigitsAgree(n);
    if n < 100 {
      assert n % 100 == n;
    }
  }

  /** At 111 they part: the code writes "111 комментарий" where Russian says "111 комментариев". */
  lemma SuffixDiffersAt111()
    ensures CommentsSuffix(111) == One
    ensures RussianSuffix(111) == Many
  {
  }

  /** What the stats block shows: like text and class, comment count and its suffix. */
  datatype StatsView = StatsView(likesText: int, likedClass: bool, commentsText: int, suffix: string)

  /**
   * The stats block after it is synchronised: likes and the liked class are
   * read from `likesFrom`, the comment count from `commentsFrom` (the gallery
   * may read them from two different photos; the preview reads one).
   */
  function StatsOf(likesFrom: PhotoModel.PhotoData, commentsFrom: PhotoModel.PhotoData): (v: StatsView)
    ensures v.likedClass <==> likesFrom.liked
    ensures v.likesText == PhotoModel.Likes(likesFrom) && v.commentsText == PhotoModel.Comments(commentsFrom)
    ensures v.suffix == CommentsSuffix(v.commentsText)
  {
    var comments := PhotoModel.Comments(commentsFrom);
    StatsView(PhotoModel.Likes(likesFrom), likesFrom.liked, comments, CommentsSuffix(comments))
  }
}
