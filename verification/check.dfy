/**
 * `getMessage`: the message a picture checker reports, chosen by the shape
 * of its two arguments: a GIF's animation flag and frame count, an SVG's
 * object and attribute counts, the areas of compression artefacts, or the
 * red dots of each line.
 */
module Check {

  /** The argument values the function distinguishes; numbers are integers here. */
  datatype JsValue = Bool(b: bool) | Num(n: int) | Arr(items: seq<int>) | Undefined

  /** What a call produces: a message, `undefined`, or a TypeError. */
  datatype Reply = Text(text: string) | NoReply | Threw

  const AnimatedPrefix := "Переданное GIF-изображение анимировано и содержит ["
  const AnimatedSuffix := "] кадров"
  const NotAnimated := "Переданное GIF-изображение не анимировано"
  const SvgPrefix := "Переданное SVG-изображение содержит "
  const SvgMiddle := " объектов и "
  const SvgSuffix := " аттрибутов"
  const AreaPrefix := "Общая площадь артефактов сжатия: "
  const AreaSuffix := " пикселей"
  const RedDotsPrefix := "Количество красных точек во всех строчках изображения: "

  predicate IsDigit(c: char) {
    '0' <= c <= '9'
  }

  function DigitChar(d: int): (c: char)
    requires 0 <= d < 10
    ensures IsDigit(c) && c as int - '0' as int == d
  {
    ('0' as int + d) as char
  }

  /** The decimal digits of `n`, without leading zeros. */
  function NatDigits(n: nat): (s: string)
    ensures |s| > 0 && (s[0] == '0' ==> n == 0)
    ensures forall i :: 0 <= i < |s| ==> IsDigit(s[i])
  {
    if n < 10 then [DigitChar(n)] else NatDigits(n / 10) + [DigitChar(n % 10)]
  }

  /** The number a string of decimal digits denotes. */
  function DigitsValue(s: string): int
    requires forall i :: 0 <= i < |s| ==> IsDigit(s[i])
  {
    if s == [] then 0 else 10 * DigitsValue(s[..|s| - 1]) + (s[|s| - 1] as int - '0' as int)
  }

  /** Reading the digits back gives the number. */
  lemma {:induction false} DigitsRoundTrip(n: nat)
    ensures DigitsValue(NatDigits(n)) == n
  {
    if n >= 10 {
      DigitsRoundTrip(n / 10);
      var s := NatDigits(n);
      assert s[..|s| - 1] == NatDigits(n / 10);
    }
  }

  /** `String(n)` for an integer. */
  function Decimal(n: int): (r: string)
    ensures |r| > 0 && (r[0] == '-' <==> n < 0)
    ensures forall i :: (if n < 0 then 1 else 0) <= i < |r| ==> IsDigit(r[i])
  {
    if n < 0 then "-" + NatDigits(-n) else NatDigits(n)
  }

  /** The decimal form reads back as the number: its sign, then the digits of the magnitude. */
  lemma {:induction false} DecimalRoundTrip(n: int)
    ensures var r := Decimal(n);
      if n < 0 then DigitsValue(r[1..]) == -n else DigitsValue(r) == n
  {
    if n < 0 {
      DigitsRoundTrip(-n);
      assert Decimal(n)[1..] == NatDigits(-n);
    } else {
      DigitsRoundTrip(n);
    }
  }

  /** `String(v)`, as `+` converts a value when the other operand is a string. */
  function Show(v: JsValue): string {
    match v
    case Bool(b) => if b then "true" else "false"
    case Num(n) => Decimal(n)
    case Arr(items) => Join(items)
    case Undefined => "undefined"
  }

  /** The elements written in decimal and separated by commas, as arrays print. */
  function Join(items: seq<int>): string {
    if items == [] then ""
    else if |items| == 1 then Decimal(items[0])
    else Decimal(items[0]) + "," + Join(items[1..])
  }

  /** The sum of `a[i] * b[i]` over the first `|a|` positions. */
  function Dot(a: seq<int>, b: seq<int>): int
    requires |a| <= |b|
  {
    if a == [] then 0 else Dot(a[..|a| - 1], b) + a[|a| - 1] * b[|a| - 1]
  }

  function Sum(a: seq<int>): int {
    if a == [] then 0 else Sum(a[..|a| - 1]) + a[|a| - 1]
  }

  /** The total of two pieces is the sum of their totals: the order of the fold does not matter. */
  lemma {:induction false} SumAppend(a: seq<int>, b: seq<int>)
    ensures Sum(a + b) == Sum(a) + Sum(b)
    decreases |b|
  {
    if b != [] {
      assert (a + b)[..|a + b| - 1] == a + b[..|b| - 1];
      SumAppend(a, b[..|b| - 1]);
    } else {
      assert a + b == a;
    }
  }

  /** Multiplying by a row of ones adds up the row. */
  lemma {:induction false} DotWithOnes(a: seq<int>, ones: seq<int>)
    requires |a| <= |ones|
    requires forall i :: 0 <= i < |ones| ==> ones[i] == 1
    ensures Dot(a, ones) == Sum(a)
  {
    if a != [] {
      DotWithOnes(a[..|a| - 1], ones);
    }
  }

  /** The loop of the artefact branch: `square += a[i] * b[i]` over the whole of `a`. */
  method DotProduct(a: seq<int>, b: seq<int>) returns (square: int)
    requires |a| == |b|
    ensures square == Dot(a, b)
  {
    square := 0;
    var i := 0;
    while i < |a|
      invariant i <= |a|
      invariant square == Dot(a[..i], b)
    {
      assert a[..i + 1][..i] == a[..i];
      square := square + a[i] * b[i];
      i := i + 1;
    }
    assert a[..|a|] == a;
  }

  /** `a.reduce((sum, x) => sum + x)` on a non-empty array: starts from the first element. */
  method Reduce(a: seq<int>) returns (sum: int)
    requires |a| > 0
    ensures sum == Sum(a)
  {
    sum := a[0];
    assert a[..1] == [a[0]];
    assert a[..1][..0] == [];
    var i := 1;
    while i < |a|
      invariant 1 <= i <= |a|
      invariant sum == Sum(a[..i])
    {
      assert a[..i + 1][..i] == a[..i];
      sum := sum + a[i];
      i := i + 1;
    }
    assert a[..|a|] == a;
  }

  /** `v.length > 0` for an argument other than `undefined`: only a non-empty array passes. */
  predicate NonEmptyArray(v: JsValue) {
    v.Arr? && |v.items| > 0
  }

  /**
   * The branches in their order: `true`, `false`, two numbers, a non-empty
   * array paired with an equally long non-empty array, a non-empty array with
   * anything else. Reading `length` of `undefined` throws; every other
   * argument shape has no message.
   */
  method GetMessage(a: JsValue, b: JsValue) returns (r: Reply)
    ensures a == Bool(true) ==> r == Text(AnimatedPrefix + Show(b) + AnimatedSuffix)
    ensures a == Bool(false) ==> r == Text(NotAnimated)
    ensures a.Num? && b.Num? ==> r == Text(SvgPrefix + Decimal(a.n) + SvgMiddle + Decimal(b.n * 4) + SvgSuffix)
    ensures a.Num? && !b.Num? ==> r == NoReply
    ensures a.Undefined? ==> r == Threw
    ensures a.Arr? && |a.items| == 0 ==> r == NoReply
    ensures NonEmptyArray(a) && b.Undefined? ==> r == Threw
    ensures NonEmptyArray(a) && NonEmptyArray(b) && |a.items| == |b.items| ==>
      r == Text(AreaPrefix + Decimal(Dot(a.items, b.items)) + AreaSuffix)
    ensures NonEmptyArray(a) && !b.Undefined? && !(NonEmptyArray(b) && |a.items| == |b.items|) ==>
      r == Text(RedDotsPrefix + Decimal(Sum(a.items)))
  {
    if a == Bool(true) {
      return Text(AnimatedPrefix + Show(b) + AnimatedSuffix);
    } else if a == Bool(false) {
      return Text(NotAnimated);
    } else if a.Num? && b.Num? {
      return Text(SvgPrefix + Decimal(a.n) + SvgMiddle + Decimal(b.n * 4) + SvgSuffix);
    } else if a.Undefined? {
      return Threw;
    } else if NonEmptyArray(a) {
      if b.Undefined? {
        return Threw;
      } else if NonEmptyArray(b) && |a.items| == |b.items| {
        var square := DotProduct(a.items, b.items);
        return Text(AreaPrefix + Decimal(square) + AreaSuffix);
      } else {
        var sum := Reduce(a.items);
        return Text(RedDotsPrefix + Decimal(sum));
      }
    }
    return NoReply;
  }
}
