/**
 * The picture listing: the filters that order and select the loaded photos,
 * the pages of twelve that are rendered as the page scrolls, and the address
 * hash that opens the gallery on a photo.
 */
module Pictures {
  import opened Wrappers
  import opened Web
  import opened PhotoModel
  import Gallery

  const PageSize := 12
  /** Two weeks, in milliseconds: the age limit of the "new" filter. */
  const FreshWindowMs := 14 * 24 * 60 * 60 * 1000

  const PopularFilter := "filter-popular"
  const NewFilter := "filter-new"
  const DiscussedFilter := "filter-discussed"

  /** The key a filter sorts on, from the largest to the smallest. */
  datatype Order = ByLikes | ByComments | ByDate(now: int)

  function Key(o: Order, p: PhotoData): int {
    match o
    case ByLikes => Likes(p)
    case ByComments => Comments(p)
    case ByDate(now) => Date(p, now)
  }

  predicate SortedDesc(s: seq<PhotoData>, o: Order) {
    forall i, j :: 0 <= i < j < |s| ==> Key(o, s[i]) >= Key(o, s[j])
  }

  /** Places `x` into a sorted list ahead of the first photo whose key is not larger. */
  function Insert(x: PhotoData, t: seq<PhotoData>, o: Order): (r: seq<PhotoData>)
    requires SortedDesc(t, o)
    ensures SortedDesc(r, o)
    ensures multiset(r) == multiset(t) + multiset{x}
    ensures |r| > 0 && (r[0] == x || (|t| > 0 && r[0] == t[0]))
  {
    if t == [] || Key(o, t[0]) <= Key(o, x) then
      ConsSorted(x, t, o);
      [x] + t
    else
      assert t == [t[0]] + t[1..];
      SortedTail(t, o);
      var rest := Insert(x, t[1..], o);
      ConsSorted(t[0], rest, o);
      [t[0]] + rest
  }

  /** A photo whose key is at least that of a sorted list's head can go in front of it. */
  lemma ConsSorted(a: PhotoData, s: seq<PhotoData>, o: Order)
    requires SortedDesc(s, o) && (s == [] || Key(o, a) >= Key(o, s[0]))
    ensures SortedDesc([a] + s, o)
  {
    var r := [a] + s;
    forall i, j | 0 <= i < j < |r|
      ensures Key(o, r[i]) >= Key(o, r[j])
    {
      if i > 0 {
        assert r[i] == s[i - 1] && r[j] == s[j - 1];
      } else {
        assert r[j] == s[j - 1];
      }
    }
  }

  lemma SortedTail(s: seq<PhotoData>, o: Order)
    requires SortedDesc(s, o) && |s| > 0
    ensures SortedDesc(s[1..], o)
  {
  }

  /** The photos ordered from the largest key to the smallest, as the comparator `b - a` orders them. */
  function SortDesc(s: seq<PhotoData>, o: Order): (r: seq<PhotoData>)
    ensures SortedDesc(r, o)
    ensures multiset(r) == multiset(s)
  {
    if s == [] then []
    else
      assert s == [s[0]] + s[1..];
      Insert(s[0], SortDesc(s[1..], o), o)
  }

  /** A photo is new when it was taken at most two weeks before `now`. */
  predicate Fresh(p: PhotoData, now: int) {
    Date(p, now) >= now - FreshWindowMs
  }

  /** The new photos of `s`, each as many times as it occurs there, in their order. */
  function FreshOnly(s: seq<PhotoData>, now: int): (r: seq<PhotoData>)
    ensures forall i :: 0 <= i < |r| ==> Fresh(r[i], now)
    ensures forall p :: multiset(r)[p] == if Fresh(p, now) then multiset(s)[p] else 0
  {
    if s == [] then []
    else
      assert s == [s[0]] + s[1..];
      if Fresh(s[0], now) then [s[0]] + FreshOnly(s[1..], now) else FreshOnly(s[1..], now)
  }

  /** The list a filter shows: sorted copies for popular and discussed, new photos by date, or the list as loaded. */
  function ApplyFilter(loaded: seq<PhotoData>, id: string, now: int): (r: seq<PhotoData>)
    ensures id == PopularFilter ==> multiset(r) == multiset(loaded) && SortedDesc(r, ByLikes)
    ensures id == DiscussedFilter ==> multiset(r) == multiset(loaded) && SortedDesc(r, ByComments)
    ensures id == NewFilter ==> SortedDesc(r, ByDate(now))
    ensures id == NewFilter ==> forall p :: multiset(r)[p] == if Fresh(p, now) then multiset(loaded)[p] else 0
    ensures id !in {PopularFilter, NewFilter, DiscussedFilter} ==> r == loaded
  {
    if id == PopularFilter then SortDesc(loaded, ByLikes)
    else if id == NewFilter then SortDesc(FreshOnly(loaded, now), ByDate(now))
    else if id == DiscussedFilter then SortDesc(loaded, ByComments)
    else loaded
  }

  /** Every filter shows photos of the loaded list only, and no more of them than were loaded. */
  lemma FilterShowsLoadedPhotos(loaded: seq<PhotoData>, id: string, now: int)
    ensures multiset(ApplyFilter(loaded, id, now)) <= multiset(loaded)
  {
    var r := ApplyFilter(loaded, id, now);
    if id == NewFilter {
      forall p ensures multiset(r)[p] <= multiset(loaded)[p] {
      }
    }
  }

  function MinNat(a: nat, b: nat): nat {
    if a <= b then a else b
  }

  /** `slice(12p, 12p + 12)`: page `p` of the list, cut short at its end. */
  function PageSlice(s: seq<PhotoData>, page: nat): (r: seq<PhotoData>)
    ensures |r| <= PageSize
    ensures PageSize * page >= |s| ==> r == []
    ensures PageSize * page < |s| ==> r == s[PageSize * page..MinNat(PageSize * page + PageSize, |s|)]
  {
    var from := MinNat(PageSize * page, |s|);
    s[from..MinNat(from + PageSize, |s|)]
  }

  /** The number of photos shown once pages 0 to `page` are rendered. */
  function ShownCount(n: nat, page: nat): nat {
    MinNat(PageSize * (page + 1), n)
  }

  /** Appending the next page to the first pages gives the first pages one longer. */
  lemma {:induction false} NextPageExtends(s: seq<PhotoData>, page: nat)
    ensures s[..ShownCount(|s|, page)] + PageSlice(s, page + 1) == s[..ShownCount(|s|, page + 1)]
  {
    var a := ShownCount(|s|, page);
    var b := ShownCount(|s|, page + 1);
    assert PageSize * (page + 1) == PageSize * page + PageSize;
    assert PageSlice(s, page + 1) == s[a..b];
    assert s[..a] + s[a..b] == s[..b];
  }

  /** Another page is due when the pages rendered so far do not reach the end and the viewport has room. */
  predicate NeedToRenderNextPage(page: nat, count: nat, viewportHasRoom: bool) {
    PageSize * (page + 1) < count && viewportHasRoom
  }

  /** A page is due exactly when the viewport has room and some photo is not shown yet. */
  lemma NextPageDueIff(page: nat, count: nat, viewportHasRoom: bool)
    ensures NeedToRenderNextPage(page, count, viewportHasRoom) <==> viewportHasRoom && ShownCount(count, page) < count
  {
  }

  /**
   * The listing: the loaded and the filtered photos, the active filter, the
   * last rendered page and the photos rendered so far, and the gallery that
   * opens on them.
   */
  datatype Listing = Listing(
    loaded: seq<PhotoData>,
    filtered: seq<PhotoData>,
    activeFilter: string,
    page: nat,
    rendered: seq<PhotoData>,
    gallery: Gallery.GalleryState)

  /** The rendered photos are pages 0 to `page` of the filtered list. */
  predicate Paged(l: Listing) {
    l.rendered == l.filtered[..ShownCount(|l.filtered|, l.page)]
  }

  /**
   * Renders pages while another one is due. `viewportHasRoom` answers the
   * viewport test for a number of rendered photos; measuring the page is
   * outside this model.
   */
  method RenderWhileDue(l: Listing, viewportHasRoom: nat -> bool) returns (m: Listing)
    requires Paged(l)
    ensures Paged(m) && m.page >= l.page
    ensures m == l.(page := m.page, rendered := m.rendered)
    ensures !NeedToRenderNextPage(m.page, |m.filtered|, viewportHasRoom(|m.rendered|))
  {
    m := l;
    while NeedToRenderNextPage(m.page, |m.filtered|, viewportHasRoom(|m.rendered|))
      invariant Paged(m) && m.page >= l.page
      invariant m == l.(page := m.page, rendered := m.rendered)
      decreases |m.filtered| - PageSize * m.page
    {
      NextPageExtends(m.filtered, m.page);
      m := m.(page := m.page + 1, rendered := m.rendered + PageSlice(m.filtered, m.page + 1));
    }
  }

  /** A fresh rendering: page 0 replaces whatever was shown, then pages follow while due. */
  method RenderReplacing(l: Listing, viewportHasRoom: nat -> bool) returns (m: Listing)
    ensures Paged(m) && m.filtered == l.filtered
    ensures m.loaded == l.loaded && m.activeFilter == l.activeFilter && m.gallery == l.gallery
    ensures |m.rendered| >= MinNat(PageSize, |l.filtered|)
    ensures !NeedToRenderNextPage(m.page, |m.filtered|, viewportHasRoom(|m.rendered|))
  {
    var first := l.(page := 0, rendered := PageSlice(l.filtered, 0));
    m := RenderWhileDue(first, viewportHasRoom);
  }

  /** The scroll handler: one more page when it is due, and then more while they are due. */
  method OnScroll(l: Listing, viewportHasRoom: nat -> bool) returns (m: Listing)
    requires Paged(l)
    ensures Paged(m) && m.page >= l.page
    ensures !NeedToRenderNextPage(l.page, |l.filtered|, viewportHasRoom(|l.rendered|)) ==> m == l
    ensures NeedToRenderNextPage(l.page, |l.filtered|, viewportHasRoom(|l.rendered|)) ==> m.page > l.page
    ensures m == l.(page := m.page, rendered := m.rendered)
    ensures !NeedToRenderNextPage(m.page, |m.filtered|, viewportHasRoom(|m.rendered|))
  {
    m := l;
    if NeedToRenderNextPage(l.page, |l.filtered|, viewportHasRoom(|l.rendered|)) {
      NextPageExtends(l.filtered, l.page);
      var next := l.(page := l.page + 1, rendered := l.rendered + PageSlice(l.filtered, l.page + 1));
      m := RenderWhileDue(next, viewportHasRoom);
    }
  }

  /**
   * Switches the listing to filter `id` at time `now`: the gallery gets the
   * new list and the listing is rendered afresh. Choosing the active filter
   * again does nothing.
   */
  method SetActiveFilter(l: Listing, id: string, now: int, viewportHasRoom: nat -> bool) returns (m: Listing)
    ensures id == l.activeFilter ==> m == l
    ensures id != l.activeFilter ==>
      m.activeFilter == id && m.loaded == l.loaded && m.filtered == ApplyFilter(l.loaded, id, now) &&
      m.gallery == Gallery.SetPictures(l.gallery, m.filtered) && Paged(m) && |m.rendered| >= MinNat(PageSize, |m.filtered|)
    ensures id != l.activeFilter ==> !NeedToRenderNextPage(m.page, |m.filtered|, viewportHasRoom(|m.rendered|))
  {
    if id == l.activeFilter {
      return l;
    }
    var filtered := ApplyFilter(l.loaded, id, now);
    var switched := l.(activeFilter := id, filtered := filtered, gallery := Gallery.SetPictures(l.gallery, filtered));
    m := RenderReplacing(switched, viewportHasRoom);
  }

  /** The longest prefix of `s` without whitespace: what `\S+` takes once it has started. */
  function NonSpaceRun(s: string): (r: string)
    ensures r <= s && NoWhitespace(r)
    ensures |r| < |s| ==> IsJsWhitespace(s[|r|])
  {
    if s == [] || IsJsWhitespace(s[0]) then []
    else [s[0]] + NonSpaceRun(s[1..])
  }

  /** The text `/#photo\/(\S+)/` looks for ahead of the capture. */
  const PhotoPrefix := "#" + Gallery.PhotoFragment

  /** `/#photo\/(\S+)/` matches at `k`: the prefix occurs there and a character other than whitespace follows it. */
  predicate MatchesAt(h: string, k: int) {
    OccursAt(h, PhotoPrefix, k) && k + |PhotoPrefix| < |h| && !IsJsWhitespace(h[k + |PhotoPrefix|])
  }

  /** `run` is what `(\S+)` captures for the match at `k`: it follows the prefix, has no whitespace and stops only at whitespace or the end. */
  predicate CapturedAt(h: string, k: int, run: string) {
    && |run| > 0 && NoWhitespace(run) && OccursAt(h, PhotoPrefix + run, k)
    && (k + |PhotoPrefix| + |run| < |h| ==> IsJsWhitespace(h[k + |PhotoPrefix| + |run|]))
  }

  /** The leftmost position from `i` on where the pattern matches. */
  function MatchStart(h: string, i: nat): (k: Option<nat>)
    requires i <= |h|
    ensures k.Some? ==> i <= k.value < |h| && MatchesAt(h, k.value)
    ensures k.Some? ==> forall j :: i <= j < k.value ==> !MatchesAt(h, j)
    ensures k.None? ==> forall j :: i <= j <= |h| ==> !MatchesAt(h, j)
    decreases |h| - i
  {
    if MatchesAt(h, i) then Some(i)
    else if i == |h| then None
    else MatchStart(h, i + 1)
  }

  /** `h.match(/#photo\/(\S+)/)[1]`: the capture of the leftmost match, or none when the pattern matches nowhere. */
  function MatchPhoto(h: string): (u: Option<string>)
    ensures u.None? <==> forall j :: 0 <= j <= |h| ==> !MatchesAt(h, j)
    ensures u.Some? <==> MatchStart(h, 0).Some?
    ensures u.Some? ==> CapturedAt(h, MatchStart(h, 0).value, u.value)
  {
    match MatchStart(h, 0)
    case None => None
    case Some(k) =>
      var rest := h[k + |PhotoPrefix|..];
      var run := NonSpaceRun(rest);
      assert |run| > 0 by {
        assert rest[0] == h[k + |PhotoPrefix|];
      }
      assert OccursAt(h, PhotoPrefix + run, k) by {
        assert h[k + |PhotoPrefix|..k + |PhotoPrefix| + |run|] == rest[..|run|];
        OccursConcat(h, PhotoPrefix, run, k);
      }
      assert k + |PhotoPrefix| + |run| < |h| ==> h[k + |PhotoPrefix| + |run|] == rest[|run|];
      Some(run)
  }

  lemma {:induction false} NoWhitespaceRunIsWhole(s: string)
    requires NoWhitespace(s)
    ensures NonSpaceRun(s) == s
  {
    if s != [] {
      NoWhitespaceRunIsWhole(s[1..]);
    }
  }

  /** A picture hash whose address is non-empty and has no whitespace matches, and captures that whole address. */
  lemma ParsesUnencodedHash(url: string)
    requires |url| > 0 && NoWhitespace(url)
    ensures MatchPhoto(Gallery.PhotoHash(url)) == Some(url)
  {
    var h := Gallery.PhotoHash(url);
    assert h == PhotoPrefix + url;
    assert OccursAt(h, PhotoPrefix, 0);
    assert h[|PhotoPrefix|..] == url;
    assert MatchStart(h, 0) == Some(0);
    NoWhitespaceRunIsWhole(url);
  }

  /**
   * The hash the gallery writes for a picture reads back with its address
   * encoded, and the pattern captures exactly that encoded address.
   */
  lemma ParsesPhotoHash(url: string)
    requires EncodeFragment(url) != ""
    ensures MatchPhoto(HashAfterAssigning(Gallery.PhotoHash(url))) == Some(EncodeFragment(url))
  {
    Gallery.PhotoHashReadsBack(url);
    SafeHasNoWhitespace(EncodeFragment(url));
    ParsesUnencodedHash(EncodeFragment(url));
  }

  /** An address made of characters the hash stores as they are comes back unchanged. */
  lemma ParsesSafePhotoHash(url: string)
    requires |url| > 0 && SafeFragment(url)
    ensures MatchPhoto(HashAfterAssigning(Gallery.PhotoHash(url))) == Some(url)
  {
    SafeIsStoredUnchanged(url);
    ParsesPhotoHash(url);
  }

  /** A hash change that names a photo selects it by address and opens the gallery. */
  function OnHashChange(g: Gallery.GalleryState): (o: Gallery.Outcome)
    ensures MatchPhoto(g.hash).None? ==> o == Gallery.Done(g)
    ensures MatchPhoto(g.hash).Some? ==>
      var sel := Gallery.SetCurrentPicture(g, Gallery.Url(MatchPhoto(g.hash).value));
      (sel.Threw? ==> o.Threw?) && (sel.Done? ==> o == Gallery.Done(Gallery.Show(sel.state)))
  {
    match MatchPhoto(g.hash)
    case None => Gallery.Done(g)
    case Some(url) =>
      match Gallery.SetCurrentPicture(g, Gallery.Url(url))
      case Threw => Gallery.Threw
      case Done(s) => Gallery.Done(Gallery.Show(s))
  }

  /**
   * The listener is installed before the photos are requested, so a photo
   * hash that changes before they arrive reaches a gallery without a list,
   * and the handler throws.
   */
  lemma HashChangeBeforeLoadThrows(g: Gallery.GalleryState)
    requires g.data.None? && MatchPhoto(g.hash).Some?
    ensures OnHashChange(g).Threw?
  {
    Gallery.NoListThrows(g, MatchPhoto(g.hash).value);
  }

  /** A click on a thumbnail closes an open photo hash and otherwise opens the clicked photo. */
  function OnThumbnailClick(g: Gallery.GalleryState, p: PhotoData): (h: Gallery.GalleryState)
    ensures Contains(g.hash, "photo") ==> h.hash == ""
    ensures !Contains(g.hash, "photo") ==> h.hash == Gallery.PhotoHash(EncodeFragment(ImageSrc(p)))
    ensures h == g.(hash := h.hash)
  {
    if Contains(g.hash, "photo") then g.(hash := HashAfterAssigning(""))
    else
      HashOfBarePrefix(Gallery.PhotoFragment, ImageSrc(p));
      g.(hash := HashAfterAssigning(Gallery.PhotoFragment + ImageSrc(p)))
  }

  /** Two clicks on a thumbnail open its photo, naming it as the gallery does, and close it again. */
  lemma ClickOpensThenCloses(g: Gallery.GalleryState, p: PhotoData)
    requires !Contains(g.hash, "photo")
    ensures OnThumbnailClick(g, p).hash == HashAfterAssigning(Gallery.PhotoHash(ImageSrc(p)))
    ensures OnThumbnailClick(OnThumbnailClick(g, p), p).hash == ""
  {
    Gallery.PhotoHashReadsBack(ImageSrc(p));
    PhotoHashMentionsPhoto(OnThumbnailClick(g, p).hash, EncodeFragment(ImageSrc(p)));
  }

  /** Every picture hash contains "photo", the text a thumbnail click looks for. */
  lemma PhotoHashMentionsPhoto(h: string, e: string)
    requires h == Gallery.PhotoHash(e)
    ensures Contains(h, "photo")
  {
    assert h[1..6] == Gallery.PhotoFragment[..5];
    assert OccursAt(h, "photo", 1);
  }

  /** A hash change naming the address of picture `k`, which no earlier picture has, selects `k` and opens the gallery. */
  lemma HashChangeSelectsFound(g: Gallery.GalleryState, url: string, k: nat)
    requires Gallery.Selected(g) && g.data.Some? && MatchPhoto(g.hash) == Some(url)
    requires k < |g.data.value| && ImageSrc(g.data.value[k]) == url
    requires forall j :: 0 <= j < k ==> ImageSrc(g.data.value[j]) != url
    ensures var o := OnHashChange(g);
      o.Done? && o.state.current == k && o.state.photo == Some(g.data.value[k]) && o.state.visible
  {
    FirstWithSrcFinds(g.data.value, url, k);
  }

  /** A hash change naming an address no picture has keeps the current picture and opens the gallery. */
  lemma HashChangeKeepsUnfound(g: Gallery.GalleryState, url: string)
    requires Gallery.Selected(g) && g.data.Some? && MatchPhoto(g.hash) == Some(url)
    requires forall j :: 0 <= j < |g.data.value| ==> ImageSrc(g.data.value[j]) != url
    ensures var o := OnHashChange(g);
      o.Done? && o.state.current == g.current && o.state.photo == g.photo && o.state.visible
  {
    assert Gallery.FirstWithSrc(g.data.value, url, 0).None?;
  }

  /** A hash naming an address made of characters the hash stores as they are captures that address. */
  lemma SafePhotoHashParses(h: string, e: string)
    requires h == Gallery.PhotoHash(e) && |e| > 0 && SafeFragment(e)
    ensures MatchPhoto(h) == Some(e)
  {
    SafeHasNoWhitespace(e);
    ParsesUnencodedHash(e);
  }

  /** A picture hash, with an address the hash stores unencoded, selects the first picture with that address. */
  lemma PhotoHashSelectsFound(g: Gallery.GalleryState, e: string, k: nat)
    requires g.hash == Gallery.PhotoHash(e) && |e| > 0 && SafeFragment(e)
    requires Gallery.Selected(g) && g.data.Some?
    requires k < |g.data.value| && ImageSrc(g.data.value[k]) == e
    requires forall j :: 0 <= j < k ==> ImageSrc(g.data.value[j]) != e
    ensures var o := OnHashChange(g);
      o.Done? && o.state.current == k && o.state.photo == Some(g.data.value[k]) && o.state.visible
  {
    SafePhotoHashParses(g.hash, e);
    HashChangeSelectsFound(g, e, k);
  }

  /** A picture hash naming an address no picture has keeps the current picture. */
  lemma PhotoHashKeepsUnfound(g: Gallery.GalleryState, e: string)
    requires g.hash == Gallery.PhotoHash(e) && |e| > 0 && SafeFragment(e)
    requires Gallery.Selected(g) && g.data.Some?
    requires forall j :: 0 <= j < |g.data.value| ==> ImageSrc(g.data.value[j]) != e
    ensures var o := OnHashChange(g);
      o.Done? && o.state.current == g.current && o.state.photo == g.photo && o.state.visible
  {
    SafePhotoHashParses(g.hash, e);
    HashChangeKeepsUnfound(g, e);
  }

  /**
   * Going forward in the gallery and handling the hash change it causes
   * selects the next picture, when its address is non-empty, is stored in
   * the hash unencoded, differs from the hash already there (otherwise no
   * change event fires), and no earlier picture has it.
   */
  lemma NextThenHashChangeSelectsNext(g: Gallery.GalleryState)
    requires Gallery.Selected(g) && g.data.Some? && g.current + 1 < |g.data.value|
    requires var url := ImageSrc(g.data.value[g.current + 1]);
      && |url| > 0 && SafeFragment(url) && g.hash != Gallery.PhotoHash(url)
      && forall j :: 0 <= j <= g.current ==> ImageSrc(g.data.value[j]) != url
    ensures var moved := Gallery.NextPicture(g);
      && moved.Done?
      && var o := OnHashChange(moved.state);
      && o.Done? && o.state.current == g.current + 1 && o.state.photo == Some(g.data.value[g.current + 1])
      && o.state.visible
  {
    var url := ImageSrc(g.data.value[g.current + 1]);
    var moved := g.(hash := Gallery.PhotoHash(url));
    assert Gallery.NextPicture(g) == Gallery.Done(moved) by {
      SafeIsStoredUnchanged(url);
    }
    PhotoHashSelectsFound(moved, url, g.current + 1);
  }

  /**
   * An address the hash stores encoded comes back as its encoding, which the
   * search by address does not find when no picture has it: the gallery
   * stays on the picture it was showing.
   */
  lemma EncodedAddressKeepsSelection(g: Gallery.GalleryState)
    requires Gallery.Selected(g) && g.data.Some? && g.current + 1 < |g.data.value|
    requires var url := ImageSrc(g.data.value[g.current + 1]);
      && EncodeFragment(url) != ""
      && forall j :: 0 <= j < |g.data.value| ==> ImageSrc(g.data.value[j]) != EncodeFragment(url)
    ensures var moved := Gallery.NextPicture(g);
      && moved.Done?
      && var o := OnHashChange(moved.state);
      && o.Done? && o.state.current == g.current && o.state.photo == g.photo && o.state.visible
  {
    var e := EncodeFragment(ImageSrc(g.data.value[g.current + 1]));
    var moved := g.(hash := Gallery.PhotoHash(e));
    assert Gallery.NextPicture(g) == Gallery.Done(moved);
    PhotoHashKeepsUnfound(moved, e);
  }

  /** The search by address finds `k` when `k` has the address and no earlier picture does. */
  lemma FirstWithSrcFinds(pictures: seq<PhotoData>, url: string, k: nat)
    requires k < |pictures| && ImageSrc(pictures[k]) == url
    requires forall j :: 0 <= j < k ==> ImageSrc(pictures[j]) != url
    ensures Gallery.FirstWithSrc(pictures, url, 0) == Some(k)
  {
    var found := Gallery.FirstWithSrc(pictures, url, 0);
    assert found.Some? ==> ImageSrc(pictures[found.value]) == url;
  }
}
