/**
 * The full-screen gallery overlay: which picture of the current list it
 * shows, the stats block it keeps in step with that picture, navigation by
 * rewriting the address hash, and the keyboard shortcuts.
 */
module Gallery {
  import opened Wrappers
  import opened Web
  import opened PhotoModel
  import Stats

  /** What the overlay shows for the current photo: its image and its stats block. */
  datatype Shown = Shown(imageSrc: string, stats: Stats.StatsView)

  /**
   * The overlay's state. `data` is the list of pictures, none until the
   * listing hands one over; `current` is the index of the current picture and
   * `photo` the current photo itself (none before the first selection);
   * `hash` is the address hash as it reads now.
   */
  datatype GalleryState = GalleryState(
    data: Option<seq<PhotoData>>,
    current: nat,
    photo: Option<PhotoData>,
    visible: bool,
    hash: string,
    shown: Option<Shown>)

  /** The result of an operation: the new state, or the TypeError the script stops with. */
  datatype Outcome = Done(state: GalleryState) | Threw

  function NewGallery(hash: string): (g: GalleryState)
    ensures g.data.None? && g.current == 0 && g.photo.None? && !g.visible && g.shown.None?
    ensures g.hash == hash
  {
    GalleryState(None, 0, None, false, hash, None)
  }

  /** The index and the photo agree with the list. */
  predicate Selected(g: GalleryState) {
    g.photo.Some? ==> g.data.Some? && g.current < |g.data.value| && g.photo.value == g.data.value[g.current]
  }

  /** Replaces the list of pictures; the index and the photo are kept as they were. */
  function SetPictures(g: GalleryState, pictures: seq<PhotoData>): (h: GalleryState)
    ensures h.data == Some(pictures)
    ensures h.current == g.current && h.photo == g.photo && h.shown == g.shown
    ensures h.visible == g.visible && h.hash == g.hash
  {
    g.(data := Some(pictures))
  }

  /** The picture at `n`, when `n` is an index of the list. */
  function PictureByNumber(pictures: seq<PhotoData>, n: int): (p: Option<PhotoData>)
    ensures p.Some? <==> 0 <= n < |pictures|
    ensures p.Some? ==> p.value == pictures[n]
  {
    if 0 <= n < |pictures| then Some(pictures[n]) else None
  }

  /** The first index, from `from` on, whose picture has the address `url`. */
  function FirstWithSrc(pictures: seq<PhotoData>, url: string, from: nat): (k: Option<nat>)
    requires from <= |pictures|
    ensures k.Some? ==> from <= k.value < |pictures| && ImageSrc(pictures[k.value]) == url
    ensures k.Some? ==> forall j :: from <= j < k.value ==> ImageSrc(pictures[j]) != url
    ensures k.None? ==> forall j :: from <= j < |pictures| ==> ImageSrc(pictures[j]) != url
    decreases |pictures| - from
  {
    if from == |pictures| then None
    else if ImageSrc(pictures[from]) == url then Some(from)
    else FirstWithSrc(pictures, url, from + 1)
  }

  /** How a picture is named: by its position, or by its address. */
  datatype PictureId = Number(n: int) | Url(url: string)

  /**
   * The index and photo after selecting `id`. Both branches read the list's
   * length, except a negative number, which fails its first test; without a
   * list that read throws. An unknown `id` keeps the old selection.
   */
  function Select(g: GalleryState, id: PictureId): (o: Outcome)
    ensures o.Done? ==> o.state == g.(current := o.state.current, photo := o.state.photo)
    ensures id.Number? && id.n < 0 ==> o == Done(g)
    ensures g.data.None? && !(id.Number? && id.n < 0) ==> o == Threw
    ensures g.data.Some? ==> o.Done?
    ensures g.data.Some? && id.Number? && 0 <= id.n < |g.data.value| ==>
      o.state.current == id.n && o.state.photo == Some(g.data.value[id.n])
    ensures g.data.Some? && id.Number? && id.n >= |g.data.value| ==> o == Done(g)
    ensures g.data.Some? && id.Url? && FirstWithSrc(g.data.value, id.url, 0).None? ==> o == Done(g)
    ensures g.data.Some? && id.Url? && FirstWithSrc(g.data.value, id.url, 0).Some? ==>
      var k := FirstWithSrc(g.data.value, id.url, 0).value;
      o.state.current == k && o.state.photo == Some(g.data.value[k])
  {
    match id
    case Number(n) =>
      if n < 0 then Done(g)
      else if g.data.None? then Threw
      else if n < |g.data.value| then Done(g.(current := n, photo := Some(g.data.value[n])))
      else Done(g)
    case Url(url) =>
      if g.data.None? then Threw
      else
        match FirstWithSrc(g.data.value, url, 0)
        case Some(k) => Done(g.(current := k, photo := Some(g.data.value[k])))
        case None => Done(g)
  }

  /**
   * Selects a picture and, when there is a current photo, shows it: the image
   * and the comment count come from the current photo, the likes from the
   * list at the current index. Reading the likes throws when there is no list
   * or the list no longer has the current index.
   */
  function SetCurrentPicture(g: GalleryState, id: PictureId): (o: Outcome)
    ensures Select(g, id).Threw? ==> o == Threw
    ensures var sel := Select(g, id);
      sel.Done? && sel.state.photo.None? ==> o == sel
    ensures var sel := Select(g, id);
      sel.Done? && sel.state.photo.Some? && (g.data.None? || sel.state.current >= |g.data.value|) ==> o == Threw
    ensures var sel := Select(g, id);
      sel.Done? && sel.state.photo.Some? && g.data.Some? && sel.state.current < |g.data.value| ==>
        var s := sel.state;
        && o.Done? && o.state == s.(shown := o.state.shown) && o.state.shown.Some?
        && o.state.shown.value.imageSrc == ImageSrc(s.photo.value)
        && o.state.shown.value.stats == Stats.StatsOf(g.data.value[s.current], s.photo.value)
  {
    match Select(g, id)
    case Threw => Threw
    case Done(s) =>
      if s.photo.None? then Done(s)
      else if s.data.None? || s.current >= |s.data.value| then Threw
      else
        var photo := s.photo.value;
        Done(s.(shown := Some(Shown(ImageSrc(photo), Stats.StatsOf(s.data.value[s.current], photo)))))
  }

  /** Selecting from a state that agrees with its list never throws, and the result agrees too. */
  lemma SelectedStateShowsItsPhoto(g: GalleryState, id: PictureId)
    requires Selected(g) && g.data.Some?
    ensures SetCurrentPicture(g, id).Done?
    ensures Selected(SetCurrentPicture(g, id).state)
    ensures var h := SetCurrentPicture(g, id).state;
      h.photo.Some? ==> h.shown == Some(Shown(ImageSrc(h.photo.value), Stats.StatsOf(h.photo.value, h.photo.value)))
  {
  }

  /** Before the list arrives, naming a picture by its address throws. */
  lemma NoListThrows(g: GalleryState, url: string)
    requires g.data.None?
    ensures SetCurrentPicture(g, Url(url)) == Threw
  {
  }

  /** A photo whose like count changes is shown with the new count on the next selection. */
  lemma ShownStatsFollowLikes(g: GalleryState, like: bool)
    requires g.photo.Some? && Selected(g) && g.photo.value.data.Some?
    ensures var p := SetLike(g.photo.value, like).photo;
      var o := SetCurrentPicture(g.(data := Some(g.data.value[g.current := p]), photo := Some(p)), Number(g.current));
      && o.Done?
      && o.state.shown.value.stats.likesText == Likes(g.photo.value) + (if like then 1 else -1)
      && o.state.shown.value.stats.likedClass == like
  {
  }

  /** The fragment that names a picture in the address hash, before its address. */
  const PhotoFragment := "photo/"

  /** The address hash that names a picture in the gallery. */
  function PhotoHash(url: string): string {
    "#" + PhotoFragment + url
  }

  /** The picture's hash as `location.hash` reads it back: the address is stored encoded. */
  lemma PhotoHashReadsBack(url: string)
    ensures HashAfterAssigning(PhotoHash(url)) == PhotoHash(EncodeFragment(url))
  {
    HashOfMarkedPrefix(PhotoFragment, url);
  }

  /**
   * Writes the hash of picture `n`, when there is one, and leaves the hash as
   * it then reads back (`SwitchPhotoAssignsHash`); otherwise nothing
   * happens. A negative `n` is turned away before the list is read; any
   * other `n` reads the list's length, which throws without a list.
   */
  function SwitchPhoto(g: GalleryState, n: int): (o: Outcome)
    ensures n < 0 ==> o == Done(g)
    ensures n >= 0 && g.data.None? ==> o == Threw
    ensures g.data.Some? && 0 <= n < |g.data.value| ==>
      o == Done(g.(hash := PhotoHash(EncodeFragment(ImageSrc(g.data.value[n])))))
    ensures g.data.Some? && n >= |g.data.value| ==> o == Done(g)
  {
    if n < 0 then Done(g)
    else if g.data.None? then Threw
    else
      match PictureByNumber(g.data.value, n)
      case Some(p) => Done(g.(hash := PhotoHash(EncodeFragment(ImageSrc(p)))))
      case None => Done(g)
  }

  /** The hash a switch leaves is what the address bar reads after the picture's hash is assigned to it. */
  lemma SwitchPhotoAssignsHash(g: GalleryState, n: int)
    requires g.data.Some? && 0 <= n < |g.data.value|
    ensures SwitchPhoto(g, n) == Done(g.(hash := HashAfterAssigning(PhotoHash(ImageSrc(g.data.value[n])))))
  {
    PhotoHashReadsBack(ImageSrc(g.data.value[n]));
  }

  function NextPicture(g: GalleryState): (o: Outcome)
    ensures g.data.None? ==> o == Threw
    ensures g.data.Some? && g.current + 1 < |g.data.value| ==>
      o.Done? && o.state.hash == PhotoHash(EncodeFragment(ImageSrc(g.data.value[g.current + 1])))
    ensures g.data.Some? && g.current + 1 >= |g.data.value| ==> o == Done(g)
    ensures o.Done? ==> o.state == g.(hash := o.state.hash)
  {
    SwitchPhoto(g, g.current + 1)
  }

  function PreviousPicture(g: GalleryState): (o: Outcome)
    ensures g.current == 0 ==> o == Done(g)
    ensures g.current >= 1 && g.data.None? ==> o == Threw
    ensures g.data.Some? && 1 <= g.current <= |g.data.value| ==>
      o.Done? && o.state.hash == PhotoHash(EncodeFragment(ImageSrc(g.data.value[g.current - 1])))
    ensures g.data.Some? && g.current > |g.data.value| ==> o == Done(g)
    ensures o.Done? ==> o.state == g.(hash := o.state.hash)
  {
    SwitchPhoto(g, g.current - 1)
  }

  /** Hiding clears the hash and the overlay. */
  function Hide(g: GalleryState): (h: GalleryState)
    ensures !h.visible && h.hash == ""
    ensures h.(visible := g.visible, hash := g.hash) == g
  {
    g.(visible := false, hash := HashAfterAssigning(""))
  }

  function Show(g: GalleryState): (h: GalleryState)
    ensures h.visible && h.(visible := g.visible) == g
  {
    g.(visible := true)
  }

  const KeyEscape := 27
  const KeyLeft := 37
  const KeyRight := 39

  /** Escape hides, the left arrow goes back, the right arrow goes forward; other keys do nothing. */
  function OnKeyDown(g: GalleryState, keyCode: int): (o: Outcome)
    ensures keyCode == KeyEscape ==> o.Done? && !o.state.visible && o.state.hash == ""
    ensures keyCode == KeyLeft ==> o == PreviousPicture(g)
    ensures keyCode == KeyRight ==> o == NextPicture(g)
    ensures keyCode !in {KeyEscape, KeyLeft, KeyRight} ==> o == Done(g)
  {
    if keyCode == KeyEscape then Done(Hide(g))
    else if keyCode == KeyLeft then PreviousPicture(g)
    else if keyCode == KeyRight then NextPicture(g)
    else Done(g)
  }

  /** A click on the photo goes forward, as the right arrow does. */
  function OnPhotoClick(g: GalleryState): (o: Outcome)
    ensures o == OnKeyDown(g, KeyRight)
  {
    NextPicture(g)
  }

  /** A click on the cross closes the overlay, as Escape does. */
  function OnCloseClick(g: GalleryState): (h: GalleryState)
    ensures Done(h) == OnKeyDown(g, KeyEscape)
  {
    Hide(g)
  }

  /** Navigation never changes which picture is selected; only the hash moves. With a list, it never throws. */
  lemma NavigationKeepsSelection(g: GalleryState, keyCode: int)
    ensures var o := OnKeyDown(g, keyCode);
      o.Done? ==> o.state.current == g.current && o.state.photo == g.photo && o.state.data == g.data
    ensures g.data.Some? ==> OnKeyDown(g, keyCode).Done?
  {
  }
}
