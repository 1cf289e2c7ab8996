/**
 * The photo preview: it shows one photo's image and stats block, subscribes
 * to the photo's changes, and turns a click on the like button into a like
 * or an unlike.
 */
module Preview {
  import opened Wrappers
  import opened PhotoModel
  import Stats

  /** The member through which a subscribed preview hears of a change. */
  const ChangeHandler := HandlerName(ChangeEvent)

  /**
   * The preview: itself as a subscriber (`me`), its photo (none until one is
   * set), the image it shows and its stats block (none until first drawn).
   */
  datatype PreviewState = PreviewState(me: Subscriber, photo: Option<PhotoData>, imageSrc: string, stats: Option<Stats.StatsView>)

  /** Whether the like counter carries the 'likes-count-liked' class. */
  predicate LikedClass(v: PreviewState) {
    v.stats.Some? && v.stats.value.likedClass
  }

  /** Gives the preview a photo and subscribes the preview to it. */
  function SetData(v: PreviewState, p: PhotoData): (w: PreviewState)
    ensures w.photo.Some? && w.photo.value == AddSubscriber(p, v.me)
    ensures v.me in w.photo.value.subscribers
    ensures w.stats == v.stats && w.imageSrc == v.imageSrc && w.me == v.me
  {
    v.(photo := Some(AddSubscriber(p, v.me)))
  }

  /** Refreshes the stats block from the preview's photo. */
  function UpdateStats(v: PreviewState): (w: PreviewState)
    requires v.photo.Some?
    ensures w.stats.Some?
    ensures LikedClass(w) <==> v.photo.value.liked
    ensures w.stats.value.likesText == Likes(v.photo.value)
    ensures w.stats.value.commentsText == Comments(v.photo.value)
    ensures w == v.(stats := w.stats)
  {
    v.(stats := Some(Stats.StatsOf(v.photo.value, v.photo.value)))
  }

  /** Draws the photo and its stats; a preview without a photo draws nothing. */
  function Render(v: PreviewState): (w: PreviewState)
    ensures v.photo.None? ==> w == v
    ensures v.photo.Some? ==> w.imageSrc == ImageSrc(v.photo.value) && Synced(w)
  {
    if v.photo.Some? then UpdateStats(v.(imageSrc := ImageSrc(v.photo.value))) else v
  }

  /** The stats block shows the preview's photo as it is. */
  predicate Synced(v: PreviewState) {
    v.photo.Some? && v.stats == Some(Stats.StatsOf(v.photo.value, v.photo.value))
  }

  /** Whether the preview is among the subscribers a change notification reaches. */
  predicate Hears(c: LikeChange, me: Subscriber) {
    exists k :: k in c.notified && 0 <= k < |c.photo.subscribers| && c.photo.subscribers[k] == me
  }

  /**
   * A click on the like button: likes the photo when the counter is not shown
   * as liked and unlikes it otherwise; the stats block follows when the
   * change notification reaches the preview.
   */
  function OnLikeClick(v: PreviewState): (w: PreviewState)
    requires v.photo.Some?
    ensures w.photo.Some? && w.photo.value.liked == !LikedClass(v)
    ensures w.photo.value == SetLike(v.photo.value, !LikedClass(v)).photo
    ensures Hears(SetLike(v.photo.value, !LikedClass(v)), v.me) ==> Synced(w)
    ensures !Hears(SetLike(v.photo.value, !LikedClass(v)), v.me) ==> w.stats == v.stats
  {
    var c := SetLike(v.photo.value, !LikedClass(v));
    var next := v.(photo := Some(c.photo));
    if Hears(c, v.me) then UpdateStats(next) else next
  }

  /** A subscribed preview of a photo with a record hears of every like change. */
  lemma SubscribedPreviewHears(v: PreviewState, like: bool)
    requires v.photo.Some? && v.photo.value.data.Some?
    requires v.me in v.photo.value.subscribers && ChangeHandler in v.me.methods
    ensures Hears(SetLike(v.photo.value, like), v.me)
  {
    var subs := v.photo.value.subscribers;
    var k :| 0 <= k < |subs| && subs[k] == v.me;
    assert k in SetLike(v.photo.value, like).notified;
  }

  /** One click on a synchronised preview flips the liked class and moves the count by one. */
  lemma {:induction false} LikeClickToggles(v: PreviewState)
    requires Synced(v) && v.photo.value.data.Some?
    requires v.me in v.photo.value.subscribers && ChangeHandler in v.me.methods
    ensures var w := OnLikeClick(v);
      Synced(w) && (LikedClass(w) <==> !LikedClass(v)) &&
      w.stats.value.likesText == v.stats.value.likesText + (if LikedClass(v) then -1 else 1)
  {
    SubscribedPreviewHears(v, !LikedClass(v));
  }

  /** Two clicks on a synchronised preview leave the photo and the stats block as they were. */
  lemma {:induction false} TwoClicksRestore(v: PreviewState)
    requires Synced(v) && v.photo.value.data.Some?
    requires v.me in v.photo.value.subscribers && ChangeHandler in v.me.methods
    ensures OnLikeClick(OnLikeClick(v)) == v
  {
    LikeClickToggles(v);
    var w := OnLikeClick(v);
    LikeClickToggles(w);
  }

  /** Without a record nothing is notified, so the class never changes and every click is a like. */
  lemma ClickWithoutRecordAlwaysLikes(v: PreviewState)
    requires v.photo.Some? && v.photo.value.data.None? && !LikedClass(v)
    ensures OnLikeClick(v).photo.value.liked
    ensures OnLikeClick(OnLikeClick(v)).photo.value.liked
    ensures OnLikeClick(OnLikeClick(v)).stats == v.stats
  {
  }
}
