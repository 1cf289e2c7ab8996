/**
 * The data model behind one photograph: the record loaded from the server
 * (or none), the viewer's own like, and the objects subscribed to its
 * change notifications.
 */
module PhotoModel {
  import opened Wrappers

  /** The fields of one loaded record; `date` is its time value in milliseconds. */
  datatype Record = Record(likes: int, comments: int, date: int, url: string)

  /**
   * A subscriber, compared by identity as `indexOf` does; `methods` names the
   * members of the object that are functions.
   */
  datatype Subscriber = Subscriber(id: nat, methods: set<string>)

  datatype PhotoData = PhotoData(data: Option<Record>, liked: bool, subscribers: seq<Subscriber>)

  /** A freshly constructed photo: not liked, nobody subscribed. */
  function NewPhotoData(data: Option<Record>): (p: PhotoData)
    ensures !p.liked && p.subscribers == [] && p.data == data
  {
    PhotoData(data, false, [])
  }

  function Likes(p: PhotoData): int {
    if p.data.Some? then p.data.value.likes else 0
  }

  function Comments(p: PhotoData): int {
    if p.data.Some? then p.data.value.comments else 0
  }

  /** The photo's date; a photo without a record is dated at the moment of the call. */
  function Date(p: PhotoData, now: int): int {
    if p.data.Some? then p.data.value.date else now
  }

  function ImageSrc(p: PhotoData): string {
    if p.data.Some? then p.data.value.url else ""
  }

  /** Without a record every getter answers its neutral value. */
  lemma DefaultsWithoutRecord(p: PhotoData, now: int)
    requires p.data.None?
    ensures Likes(p) == 0 && Comments(p) == 0 && ImageSrc(p) == "" && Date(p, now) == now
  {
  }

  predicate NoDuplicates(s: seq<Subscriber>) {
    forall i, j :: 0 <= i < j < |s| ==> s[i] != s[j]
  }

  /** Subscribes `obj` unless it is already subscribed. */
  function AddSubscriber(p: PhotoData, obj: Subscriber): (q: PhotoData)
    ensures q.data == p.data && q.liked == p.liked
    ensures obj in q.subscribers
    ensures p.subscribers <= q.subscribers && |q.subscribers| <= |p.subscribers| + 1
    ensures forall s :: s in q.subscribers <==> s in p.subscribers || s == obj
    ensures NoDuplicates(p.subscribers) ==> NoDuplicates(q.subscribers)
  {
    if obj in p.subscribers then p
    else p.(subscribers := p.subscribers + [obj])
  }

  /** Subscribing the same object twice is the same as subscribing it once. */
  lemma AddSubscriberIdempotent(p: PhotoData, obj: Subscriber)
    ensures AddSubscriber(AddSubscriber(p, obj), obj) == AddSubscriber(p, obj)
  {
  }

  /** The member called for an event: `_on` followed by the event's name. */
  function HandlerName(eventName: string): string {
    "_on" + eventName
  }

  /**
   * The positions, from `from` on, of the subscribers that have a `handler`
   * method, in subscription order.
   */
  function Listeners(subs: seq<Subscriber>, handler: string, from: nat): (ks: seq<nat>)
    requires from <= |subs|
    ensures forall i :: 0 <= i < |ks| ==> from <= ks[i] < |subs|
    ensures forall i, j :: 0 <= i < j < |ks| ==> ks[i] < ks[j]
    ensures forall k :: k in ks <==> from <= k < |subs| && handler in subs[k].methods
    decreases |subs| - from
  {
    if from == |subs| then []
    else if handler in subs[from].methods then [from] + Listeners(subs, handler, from + 1)
    else Listeners(subs, handler, from + 1)
  }

  /**
   * Notifies the subscribers of `eventName`: returns, in the order of the
   * calls, the positions of the subscribers whose handler is called.
   */
  method FireEvent(subs: seq<Subscriber>, eventName: string) returns (called: seq<nat>)
    ensures forall i, j :: 0 <= i < j < |called| ==> called[i] < called[j]
    ensures forall k :: k in called <==> 0 <= k < |subs| && HandlerName(eventName) in subs[k].methods
    ensures called == Listeners(subs, HandlerName(eventName), 0)
  {
    var handler := HandlerName(eventName);
    called := [];
    var i := 0;
    while i < |subs|
      invariant i <= |subs|
      invariant called + Listeners(subs, handler, i) == Listeners(subs, handler, 0)
    {
      ghost var rest := Listeners(subs, handler, i + 1);
      if handler in subs[i].methods {
        assert Listeners(subs, handler, i) == [i] + rest;
        assert called + [i] + rest == called + ([i] + rest);
        called := called + [i];
      } else {
        assert Listeners(subs, handler, i) == rest;
      }
      i := i + 1;
    }
    assert Listeners(subs, handler, i) == [];
    assert called + [] == called;
  }

  /** The photo after a like change and the subscribers notified of it, in order. */
  datatype LikeChange = LikeChange(photo: PhotoData, notified: seq<nat>)

  const ChangeEvent := "PhotoDataChange"

  /**
   * The viewer likes (`like`) or unlikes the photo: the flag is set in every
   * case; only a photo with a record counts the change and notifies.
   */
  function SetLike(p: PhotoData, like: bool): (c: LikeChange)
    ensures c.photo.liked == like && c.photo.subscribers == p.subscribers
    ensures c.photo.data.Some? <==> p.data.Some?
    ensures p.data.Some? ==> Likes(c.photo) == Likes(p) + (if like then 1 else -1)
    ensures p.data.Some? ==> c.photo.data.value == p.data.value.(likes := c.photo.data.value.likes)
    ensures forall i, j :: 0 <= i < j < |c.notified| ==> c.notified[i] < c.notified[j]
    ensures p.data.Some? ==> forall k :: k in c.notified <==> 0 <= k < |p.subscribers| && HandlerName(ChangeEvent) in p.subscribers[k].methods
    ensures p.data.None? ==> c.photo == p.(liked := like) && c.notified == []
  {
    if p.data.Some? then
      var r := p.data.value;
      var q := p.(liked := like, data := Some(r.(likes := r.likes + if like then 1 else -1)));
      LikeChange(q, Listeners(p.subscribers, HandlerName(ChangeEvent), 0))
    else
      LikeChange(p.(liked := like), [])
  }

  /** A like followed by an unlike restores the count and clears the flag. */
  lemma LikeThenUnlikeRestores(p: PhotoData)
    ensures SetLike(SetLike(p, true).photo, false).photo == p.(liked := false)
  {
  }

  /** Liking twice counts twice: the operation is not idempotent. */
  lemma DoubleLikeAddsTwo(p: PhotoData)
    requires p.data.Some?
    ensures Likes(SetLike(SetLike(p, true).photo, true).photo) == Likes(p) + 2
  {
  }
}
