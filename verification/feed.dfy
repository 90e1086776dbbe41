/**
 The home page (`index`): for a signed-in user, the photos of the authors the
 user follows, newest first; for an anonymous visitor, no feed.
 */
module Feed {
  import opened Rows
  import opened Store
  import opened Ordering

  /** Selects the photos whose author `user` follows (the join on the follow table). */
  function ByFollowed(follows: set<(UserId, UserId)>, user: UserId): Photo -> bool
  {
    (p: Photo) => (user, p.author) in follows
  }

  /**
   The followed authors' photos, newest first: exactly the photos whose
   author `user` follows.
   */
  function FollowedPhotos(db: Db, user: UserId): (r: seq<Photo>)
    ensures forall p :: p in r <==> p in db.photos && (user, p.author) in db.follows
    ensures multiset(r) == multiset(Keep(db.photos, ByFollowed(db.follows, user)))
    ensures NonIncreasing(r, PhotoTime)
  {
    var r := SortDesc(Keep(db.photos, ByFollowed(db.follows, user)), PhotoTime);
    assert forall p :: ByFollowed(db.follows, user)(p) <==> (user, p.author) in db.follows;
    assert forall p :: p in r <==> p in multiset(r);
    r
  }

  /**
   `index`: `None` for an anonymous visitor; otherwise the feed of followed
   authors. `viewer` is the signed-in user, if any. The source tests
   `current_user.is_authenticate`, while Flask-Login's attribute is
   `is_authenticated`; an anonymous visitor has no such attribute, so as
   written that request fails. The intended test of being signed in is
   modelled.
   */
  function Index(db: Db, viewer: Option<UserId>): (r: Option<seq<Photo>>)
    ensures r.None? <==> viewer.None?
    ensures r.Some? ==> forall p :: p in r.value <==> p in db.photos && (viewer.value, p.author) in db.follows
    ensures r.Some? ==> NonIncreasing(r.value, PhotoTime)
    ensures r.Some? ==> multiset(r.value) == multiset(Keep(db.photos, ByFollowed(db.follows, viewer.value)))
  {
    match viewer
    case None => None
    case Some(u) => Some(FollowedPhotos(db, u))
  }

  /** Following nobody gives an empty feed. */
  lemma NoFollowsNoFeed(db: Db, user: UserId)
    requires forall pr :: pr in db.follows ==> pr.0 != user
    ensures Index(db, Some(user)) == Some([])
  {
  }
}
