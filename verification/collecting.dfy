/**
 Collecting (bookmarking) photos: `collect`, `uncollect` and the collector
 list `show_collectors`. Both mutations are guarded so that the collect table
 holds at most one row per (user, photo) pair.
 */
module Collecting {
  import opened Rows
  import opened Store
  import opened Ordering

  /** Selects the collect rows of one (user, photo) pair. */
  function OfPair(user: UserId, photoId: PhotoId): Collect -> bool
  {
    (c: Collect) => c.collector == user && c.photo == photoId
  }

  /** Selects the collect rows of every other pair. */
  function NotOfPair(user: UserId, photoId: PhotoId): Collect -> bool
  {
    (c: Collect) => !(c.collector == user && c.photo == photoId)
  }

  /**
   `collect`: 404 for an unknown photo; an info message and no change when
   the user already collects the photo; otherwise one collect row stamped
   `now` is added. Either way the user goes back to the photo.
   */
  function CollectPhoto(db: Db, user: UserId, photoId: PhotoId, now: int): (r: Response)
    ensures !HasPhoto(db.photos, photoId) ==> r == Response(NotFound, db)
    ensures HasPhoto(db.photos, photoId) && IsCollecting(db.collects, user, photoId) ==>
      r == Response(InfoNoOp(AlreadyCollectedMsg, photoId), db)
    ensures HasPhoto(db.photos, photoId) && !IsCollecting(db.collects, user, photoId) ==>
      && r.outcome == Ok(photoId)
      && IsCollecting(r.db.collects, user, photoId)
      && |r.db.collects| == |db.collects| + 1
      && r.db.collects[..|db.collects|] == db.collects
      && r.db == db.(collects := r.db.collects)
  {
    if !HasPhoto(db.photos, photoId) then Response(NotFound, db)
    else if IsCollecting(db.collects, user, photoId) then Response(InfoNoOp(AlreadyCollectedMsg, photoId), db)
    else
      var c := Collect(user, photoId, now);
      var collects := db.collects + [c];
      assert collects[|db.collects|] == c;
      Response(Ok(photoId), db.(collects := collects))
  }

  /**
   `uncollect`: 404 for an unknown photo; an info message and no change when
   the user does not collect the photo; otherwise the pair's row is removed
   and every other row stays.
   */
  function UncollectPhoto(db: Db, user: UserId, photoId: PhotoId): (r: Response)
    ensures !HasPhoto(db.photos, photoId) ==> r == Response(NotFound, db)
    ensures HasPhoto(db.photos, photoId) && !IsCollecting(db.collects, user, photoId) ==>
      r == Response(InfoNoOp(NotCollectedMsg, photoId), db)
    ensures HasPhoto(db.photos, photoId) && IsCollecting(db.collects, user, photoId) ==>
      && r.outcome == Ok(photoId)
      && !IsCollecting(r.db.collects, user, photoId)
      && (forall c :: c in db.collects && !(c.collector == user && c.photo == photoId) ==> c in r.db.collects)
      && (forall c :: c in r.db.collects ==> c in db.collects)
      && r.db == db.(collects := r.db.collects)
  {
    if !HasPhoto(db.photos, photoId) then Response(NotFound, db)
    else if !IsCollecting(db.collects, user, photoId) then Response(InfoNoOp(NotCollectedMsg, photoId), db)
    else
      var collects := Keep(db.collects, NotOfPair(user, photoId));
      Response(Ok(photoId), db.(collects := collects))
  }

  /** Collecting keeps every integrity constraint: still at most one row per pair. */
  lemma CollectValid(db: Db, user: UserId, photoId: PhotoId, now: int)
    requires Valid(db)
    ensures Valid(CollectPhoto(db, user, photoId, now).db)
  {
    var r := CollectPhoto(db, user, photoId, now);
    if r.db != db {
      AppendDistinct(db.collects, Collect(user, photoId, now), CollectPair);
      assert r.db.collects == db.collects + [Collect(user, photoId, now)];
    }
  }

  /** After a successful collect the pair has exactly one collect row. */
  lemma CollectLeavesOneRow(db: Db, user: UserId, photoId: PhotoId, now: int)
    requires HasPhoto(db.photos, photoId) && !IsCollecting(db.collects, user, photoId)
    ensures Keep(CollectPhoto(db, user, photoId, now).db.collects, OfPair(user, photoId)) == [Collect(user, photoId, now)]
  {
    var c := Collect(user, photoId, now);
    var f := OfPair(user, photoId);
    assert CollectPhoto(db, user, photoId, now).db.collects == db.collects + [c];
    KeepAppend(db.collects, [c], f);
    assert forall x :: x in db.collects ==> !f(x);
    KeepNone(db.collects, f);
    assert Keep([c], f) == [c];
  }

  /** Collecting twice is collecting once: the second request only reports "Already collected." */
  lemma CollectTwice(db: Db, user: UserId, photoId: PhotoId, now: int, later: int)
    requires HasPhoto(db.photos, photoId)
    ensures var once := CollectPhoto(db, user, photoId, now).db;
      CollectPhoto(once, user, photoId, later) == Response(InfoNoOp(AlreadyCollectedMsg, photoId), once)
  {
  }

  /** Uncollecting keeps every integrity constraint. */
  lemma UncollectValid(db: Db, user: UserId, photoId: PhotoId)
    requires Valid(db)
    ensures Valid(UncollectPhoto(db, user, photoId).db)
  {
    var r := UncollectPhoto(db, user, photoId);
    if r.db != db {
      KeepDistinct(db.collects, NotOfPair(user, photoId), CollectPair);
    }
  }

  /** Collecting a photo and then uncollecting it restores the store. */
  lemma CollectThenUncollect(db: Db, user: UserId, photoId: PhotoId, now: int)
    requires HasPhoto(db.photos, photoId) && !IsCollecting(db.collects, user, photoId)
    ensures UncollectPhoto(CollectPhoto(db, user, photoId, now).db, user, photoId) == Response(Ok(photoId), db)
  {
    var c := Collect(user, photoId, now);
    var once := CollectPhoto(db, user, photoId, now).db;
    assert once.collects == db.collects + [c];
    KeepAppend(db.collects, [c], NotOfPair(user, photoId));
    KeepAll(db.collects, NotOfPair(user, photoId));
    assert Keep([c], NotOfPair(user, photoId)) == [];
  }

  /** Selects the collect rows of one photo (`Collect.query.with_parent(photo)`). */
  function OnPhoto(photoId: PhotoId): Collect -> bool
  {
    (c: Collect) => c.photo == photoId
  }

  /**
   `show_collectors`: 404 for an unknown photo; otherwise exactly the photo's
   collect rows, earliest first. The source calls `.pagination(` on the
   query instead of `.paginate(`, so as written the request fails; the
   intended listing (without paging) is modelled.
   */
  function ShowCollectors(db: Db, photoId: PhotoId): (r: Option<seq<Collect>>)
    ensures r.None? <==> !HasPhoto(db.photos, photoId)
    ensures r.Some? ==>
      && multiset(r.value) == multiset(Keep(db.collects, OnPhoto(photoId)))
      && (forall c :: c in r.value <==> c in db.collects && c.photo == photoId)
      && NonDecreasing(r.value, CollectTime)
  {
    if !HasPhoto(db.photos, photoId) then None
    else
      var r := SortAsc(Keep(db.collects, OnPhoto(photoId)), CollectTime);
      assert forall c :: c in r <==> c in multiset(r);
      Some(r)
  }
}
