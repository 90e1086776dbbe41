/**
 Photo pages of the main blueprint: same-author sibling navigation
 (`photo_next`, `photo_previous`), deleting a photo with its fallback target,
 and abuse reports (`report_photo`).
 */
module PhotoPages {
  import opened Rows
  import opened Store

  /** `id` names one of `author`'s photos. */
  ghost predicate IsAuthorPhoto(photos: seq<Photo>, author: UserId, id: PhotoId)
  {
    exists p :: p in photos && p.author == author && p.id == id
  }

  /** `n` is the author's photo with the least id strictly above `id`. */
  ghost predicate IsNextOf(photos: seq<Photo>, author: UserId, id: PhotoId, n: PhotoId)
  {
    && IsAuthorPhoto(photos, author, n)
    && n > id
    && forall p :: p in photos && p.author == author && p.id > id ==> n <= p.id
  }

  /** `n` is the author's photo with the greatest id strictly below `id`. */
  ghost predicate IsPreviousOf(photos: seq<Photo>, author: UserId, id: PhotoId, n: PhotoId)
  {
    && IsAuthorPhoto(photos, author, n)
    && n < id
    && forall p :: p in photos && p.author == author && p.id < id ==> p.id <= n
  }

  /** The author has no photo with an id above `id`. */
  ghost predicate IsLastOf(photos: seq<Photo>, author: UserId, id: PhotoId)
  {
    forall p :: p in photos && p.author == author ==> p.id <= id
  }

  /** The author has no photo with an id below `id`. */
  ghost predicate IsFirstOf(photos: seq<Photo>, author: UserId, id: PhotoId)
  {
    forall p :: p in photos && p.author == author ==> p.id >= id
  }

  /**
   `Photo.query.with_parent(author).filter(Photo.id > id).order_by(Photo.id.asc()).first()`.
   */
  function NextSibling(photos: seq<Photo>, author: UserId, id: PhotoId): (r: Option<PhotoId>)
    ensures r.Some? ==> IsNextOf(photos, author, id, r.value)
    ensures r.None? <==> IsLastOf(photos, author, id)
    decreases |photos|
  {
    if |photos| == 0 then None
    else
      var p := photos[0];
      var rest := NextSibling(photos[1..], author, id);
      assert photos == [p] + photos[1..];
      if p.author == author && p.id > id && (rest.None? || p.id < rest.value) then Some(p.id)
      else rest
  }

  /**
   `Photo.query.with_parent(author).filter(Photo.id < id).order_by(Photo.id.desc()).first()`.
   */
  function PreviousSibling(photos: seq<Photo>, author: UserId, id: PhotoId): (r: Option<PhotoId>)
    ensures r.Some? ==> IsPreviousOf(photos, author, id, r.value)
    ensures r.None? <==> IsFirstOf(photos, author, id)
    decreases |photos|
  {
    if |photos| == 0 then None
    else
      var p := photos[0];
      var rest := PreviousSibling(photos[1..], author, id);
      assert photos == [p] + photos[1..];
      if p.author == author && p.id < id && (rest.None? || p.id > rest.value) then Some(p.id)
      else rest
  }

  /** Stepping back and then forward from one of the author's photos returns to it. */
  lemma NextOfPrevious(photos: seq<Photo>, author: UserId, id: PhotoId)
    requires IsAuthorPhoto(photos, author, id)
    requires PreviousSibling(photos, author, id).Some?
    ensures NextSibling(photos, author, PreviousSibling(photos, author, id).value) == Some(id)
  {
    var q := PreviousSibling(photos, author, id).value;
    var n := NextSibling(photos, author, q);
    var p :| p in photos && p.author == author && p.id == id;
    assert n.Some?;
    var m :| m in photos && m.author == author && m.id == n.value;
    assert m.id <= id;
  }

  /** Stepping forward and then back from one of the author's photos returns to it. */
  lemma PreviousOfNext(photos: seq<Photo>, author: UserId, id: PhotoId)
    requires IsAuthorPhoto(photos, author, id)
    requires NextSibling(photos, author, id).Some?
    ensures PreviousSibling(photos, author, NextSibling(photos, author, id).value) == Some(id)
  {
    var q := NextSibling(photos, author, id).value;
    var n := PreviousSibling(photos, author, q);
    var p :| p in photos && p.author == author && p.id == id;
    assert n.Some?;
    var m :| m in photos && m.author == author && m.id == n.value;
    assert m.id >= id;
  }

  /**
   `photo_next`: the author's next photo, or the same photo with an info
   message when it is already the author's last one.
   */
  function PhotoNext(db: Db, photoId: PhotoId): (r: Outcome)
    ensures r == NotFound <==> !HasPhoto(db.photos, photoId)
    ensures HasPhoto(db.photos, photoId) ==>
      var a := AuthorOf(db.photos, photoId);
      if IsLastOf(db.photos, a, photoId) then r == InfoNoOp(LastOneMsg, photoId)
      else r.Ok? && IsNextOf(db.photos, a, photoId, r.target)
  {
    match FindPhoto(db.photos, photoId)
    case None => NotFound
    case Some(photo) =>
      match NextSibling(db.photos, photo.author, photoId)
      case None => InfoNoOp(LastOneMsg, photoId)
      case Some(n) => Ok(n)
  }

  /**
   `photo_previous`: the author's previous photo, or the same photo with an
   info message when it is already the author's first one.
   */
  function PhotoPrevious(db: Db, photoId: PhotoId): (r: Outcome)
    ensures r == NotFound <==> !HasPhoto(db.photos, photoId)
    ensures HasPhoto(db.photos, photoId) ==>
      var a := AuthorOf(db.photos, photoId);
      if IsFirstOf(db.photos, a, photoId) then r == InfoNoOp(FirstOneMsg, photoId)
      else r.Ok? && IsPreviousOf(db.photos, a, photoId, r.target)
  {
    match FindPhoto(db.photos, photoId)
    case None => NotFound
    case Some(photo) =>
      match PreviousSibling(db.photos, photo.author, photoId)
      case None => InfoNoOp(FirstOneMsg, photoId)
      case Some(n) => Ok(n)
  }

  /**
   Deleting the photo row also drops its rows in the photo/tag association
   table and its collect rows. Tags left without photos are not deleted.
   */
  function RemovePhoto(db: Db, photoId: PhotoId): Db
  {
    db.(photos := Keep(db.photos, (p: Photo) => p.id != photoId),
        tagged := (set pr | pr in db.tagged && pr.0 != photoId),
        collects := Keep(db.collects, (c: Collect) => c.photo != photoId))
  }

  /**
   Where `delete_photo` sends its author: the previous photo if the author
   has one, else the next one, else the author's profile.
   */
  ghost predicate IsDeleteTarget(photos: seq<Photo>, author: UserId, id: PhotoId, o: Outcome)
  {
    if !IsFirstOf(photos, author, id) then o.Ok? && IsPreviousOf(photos, author, id, o.target)
    else if !IsLastOf(photos, author, id) then o.Ok? && IsNextOf(photos, author, id, o.target)
    else o == ToProfile(author)
  }

  /** The sibling queries on the store after the deletion agree with those before it. */
  lemma SiblingsAfterRemoval(photos: seq<Photo>, author: UserId, id: PhotoId)
    ensures var rest := Keep(photos, (p: Photo) => p.id != id);
      && (IsFirstOf(rest, author, id) <==> IsFirstOf(photos, author, id))
      && (IsLastOf(rest, author, id) <==> IsLastOf(photos, author, id))
      && (forall n :: IsPreviousOf(rest, author, id, n) ==> IsPreviousOf(photos, author, id, n))
      && (forall n :: IsNextOf(rest, author, id, n) ==> IsNextOf(photos, author, id, n))
  {
  }

  /** The photo a target names is still stored, so the redirect is to a live page. */
  function TargetAfterDelete(photos: seq<Photo>, author: UserId, id: PhotoId): (o: Outcome)
    ensures IsDeleteTarget(photos, author, id, o)
    ensures o.Ok? ==> o.target != id && HasPhoto(photos, o.target)
  {
    match PreviousSibling(photos, author, id)
    case Some(q) => Ok(q)
    case None =>
      match NextSibling(photos, author, id)
      case Some(n) => Ok(n)
      case None => ToProfile(author)
  }

  /**
   `delete_photo`: 404 for an unknown photo, 403 for anyone but its author;
   otherwise the photo is deleted and the author is sent to a sibling photo
   or, when none is left, to the profile page.
   */
  function DeletePhoto(db: Db, user: UserId, photoId: PhotoId): (r: Response)
    ensures !HasPhoto(db.photos, photoId) ==> r == Response(NotFound, db)
    ensures HasPhoto(db.photos, photoId) && user != AuthorOf(db.photos, photoId) ==> r == Response(Forbidden, db)
    ensures HasPhoto(db.photos, photoId) && user == AuthorOf(db.photos, photoId) ==>
      && !HasPhoto(r.db.photos, photoId)
      && (forall p :: p in db.photos && p.id != photoId ==> p in r.db.photos)
      && (forall p :: p in r.db.photos ==> p in db.photos)
      && (forall pr :: pr in db.tagged && pr.0 != photoId ==> pr in r.db.tagged)
      && (forall pr :: pr in r.db.tagged ==> pr in db.tagged && pr.0 != photoId)
      && (forall c :: c in r.db.collects <==> c in db.collects && c.photo != photoId)
      && r.db == db.(photos := r.db.photos, tagged := r.db.tagged, collects := r.db.collects)
      && IsDeleteTarget(db.photos, user, photoId, r.outcome)
      && (r.outcome.Ok? ==> r.outcome.target != photoId && HasPhoto(r.db.photos, r.outcome.target))
  {
    match FindPhoto(db.photos, photoId)
    case None => Response(NotFound, db)
    case Some(photo) =>
      if user != photo.author then Response(Forbidden, db)
      else
        var db' := RemovePhoto(db, photoId);
        SiblingsAfterRemoval(db.photos, photo.author, photoId);
        Response(TargetAfterDelete(db'.photos, photo.author, photoId), db')
  }

  /** Deleting a photo keeps every integrity constraint of the store. */
  lemma DeletePhotoValid(db: Db, user: UserId, photoId: PhotoId)
    requires Valid(db)
    ensures Valid(DeletePhoto(db, user, photoId).db)
  {
    var r := DeletePhoto(db, user, photoId);
    if r.db != db {
      KeepDistinct(db.photos, (p: Photo) => p.id != photoId, PhotoKey);
      KeepDistinct(db.collects, (c: Collect) => c.photo != photoId, CollectPair);
      forall pr | pr in r.db.tagged ensures HasPhoto(r.db.photos, pr.0) {
        var p :| p in db.photos && p.id == pr.0;
        assert p in r.db.photos;
      }
      forall c | c in r.db.collects ensures HasPhoto(r.db.photos, c.photo) {
        var p :| p in db.photos && p.id == c.photo;
        assert p in r.db.photos;
      }
    }
  }

  /**
   `delete_photo` as written: after the deletion is committed, the branch
   taken when a previous photo exists redirects to `photo.n.id`, an attribute
   the photo does not have, so that request ends in an unhandled exception.
   */
  function DeletePhotoAsWritten(db: Db, user: UserId, photoId: PhotoId): (r: Response)
    ensures r.db == DeletePhoto(db, user, photoId).db
    ensures r.outcome == ServerError <==>
      HasPhoto(db.photos, photoId) && user == AuthorOf(db.photos, photoId) && !IsFirstOf(db.photos, user, photoId)
    ensures r.outcome != ServerError ==> r.outcome == DeletePhoto(db, user, photoId).outcome
  {
    match FindPhoto(db.photos, photoId)
    case None => Response(NotFound, db)
    case Some(photo) =>
      if user != photo.author then Response(Forbidden, db)
      else
        var db' := RemovePhoto(db, photoId);
        SiblingsAfterRemoval(db.photos, photo.author, photoId);
        match PreviousSibling(db'.photos, photo.author, photoId)
        case Some(_) => Response(ServerError, db')
        case None =>
          match NextSibling(db'.photos, photo.author, photoId)
          case Some(n) => Response(Ok(n), db')
          case None => Response(ToProfile(photo.author), db')
  }

  /**
   Deleting the author's later photo of two: the code as written fails with a
   server error after deleting it, where the intended target is the earlier photo.
   */
  lemma DeleteSecondPhotoAsWrittenFails()
    ensures var db := Db([Photo(1, 7, 10, 0), Photo(2, 7, 20, 0)], [], {}, [], [], {}, 0);
      && DeletePhotoAsWritten(db, 7, 2).outcome == ServerError
      && DeletePhoto(db, 7, 2).outcome == Ok(1)
  {
    var db := Db([Photo(1, 7, 10, 0), Photo(2, 7, 20, 0)], [], {}, [], [], {}, 0);
    assert FindPhoto(db.photos, 2) == Some(Photo(2, 7, 20, 0));
    var rest := Keep(db.photos, (p: Photo) => p.id != 2);
    assert rest == [Photo(1, 7, 10, 0)];
    assert PreviousSibling(rest, 7, 2) == Some(1);
  }

  /** Sum of the abuse-report counters over a photo table. */
  function FlagTotal(photos: seq<Photo>): nat
    decreases |photos|
  {
    if |photos| == 0 then 0 else photos[0].flag + FlagTotal(photos[1..])
  }

  /** Adds one report to every row with id `photoId` (one row, by the primary key). */
  function FlagPhoto(photos: seq<Photo>, photoId: PhotoId): seq<Photo>
  {
    Update(photos, (p: Photo) => p.id == photoId, (p: Photo) => p.(flag := p.flag + 1))
  }

  /**
   `report_photo`: 404 for an unknown photo; otherwise the photo's report
   counter grows by one and nothing else changes.
   */
  function ReportPhoto(db: Db, photoId: PhotoId): (r: Response)
    ensures !HasPhoto(db.photos, photoId) ==> r == Response(NotFound, db)
    ensures HasPhoto(db.photos, photoId) ==>
      && r.outcome == Ok(photoId)
      && r.db == db.(photos := r.db.photos)
      && |r.db.photos| == |db.photos|
      && forall i :: 0 <= i < |db.photos| ==>
           && r.db.photos[i] == db.photos[i].(flag := r.db.photos[i].flag)
           && r.db.photos[i].flag == db.photos[i].flag + (if db.photos[i].id == photoId then 1 else 0)
  {
    if !HasPhoto(db.photos, photoId) then Response(NotFound, db)
    else Response(Ok(photoId), db.(photos := FlagPhoto(db.photos, photoId)))
  }

  lemma {:induction false} FlagPhotoTotal(photos: seq<Photo>, photoId: PhotoId)
    requires DistinctBy(photos, PhotoKey)
    ensures FlagTotal(FlagPhoto(photos, photoId)) == FlagTotal(photos) + (if HasPhoto(photos, photoId) then 1 else 0)
    decreases |photos|
  {
    if |photos| > 0 {
      var t := photos[1..];
      assert DistinctBy(t, PhotoKey) by {
        forall i, j | 0 <= i < j < |t| ensures t[i].id != t[j].id {
          assert t[i] == photos[i + 1] && t[j] == photos[j + 1];
        }
      }
      FlagPhotoTotal(t, photoId);
      assert FlagPhoto(photos, photoId)[1..] == FlagPhoto(t, photoId);
      assert photos == [photos[0]] + t;
      if photos[0].id == photoId {
        forall p | p in t ensures p.id != photoId {
          var m :| 0 <= m < |t| && t[m] == p;
          assert photos[m + 1] == p;
        }
      }
    }
  }

  /** In a valid store a report adds exactly one to the total report count. */
  lemma ReportAddsOneFlag(db: Db, photoId: PhotoId)
    requires Valid(db) && HasPhoto(db.photos, photoId)
    ensures FlagTotal(ReportPhoto(db, photoId).db.photos) == FlagTotal(db.photos) + 1
  {
    FlagPhotoTotal(db.photos, photoId);
  }

  /** A report keeps every integrity constraint of the store. */
  lemma ReportPhotoValid(db: Db, photoId: PhotoId)
    requires Valid(db)
    ensures Valid(ReportPhoto(db, photoId).db)
  {
    var r := ReportPhoto(db, photoId);
    if HasPhoto(db.photos, photoId) {
      UpdateDistinct(db.photos, (p: Photo) => p.id == photoId, (p: Photo) => p.(flag := p.flag + 1), PhotoKey);
      forall id | HasPhoto(db.photos, id) ensures HasPhoto(r.db.photos, id) {
        var p :| p in db.photos && p.id == id;
        var i :| 0 <= i < |db.photos| && db.photos[i] == p;
        assert r.db.photos[i].id == id;
      }
    }
  }
}
