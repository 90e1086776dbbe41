/**
 The Albumy relational store, as immutable data, and the outcomes a request
 handler can end in. Every handler of the photo blueprint is modelled as a pure
 function from (store, current user, arguments) to a `Response`.
 */
module Store {
  import opened Rows

  type UserId = nat
  type PhotoId = nat
  type TagId = nat
  type NotificationId = nat

  /** A row of the photo table; `flag` counts abuse reports. */
  datatype Photo = Photo(id: PhotoId, author: UserId, timestamp: int, flag: nat)

  /** A row of the tag table; `name` is unique across tags. */
  datatype Tag = Tag(id: TagId, name: string)

  /** A row of the collect table: `collector` bookmarked `photo` at `timestamp`. */
  datatype Collect = Collect(collector: UserId, photo: PhotoId, timestamp: int)

  /** A row of the notification table, owned by `receiver`. */
  datatype Notification = Notification(id: NotificationId, receiver: UserId, message: string, isRead: bool, timestamp: int)

  /**
   The whole store. `tagged` is the photo/tag association table as (photo, tag)
   pairs, `follows` the follow table as (follower, followed) pairs, and
   `nextTagId` the tag table's auto-increment counter.
   */
  datatype Db = Db(
    photos: seq<Photo>,
    tags: seq<Tag>,
    tagged: set<(PhotoId, TagId)>,
    collects: seq<Collect>,
    notifications: seq<Notification>,
    follows: set<(UserId, UserId)>,
    nextTagId: TagId)

  /**
   Where a handler sends the browser: a photo page (`Ok`, or `InfoNoOp` when
   nothing changed and an info message is flashed), the author's profile, the
   notification list, or an HTTP error (403, 404, and 500 for an unhandled
   exception).
   */
  datatype Outcome =
    | Ok(target: PhotoId)
    | InfoNoOp(msg: string, target: PhotoId)
    | ToProfile(author: UserId)
    | ToNotifications
    | Forbidden
    | NotFound
    | ServerError

  datatype Response = Response(outcome: Outcome, db: Db)

  const LastOneMsg := "This is already the last one."
  const FirstOneMsg := "This is already first one."
  const AlreadyCollectedMsg := "Already collected."
  const NotCollectedMsg := "Not collect yet."

  predicate HasPhoto(photos: seq<Photo>, id: PhotoId)
  {
    exists p :: p in photos && p.id == id
  }

  predicate HasTag(tags: seq<Tag>, id: TagId)
  {
    exists t :: t in tags && t.id == id
  }

  predicate HasNotification(ns: seq<Notification>, id: NotificationId)
  {
    exists n :: n in ns && n.id == id
  }

  /** `Photo.query.get(id)`. */
  function FindPhoto(photos: seq<Photo>, id: PhotoId): (r: Option<Photo>)
    ensures r.Some? ==> r.value in photos && r.value.id == id
    ensures r.None? <==> !HasPhoto(photos, id)
  {
    Find(photos, (p: Photo) => p.id == id)
  }

  /** `photo.author` of the photo fetched by `Photo.query.get_or_404(id)`. */
  function AuthorOf(photos: seq<Photo>, id: PhotoId): (a: UserId)
    requires HasPhoto(photos, id)
    ensures exists p :: p in photos && p.id == id && p.author == a
  {
    FindPhoto(photos, id).value.author
  }

  /** `Tag.query.get(id)`. */
  function FindTag(tags: seq<Tag>, id: TagId): (r: Option<Tag>)
    ensures r.Some? ==> r.value in tags && r.value.id == id
    ensures r.None? <==> !HasTag(tags, id)
  {
    Find(tags, (t: Tag) => t.id == id)
  }

  /** `Tag.query.filter_by(name=name).first()`. */
  function FindTagNamed(tags: seq<Tag>, name: string): (r: Option<Tag>)
    ensures r.Some? ==> r.value in tags && r.value.name == name
    ensures r.None? <==> forall t :: t in tags ==> t.name != name
  {
    Find(tags, (t: Tag) => t.name == name)
  }

  /** `notification.receiver` of the notification fetched by `Notification.query.get_or_404(id)`. */
  function ReceiverOf(ns: seq<Notification>, id: NotificationId): (u: UserId)
    requires HasNotification(ns, id)
    ensures exists n :: n in ns && n.id == id && n.receiver == u
  {
    FindNotification(ns, id).value.receiver
  }

  /** `Notification.query.get(id)`. */
  function FindNotification(ns: seq<Notification>, id: NotificationId): (r: Option<Notification>)
    ensures r.Some? ==> r.value in ns && r.value.id == id
    ensures r.None? <==> !HasNotification(ns, id)
  {
    Find(ns, (n: Notification) => n.id == id)
  }

  /** `user.is_collecting(photo)`: a collect row exists for the pair. */
  predicate IsCollecting(collects: seq<Collect>, user: UserId, photo: PhotoId)
  {
    exists c :: c in collects && c.collector == user && c.photo == photo
  }

  /** `len(photo.collectors)`: the number of collect rows on a photo. */
  function CollectorCount(collects: seq<Collect>, photo: PhotoId): nat
  {
    |Keep(collects, (c: Collect) => c.photo == photo)|
  }

  function PhotoTime(p: Photo): int { p.timestamp }
  function CollectTime(c: Collect): int { c.timestamp }
  function NotificationTime(n: Notification): int { n.timestamp }

  function PhotoKey(p: Photo): PhotoId { p.id }
  function TagKey(t: Tag): TagId { t.id }
  function TagName(t: Tag): string { t.name }
  function CollectPair(c: Collect): (UserId, PhotoId) { (c.collector, c.photo) }
  function NotificationKey(n: Notification): NotificationId { n.id }

  /**
   The integrity constraints of the schema: primary keys, the unique tag name,
   at most one collect row per (user, photo) pair, foreign keys of the
   association and collect tables, and the tag id counter ahead of every id.
   */
  ghost predicate Valid(db: Db)
  {
    && DistinctBy(db.photos, PhotoKey)
    && DistinctBy(db.tags, TagKey)
    && DistinctBy(db.tags, TagName)
    && DistinctBy(db.collects, CollectPair)
    && DistinctBy(db.notifications, NotificationKey)
    && (forall t :: t in db.tags ==> t.id < db.nextTagId)
    && (forall pr :: pr in db.tagged ==> HasPhoto(db.photos, pr.0) && HasTag(db.tags, pr.1))
    && (forall c :: c in db.collects ==> HasPhoto(db.photos, c.photo))
  }
}
