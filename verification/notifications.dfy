/**
 Notifications of the current user: the list (`show_notification`, optionally
 only the unread ones, newest first), marking one read (`read_notification`,
 receiver only) and marking all read (`read_all_notification`). A
 notification only ever moves from unread to read.
 */
module Notifications {
  import opened Rows
  import opened Store
  import opened Ordering

  /** The `filter` request argument asks for unread notifications only. */
  predicate UnreadOnly(filter: Option<string>)
  {
    filter == Some("unread")
  }

  /** Selects the notifications the list shows to `user` under `filter`. */
  function Listed(user: UserId, filter: Option<string>): Notification -> bool
  {
    (n: Notification) => n.receiver == user && (!UnreadOnly(filter) || !n.isRead)
  }

  /**
   `show_notification`: exactly the user's notifications (only the unread
   ones when `filter` is "unread"), newest first.
   */
  function ShowNotifications(db: Db, user: UserId, filter: Option<string>): (r: seq<Notification>)
    ensures forall n :: n in r <==>
      n in db.notifications && n.receiver == user && (UnreadOnly(filter) ==> !n.isRead)
    ensures multiset(r) == multiset(Keep(db.notifications, Listed(user, filter)))
    ensures NonIncreasing(r, NotificationTime)
  {
    var r := SortDesc(Keep(db.notifications, Listed(user, filter)), NotificationTime);
    assert forall n :: Listed(user, filter)(n) <==> n.receiver == user && (UnreadOnly(filter) ==> !n.isRead);
    assert forall n :: n in r <==> n in multiset(r);
    r
  }

  function MarkRead(n: Notification): Notification
  {
    n.(isRead := true)
  }

  /** Only the read flag may change, and only from unread to read. */
  ghost predicate OnlyReadFlags(before: seq<Notification>, after: seq<Notification>)
  {
    && |after| == |before|
    && forall i :: 0 <= i < |before| ==>
         after[i].(isRead := before[i].isRead) == before[i] && (before[i].isRead ==> after[i].isRead)
  }

  /**
   `read_notification`: 404 for an unknown notification, 403 for anyone but
   its receiver; otherwise that notification is read and no other changes.
   The source's redirect names the endpoint `.show_notifications`, which does
   not exist (the view is `show_notification`), so as written the request
   fails after the commit; the intended redirect is modelled.
   */
  function ReadNotification(db: Db, user: UserId, id: NotificationId): (r: Response)
    ensures !HasNotification(db.notifications, id) ==> r == Response(NotFound, db)
    ensures HasNotification(db.notifications, id) && user != ReceiverOf(db.notifications, id) ==>
      r == Response(Forbidden, db)
    ensures HasNotification(db.notifications, id) && user == ReceiverOf(db.notifications, id) ==>
      && r.outcome == ToNotifications
      && r.db == db.(notifications := r.db.notifications)
      && OnlyReadFlags(db.notifications, r.db.notifications)
      && forall i :: 0 <= i < |db.notifications| ==>
           r.db.notifications[i].isRead == (db.notifications[i].isRead || db.notifications[i].id == id)
  {
    match FindNotification(db.notifications, id)
    case None => Response(NotFound, db)
    case Some(n) =>
      if user != n.receiver then Response(Forbidden, db)
      else
        var ns := Update(db.notifications, (m: Notification) => m.id == id, MarkRead);
        Response(ToNotifications, db.(notifications := ns))
  }

  /** Marking a notification read a second time changes nothing. */
  lemma ReadNotificationIdempotent(db: Db, user: UserId, id: NotificationId)
    requires Valid(db)
    ensures var once := ReadNotification(db, user, id).db;
      ReadNotification(once, user, id).db == once
  {
    var once := ReadNotification(db, user, id).db;
    if once != db {
      ReadKeepsReceiver(db, user, id);
      var twice := ReadNotification(once, user, id).db;
      forall k | 0 <= k < |once.notifications| ensures twice.notifications[k] == once.notifications[k] {
        assert twice.notifications[k].isRead == once.notifications[k].isRead;
      }
    }
  }

  /** In a valid store, reading a notification keeps it, with its receiver. */
  lemma ReadKeepsReceiver(db: Db, user: UserId, id: NotificationId)
    requires Valid(db)
    requires HasNotification(db.notifications, id) && user == ReceiverOf(db.notifications, id)
    ensures var once := ReadNotification(db, user, id).db;
      HasNotification(once.notifications, id) && ReceiverOf(once.notifications, id) == user
  {
    var ns := ReadNotification(db, user, id).db.notifications;
    var n :| n in db.notifications && n.id == id && n.receiver == user;
    var i :| 0 <= i < |db.notifications| && db.notifications[i] == n;
    assert ns[i] == MarkRead(n);
    UpdateDistinct(db.notifications, (m: Notification) => m.id == id, MarkRead, NotificationKey);
    ReceiverUnique(ns, id, i);
  }

  /** With distinct ids, the receiver of `id` is that of any row carrying `id`. */
  lemma ReceiverUnique(ns: seq<Notification>, id: NotificationId, i: nat)
    requires DistinctBy(ns, NotificationKey)
    requires i < |ns| && ns[i].id == id
    ensures HasNotification(ns, id) && ReceiverOf(ns, id) == ns[i].receiver
  {
    assert ns[i] in ns;
    var m :| m in ns && m.id == id && m.receiver == ReceiverOf(ns, id);
    var j :| 0 <= j < |ns| && ns[j] == m;
    SameKeySameRow(ns, i, j);
  }

  lemma SameKeySameRow(ns: seq<Notification>, i: nat, j: nat)
    requires DistinctBy(ns, NotificationKey)
    requires i < |ns| && j < |ns| && ns[i].id == ns[j].id
    ensures i == j
  {
  }

  /**
   `read_all_notification`: every notification of the user is read
   afterwards; other users' notifications are untouched. As in
   `read_notification`, the source redirects to the missing endpoint
   `.show_notifications`; the intended redirect is modelled.
   */
  function ReadAllNotifications(db: Db, user: UserId): (r: Response)
    ensures r.outcome == ToNotifications
    ensures r.db == db.(notifications := r.db.notifications)
    ensures OnlyReadFlags(db.notifications, r.db.notifications)
    ensures forall i :: 0 <= i < |db.notifications| ==>
      r.db.notifications[i].isRead == (db.notifications[i].isRead || db.notifications[i].receiver == user)
  {
    var ns := Update(db.notifications, (m: Notification) => m.receiver == user, MarkRead);
    Response(ToNotifications, db.(notifications := ns))
  }

  /** After marking all read, the unread list of the user is empty. */
  lemma ReadAllThenNoUnread(db: Db, user: UserId)
    ensures ShowNotifications(ReadAllNotifications(db, user).db, user, Some("unread")) == []
  {
  }

  /** Marking read keeps every integrity constraint. */
  lemma ReadValid(db: Db, user: UserId, id: NotificationId)
    requires Valid(db)
    ensures Valid(ReadNotification(db, user, id).db)
    ensures Valid(ReadAllNotifications(db, user).db)
  {
    UpdateDistinct(db.notifications, (m: Notification) => m.id == id, MarkRead, NotificationKey);
    UpdateDistinct(db.notifications, (m: Notification) => m.receiver == user, MarkRead, NotificationKey);
  }
}
