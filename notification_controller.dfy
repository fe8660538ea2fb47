/** The handlers of `notificationController.js`: the caller's inbox, its unread
    count, marking as read and creating a notification. */
module NotificationController {
  import opened Common
  import opened NotificationModel
  import opened Store

  /** The notifications addressed to the caller, only the unread ones when asked. */
  function Inbox(ns: map<Id, Notification>, caller: Caller, unreadOnly: bool): (r: set<Id>)
    ensures forall id :: id in r <==>
      id in ns && TargetsCaller(ns[id], caller) && (unreadOnly ==> !ns[id].isRead)
  {
    set id | id in ns && TargetsCaller(ns[id], caller) && (unreadOnly ==> !ns[id].isRead)
  }

  /** The unread notifications are among all the caller's notifications. */
  lemma UnreadWithinInbox(ns: map<Id, Notification>, caller: Caller)
    ensures Inbox(ns, caller, true) <= Inbox(ns, caller, false)
    ensures |Inbox(ns, caller, true)| <= |Inbox(ns, caller, false)|
  {
    var u, a := Inbox(ns, caller, true), Inbox(ns, caller, false);
    assert u <= a;
    assert a == u + (a - u);
  }

  function CreatedAtOf(ns: map<Id, Notification>, chosen: set<Id>): (w: map<Id, nat>)
    ensures w.Keys == chosen * ns.Keys
    ensures forall id :: id in w ==> w[id] == ns[id].createdAt
  {
    map id | id in chosen && id in ns :: ns[id].createdAt
  }

  /** `getNotifications`: the caller's notifications, or only the unread ones when
      `unreadOnly` is exactly "true", each once, newest first. */
  method GetNotifications(db: Database, caller: Caller, unreadOnly: string) returns (r: seq<Id>)
    ensures forall id :: id in r <==> id in Inbox(db.notifications, caller, unreadOnly == "true")
    ensures Distinct(r)
    ensures forall i :: 0 <= i < |r| ==> r[i] in db.notifications
    ensures forall i, j :: 0 <= i < j < |r| ==>
      db.notifications[r[i]].createdAt >= db.notifications[r[j]].createdAt
  {
    var w := CreatedAtOf(db.notifications, Inbox(db.notifications, caller, unreadOnly == "true"));
    r := SortByWeightDesc(w);
  }

  /** `getUnreadNotificationsCount`: how many of the caller's notifications are unread. */
  method GetUnreadCount(db: Database, caller: Caller) returns (count: nat)
    ensures count == |Inbox(db.notifications, caller, true)|
    ensures count <= |Inbox(db.notifications, caller, false)|
  {
    UnreadWithinInbox(db.notifications, caller);
    count := |Inbox(db.notifications, caller, true)|;
  }

  /** `updateMany(filter, { isRead: true })`: the chosen stored notifications are
      read, the rest untouched. */
  function MarkRead(ns: map<Id, Notification>, chosen: set<Id>): (r: map<Id, Notification>)
    ensures r.Keys == ns.Keys
    ensures forall id :: id in ns && id in chosen ==> r[id] == ns[id].(isRead := true)
    ensures forall id :: id in ns && id !in chosen ==> r[id] == ns[id]
  {
    map id | id in ns :: if id in chosen then ns[id].(isRead := true) else ns[id]
  }

  /** Marking the same notifications twice is marking them once. */
  lemma MarkReadIdempotent(ns: map<Id, Notification>, chosen: set<Id>)
    ensures MarkRead(MarkRead(ns, chosen), chosen) == MarkRead(ns, chosen)
  {
    var once := MarkRead(ns, chosen);
    var twice := MarkRead(once, chosen);
    forall id | id in ns
      ensures twice[id] == once[id]
    {
    }
    assert twice.Keys == once.Keys;
  }

  /** After "mark all", nothing addressed to the caller is unread, and the caller's
      inbox holds the same notifications as before. */
  lemma MarkAllClearsUnread(ns: map<Id, Notification>, caller: Caller)
    ensures Inbox(MarkRead(ns, Inbox(ns, caller, true)), caller, true) == {}
    ensures Inbox(MarkRead(ns, Inbox(ns, caller, true)), caller, false) == Inbox(ns, caller, false)
  {
    var after := MarkRead(ns, Inbox(ns, caller, true));
    forall id | id in after && TargetsCaller(after[id], caller)
      ensures after[id].isRead
    {
      assert TargetsCaller(ns[id], caller);
    }
    forall id | id in ns
      ensures TargetsCaller(after[id], caller) <==> TargetsCaller(ns[id], caller)
    {
    }
  }

  /** `markNotificationsAsRead`: a non-empty id list marks those notifications,
      whoever they are addressed to; otherwise every unread notification of the
      caller is marked. */
  method MarkNotificationsAsRead(db: Database, caller: Caller, notificationIds: seq<Id>) returns (reply: Reply<string>)
    modifies db`notifications
    ensures reply == Ok("Notifications marked as read")
    ensures |notificationIds| > 0 ==>
      db.notifications == MarkRead(old(db.notifications), set i | 0 <= i < |notificationIds| :: notificationIds[i])
    ensures |notificationIds| == 0 ==>
      db.notifications == MarkRead(old(db.notifications), Inbox(old(db.notifications), caller, true))
  {
    var chosen: set<Id>;
    if |notificationIds| > 0 {
      chosen := set i | 0 <= i < |notificationIds| :: notificationIds[i];
    } else {
      chosen := Inbox(db.notifications, caller, true);
    }
    db.notifications := MarkRead(db.notifications, chosen);
    reply := Ok("Notifications marked as read");
  }

  /** The body fields `createNotification` reads; absent text is the empty string. */
  datatype NotificationBody = NotificationBody(
    kind: string, targetId: Option<Id>, targetRole: Option<string>, content: string, rescueRequestId: Option<Id>)

  /** `!type || (!targetId && !targetRole) || !content`. */
  predicate MissingFields(b: NotificationBody) {
    b.kind == "" || b.content == "" || (b.targetId.None? && (b.targetRole.None? || b.targetRole.value == ""))
  }

  const MissingFieldsMessage := "Notification type, target (id or role), and content are required"

  /** `createNotification`: the presence check, then the schema's validation. */
  method CreateNotification(db: Database, b: NotificationBody, now: nat) returns (reply: Reply<Id>)
    modifies db`notifications
    ensures MissingFields(b) ==> reply == BadRequest(MissingFieldsMessage)
    ensures !MissingFields(b) &&
            NewNotification(b.kind, b.targetId, b.targetRole, b.content, b.rescueRequestId, now).None? ==>
      reply.ServerError?
    ensures !reply.Created? ==> db.notifications == old(db.notifications)
    ensures reply.Created? <==>
      !MissingFields(b) && NewNotification(b.kind, b.targetId, b.targetRole, b.content, b.rescueRequestId, now).Some?
    ensures reply.Created? ==>
      reply.value !in old(db.notifications) &&
      NewNotification(b.kind, b.targetId, b.targetRole, b.content, b.rescueRequestId, now).Some? &&
      db.notifications == old(db.notifications)[reply.value :=
        NewNotification(b.kind, b.targetId, b.targetRole, b.content, b.rescueRequestId, now).value]
  {
    if MissingFields(b) {
      return BadRequest(MissingFieldsMessage);
    }
    var n := NewNotification(b.kind, b.targetId, b.targetRole, b.content, b.rescueRequestId, now);
    if n.None? {
      return ServerError("Notification validation failed");
    }
    var id := FreshId(db.notifications.Keys);
    db.notifications := db.notifications[id := n.value];
    reply := Created(id);
  }

  /** A notification created for a user id, or for a role, appears unread in the
      inbox of that user, and of every user holding that role. */
  lemma CreatedReachesTarget(ns: map<Id, Notification>, id: Id, b: NotificationBody, now: nat, caller: Caller)
    requires id !in ns
    requires NewNotification(b.kind, b.targetId, b.targetRole, b.content, b.rescueRequestId, now).Some?
    requires b.targetId == Some(caller.id) || b.targetRole == Some(RoleName(caller.role))
    ensures var n := NewNotification(b.kind, b.targetId, b.targetRole, b.content, b.rescueRequestId, now).value;
      id in Inbox(ns[id := n], caller, true)
  {
    var n := NewNotification(b.kind, b.targetId, b.targetRole, b.content, b.rescueRequestId, now).value;
    if b.targetId != Some(caller.id) {
      assert ParseRole(RoleName(caller.role)) == Some(caller.role);
      assert n.targetRole == Some(caller.role);
    }
  }
}
