/** The Notification schema: required trimmed `type` and `content`, an optional
    target user and an optional target role from the role enum, an optional
    rescue-request reference, `isRead` defaulting to false. */
module NotificationModel {
  import opened Common

  datatype Notification = Notification(
    kind: string,               // the `type` field
    targetId: Option<Id>,
    targetRole: Option<Role>,
    content: string,
    rescueRequestId: Option<Id>,
    isRead: bool,
    createdAt: nat)

  /** Addressed to the caller, by id or by role (the `$or` of every inbox query). */
  predicate TargetsCaller(n: Notification, caller: Caller) {
    n.targetId == Some(caller.id) || n.targetRole == Some(caller.role)
  }

  /** What the schema guarantees of a stored notification. */
  predicate NotificationValid(n: Notification) {
    n.kind != "" && Trim(n.kind) == n.kind && n.content != "" && Trim(n.content) == n.content
  }

  /** `new Notification({...}).save()`: the setters trim the text fields, the enum
      validator refuses a role outside the six, and `required` refuses text that
      trims to empty.  None means the save throws. */
  function NewNotification(kind: string, targetId: Option<Id>, targetRole: Option<string>,
                           content: string, rescueRequestId: Option<Id>, now: nat): (r: Option<Notification>)
    ensures r.Some? <==>
      Trim(kind) != "" && Trim(content) != "" && (targetRole.Some? ==> ParseRole(targetRole.value).Some?)
    ensures r.Some? ==> NotificationValid(r.value) && !r.value.isRead && r.value.createdAt == now
    ensures r.Some? ==> r.value.targetId == targetId && r.value.rescueRequestId == rescueRequestId
    ensures r.Some? && targetRole.Some? ==> r.value.targetRole.Some? && RoleName(r.value.targetRole.value) == targetRole.value
    ensures r.Some? && targetRole.None? ==> r.value.targetRole.None?
  {
    if Trim(kind) == "" || Trim(content) == "" then None
    else if targetRole.Some? && ParseRole(targetRole.value).None? then None
    else
      TrimIdempotent(kind);
      TrimIdempotent(content);
      TrimSpec(kind);
      TrimSpec(content);
      var role := if targetRole.Some? then ParseRole(targetRole.value) else None;
      Some(Notification(Trim(kind), targetId, role, Trim(content), rescueRequestId, false, now))
  }
}
