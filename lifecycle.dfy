/** The pure decisions inside `updateRescueRequest` and `deleteRescueRequest`: the
    fixed status-transition table, the counter changes each status change causes,
    and who may update or delete a request. */
module Lifecycle {
  import opened Common
  import opened RescueRequestModel
  import opened UserModel

  /** `validStatusTransitions`: the statuses each status may move to; statuses
      missing from the table (rejected, completed, cancelled) have none. */
  function Successors(from: Status): seq<Status> {
    match from
    case Pending => [Approved, Rejected]
    case Approved => [Assigned, Rejected]
    case Assigned => [Rescued, InProgress, Cancelled]
    case Rescued => [Completed]
    case InProgress => [Rescued, Completed, Cancelled]
    case _ => []
  }

  predicate Allowed(from: Status, to: Status) {
    to in Successors(from)
  }

  function Names(ss: seq<Status>): (r: seq<string>)
    ensures |r| == |ss|
    ensures forall i :: 0 <= i < |ss| ==> r[i] == StatusName(ss[i])
  {
    if ss == [] then [] else [StatusName(ss[0])] + Names(ss[1..])
  }

  /** The check on the raw body string: the table lists names, and `includes`
      compares the requested string with them. */
  predicate ValidTransition(from: Status, requested: string) {
    requested in Names(Successors(from))
  }

  /** The string check accepts exactly the names of allowed target statuses:
      any string outside the enum is refused. */
  lemma ValidTransitionMeansAllowed(from: Status, requested: string)
    ensures ValidTransition(from, requested) <==>
            ParseStatus(requested).Some? && Allowed(from, ParseStatus(requested).value)
  {
    var ns := Names(Successors(from));
    if ValidTransition(from, requested) {
      var i :| 0 <= i < |ns| && ns[i] == requested;
      assert StatusName(Successors(from)[i]) == requested;
    }
    if ParseStatus(requested).Some? && Allowed(from, ParseStatus(requested).value) {
      var to := ParseStatus(requested).value;
      var i :| 0 <= i < |Successors(from)| && Successors(from)[i] == to;
      assert ns[i] == requested;
    }
  }

  /** The name of a status passes the string check exactly when the edge is in the table. */
  lemma NamedTransition(from: Status, to: Status)
    ensures ValidTransition(from, StatusName(to)) <==> Allowed(from, to)
  {
    ValidTransitionMeansAllowed(from, StatusName(to));
  }

  /** The eleven edges of the table, and no others. */
  lemma AllowedEdges(from: Status, to: Status)
    ensures Allowed(from, to) <==>
      (from == Pending && (to == Approved || to == Rejected)) ||
      (from == Approved && (to == Assigned || to == Rejected)) ||
      (from == Assigned && (to == Rescued || to == InProgress || to == Cancelled)) ||
      (from == Rescued && to == Completed) ||
      (from == InProgress && (to == Rescued || to == Completed || to == Cancelled))
  {
  }

  predicate Terminal(s: Status) {
    s == Rejected || s == Completed || s == Cancelled
  }

  /** Rejected, completed and cancelled have no way out; every other status has one. */
  lemma TerminalStatuses(s: Status)
    ensures Terminal(s) <==> forall t :: !Allowed(s, t)
  {
    if !Terminal(s) {
      assert Allowed(s, Successors(s)[0]);
    }
  }

  /** Position along the lifecycle; every allowed move goes strictly forward. */
  function Rank(s: Status): nat {
    match s
    case Pending => 0
    case Approved => 1
    case Assigned => 2
    case InProgress => 3
    case Rescued => 4
    case Rejected => 5
    case Completed => 5
    case Cancelled => 5
  }

  lemma AllowedMovesForward(from: Status, to: Status)
    requires Allowed(from, to)
    ensures Rank(from) < Rank(to)
  {
  }

  /** A sequence of statuses connected by allowed moves. */
  predicate IsRun(run: seq<Status>) {
    forall i :: 0 <= i < |run| - 1 ==> Allowed(run[i], run[i + 1])
  }

  /** Along any run of allowed moves the rank strictly grows, so no status repeats
      and a request is never returned to pending. */
  lemma {:induction false} RunRankGrows(run: seq<Status>, i: nat, j: nat)
    requires IsRun(run) && i < j < |run|
    ensures Rank(run[i]) + (j - i) <= Rank(run[j])
    decreases j - i
  {
    AllowedMovesForward(run[i], run[i + 1]);
    if i + 1 < j {
      RunRankGrows(run, i + 1, j);
    }
  }

  /** A lifecycle makes at most five status changes. */
  lemma RunIsShort(run: seq<Status>)
    requires IsRun(run) && run != []
    ensures |run| <= 6
  {
    if |run| > 6 {
      RunRankGrows(run, 0, 6);
    }
  }

  /** No move leads into pending: once a request leaves pending, an informer
      never regains the right to edit or delete it. */
  lemma NothingReturnsToPending(run: seq<Status>, i: nat)
    requires IsRun(run) && 0 < i < |run|
    ensures run[i] != Pending
  {
    RunRankGrows(run, 0, i);
  }

  /** The if/else-if chain that adjusts statistics once a status change is
      accepted, in terms of the stored request, the new status, and the body's
      `assignedTo` (which counts only for a move to assigned). */
  function CounterEffects(stored: Request, to: Status, bodyAssignee: Option<Id>): seq<Delta> {
    var informer := stored.informer;
    if to == Approved then
      [Delta(informer, RequestsApproved, 1), Delta(informer, HelpCount, 1)]
    else if to == Rejected then
      [Delta(informer, RequestsRejected, 1)]
    else if to == Rescued && stored.assignedTo.Some? then
      [Delta(stored.assignedTo.value, RescuesRescued, 1)]
    else if to == Completed && stored.assignedTo.Some? then
      var v := stored.assignedTo.value;
      if stored.status == Rescued || stored.status == InProgress || stored.status == Assigned then
        [Delta(v, RescuesInProgress, -1), Delta(v, RescuesCompleted, 1), Delta(v, SaveCount, 1)]
      else
        [Delta(v, RescuesCompleted, 1), Delta(v, SaveCount, 1)]
    else if to == Assigned && bodyAssignee.Some? then
      [Delta(bodyAssignee.value, RescuesInProgress, 1)]
    else
      []
  }

  /** The user one status change credits: every change it makes goes to that one
      user, in a single `$inc`. */
  function Beneficiary(stored: Request, to: Status, bodyAssignee: Option<Id>): Option<Id> {
    if to == Approved || to == Rejected then Some(stored.informer)
    else if to == Rescued || to == Completed then stored.assignedTo
    else if to == Assigned then bodyAssignee
    else None
  }

  /** The amount one status change adds to each counter of the user it credits. */
  function Gain(from: Status, to: Status, c: Counter): int {
    if to == Approved then (if c == RequestsApproved || c == HelpCount then 1 else 0)
    else if to == Rejected then (if c == RequestsRejected then 1 else 0)
    else if to == Rescued then (if c == RescuesRescued then 1 else 0)
    else if to == Completed then
      if c == RescuesCompleted || c == SaveCount then 1
      else if c == RescuesInProgress && (from == Rescued || from == InProgress || from == Assigned) then -1
      else 0
    else if to == Assigned then (if c == RescuesInProgress then 1 else 0)
    else 0
  }

  /** Per user and counter, a status change moves the credited user's counters by
      `Gain` and nobody else's counters at all. */
  lemma CounterEffectsSum(stored: Request, to: Status, bodyAssignee: Option<Id>, u: Id, c: Counter)
    ensures DeltaSum(CounterEffects(stored, to, bodyAssignee), u, c) ==
      if Beneficiary(stored, to, bodyAssignee) == Some(u) then Gain(stored.status, to, c) else 0
    ensures (forall d :: d in CounterEffects(stored, to, bodyAssignee) ==> Beneficiary(stored, to, bodyAssignee) == Some(d.user))
  {
    var ds := CounterEffects(stored, to, bodyAssignee);
    if |ds| >= 1 {
      assert DeltaSum(ds, u, c) == DeltaSum([ds[0]], u, c) + DeltaSum(ds[1..], u, c) by {
        DeltaSumSplit(ds, u, c);
      }
    }
    if |ds| >= 2 {
      DeltaSumSplit(ds[1..], u, c);
    }
    if |ds| >= 3 {
      DeltaSumSplit(ds[2..], u, c);
      assert ds[2..][1..] == [];
    }
  }

  lemma DeltaSumSplit(ds: seq<Delta>, u: Id, c: Counter)
    requires ds != []
    ensures DeltaSum(ds, u, c) == DeltaSum([ds[0]], u, c) + DeltaSum(ds[1..], u, c)
    ensures ds[1..] == [] ==> DeltaSum(ds, u, c) == DeltaSum([ds[0]], u, c)
  {
    assert [ds[0]][1..] == [];
  }

  /** Every allowed move into completed comes from rescued or in-progress, so
      completing a rescue always takes one off `rescuesInProgress`: the branch
      without the decrement cannot be reached through the table. */
  lemma CompletionAlwaysDecrements(from: Status)
    requires Allowed(from, Completed)
    ensures Gain(from, Completed, RescuesInProgress) == -1
  {
  }

  /** Who may update: admins, team leaders and request checkers always; a volunteer
      when the stored request is assigned to them; an informer when the stored
      request is theirs and still pending. */
  predicate CanUpdate(caller: Caller, r: Request) {
    caller.role == Admin || caller.role == TeamLeader || caller.role == RequestChecker ||
    (caller.role == Volunteer && r.assignedTo == Some(caller.id)) ||
    (caller.role == Informer && r.informer == caller.id && r.status == Pending)
  }

  /** Who may delete: admins and request checkers always; an informer when the
      request is theirs and still pending. */
  predicate CanDelete(caller: Caller, r: Request) {
    caller.role == Admin || caller.role == RequestChecker ||
    (caller.role == Informer && r.informer == caller.id && r.status == Pending)
  }

  /** Anyone who may delete a request may also update it; team leaders show that
      the converse fails. */
  lemma DeleteRightsWithinUpdateRights(caller: Caller, r: Request)
    ensures CanDelete(caller, r) ==> CanUpdate(caller, r)
    ensures caller.role == TeamLeader ==> CanUpdate(caller, r) && !CanDelete(caller, r)
  {
  }

  /** Receptionists may do neither; volunteers may never delete. */
  lemma RolesWithoutRights(caller: Caller, r: Request)
    ensures caller.role == Receptionist ==> !CanUpdate(caller, r) && !CanDelete(caller, r)
    ensures caller.role == Volunteer ==> !CanDelete(caller, r)
  {
  }

  /** An informer's rights over their own request are exactly the rights over a
      pending request; once it is rejected they can neither edit nor delete it. */
  lemma InformerRights(caller: Caller, r: Request)
    requires caller.role == Informer && r.informer == caller.id
    ensures CanUpdate(caller, r) <==> r.status == Pending
    ensures CanDelete(caller, r) <==> r.status == Pending
  {
  }
}
