/** The handlers of `rescueRequestController.js`: the list query, create, update
    (transition check, counter changes, authorisation, field replacement, in that
    order) and delete. */
module RescueRequestController {
  import opened Common
  import opened RescueRequestModel
  import opened UserModel
  import opened Lifecycle
  import opened Store

  // ---------------------------------------------------------------- list

  /** The `status` query parameter: absent, one string, or repeated (an array). */
  datatype StatusQuery = NoStatus | One(name: string) | Many(names: seq<string>)

  datatype RequestQuery = RequestQuery(status: StatusQuery, informerId: Option<Id>, assignedTo: Option<Id>)

  /** The status condition of the filter: an empty string is falsy and adds none;
      an array becomes `$in`, so an empty array matches nothing. */
  predicate StatusMatches(q: StatusQuery, s: Status) {
    match q
    case NoStatus => true
    case One(name) => name == "" || StatusName(s) == name
    case Many(names) => StatusName(s) in names
  }

  /** The conditions the filter object collects, ANDed by `find`. */
  predicate Selected(r: Request, q: RequestQuery) {
    StatusMatches(q.status, r.status) &&
    (q.informerId.Some? ==> r.informer == q.informerId.value) &&
    (q.assignedTo.Some? ==> r.assignedTo == q.assignedTo)
  }

  /** Weight of each selected request for the `{ created: -1 }` sort. */
  function CreatedOfSelected(requests: map<Id, Request>, q: RequestQuery): (w: map<Id, nat>)
    ensures forall id :: id in w <==> id in requests && Selected(requests[id], q)
    ensures forall id :: id in w ==> w[id] == requests[id].created
  {
    map id | id in requests && Selected(requests[id], q) :: requests[id].created
  }

  /** `getRescueRequests`: the ids of exactly the requests the filter selects,
      each once, newest `created` first. */
  method GetRescueRequests(db: Database, q: RequestQuery) returns (r: seq<Id>)
    ensures forall id :: id in r <==> id in db.requests && Selected(db.requests[id], q)
    ensures Distinct(r)
    ensures forall i, j :: 0 <= i < j < |r| ==> db.requests[r[i]].created >= db.requests[r[j]].created
  {
    var w := CreatedOfSelected(db.requests, q);
    r := SortByWeightDesc(w);
  }

  /** With no parameters, or only falsy ones, every request is listed. */
  lemma NoParametersSelectAll(r: Request)
    ensures Selected(r, RequestQuery(NoStatus, None, None))
    ensures Selected(r, RequestQuery(One(""), None, None))
  {
  }

  /** A single status string names one status: only requests in it are listed,
      and a string outside the enum lists nothing. */
  lemma OneStatusSelects(r: Request, name: string)
    requires name != ""
    ensures StatusMatches(One(name), r.status) <==> ParseStatus(name) == Some(r.status)
  {
  }

  // -------------------------------------------------------------- create

  /** The fields of the create body the handler reads; absent text is empty. */
  datatype CreateBody = CreateBody(description: string, location: string, imageUrl: Option<string>)

  const CreatedMessage := "Rescue request created"

  /** The document the handler saves: the caller as informer, pending, one update. */
  function NewRequest(informer: Id, b: CreateBody, now: nat): Request {
    Request(informer, Trim(b.description), Trim(b.location), b.imageUrl, DefaultStatus, None,
            [UpdateEntry(CreatedMessage, now)], now)
  }

  /** The statistics change a created request causes for its informer. */
  function CreateEffects(informer: Id): seq<Delta> {
    [Delta(informer, RequestsSubmitted, 1), Delta(informer, HelpCount, 1)]
  }

  /** A request saved by create is valid, pending, unassigned, with one entry. */
  lemma NewRequestShape(informer: Id, b: CreateBody, now: nat)
    requires Trim(b.description) != "" && Trim(b.location) != ""
    ensures var r := NewRequest(informer, b, now);
      RequestValid(r) && r.status == Pending && r.informer == informer && r.assignedTo.None? &&
      r.updates == [UpdateEntry(CreatedMessage, now)]
  {
    var r := NewRequest(informer, b, now);
    TrimmedTextOfTrim(b.description);
    TrimmedTextOfTrim(b.location);
    assert TrimmedText(r.description) && TrimmedText(r.location);
    assert |r.updates| == 1 && r.updates[0].message == CreatedMessage != "";
  }

  /** Creating a request adds one to the informer's `requestsSubmitted` and
      `helpCount` and changes nothing else about anyone. */
  lemma CreateCredits(users: map<Id, User>, informer: Id, u: Id, c: Counter)
    requires u in users && !users[u].statistics.Null?
    ensures CounterOf(ApplyDeltas(users, CreateEffects(informer))[u].statistics, c) ==
      CounterOf(users[u].statistics, c) + (if u == informer && (c == RequestsSubmitted || c == HelpCount) then 1 else 0)
  {
    var ds := CreateEffects(informer);
    ApplyDeltasCounter(users, ds, u, c);
    DeltaSumSplit(ds, u, c);
    DeltaSumSplit(ds[1..], u, c);
    assert ds[1..][1..] == [];
  }

  /** The credit of a created request is refused exactly when the informer is
      stored with `null` statistics, and then nothing moves. */
  lemma CreateCreditRefused(users: map<Id, User>, informer: Id)
    ensures IncAccepted(users, CreateEffects(informer)) <==> !StatsNull(users, informer)
    ensures !IncAccepted(users, CreateEffects(informer)) ==>
      ApplyDeltas(users, CreateEffects(informer)[..FirstRefused(users, CreateEffects(informer))]) == users
  {
    var ds := CreateEffects(informer);
    OneUserRefusedFirst(users, ds, informer);
    if !StatsNull(users, informer) {
      assert forall i :: 0 <= i < |ds| ==> ds[i].user == informer;
    } else {
      assert Refuses(users, ds[0]);
      assert ds[..0] == [];
    }
  }

  /** The message MongoDB gives when a `$inc` meets `null` statistics. */
  const IncOnNullFailed := "Cannot create field in element {statistics: null}"

  /** `createRescueRequest`.  `caller` is None when no authenticated user is attached.
      The code checks the fields, then the user, then saves (where the trim setters
      and `required` can still refuse blank text), then credits the informer; when
      that `$inc` fails the reply is a 500 and the request stays stored. */
  method CreateRescueRequest(db: Database, caller: Option<Caller>, b: CreateBody, now: nat)
    returns (reply: Reply<Id>)
    modifies db`requests, db`users
    ensures b.description == "" || b.location == "" ==>
      reply == BadRequest("Description and location are required") &&
      db.requests == old(db.requests) && db.users == old(db.users)
    ensures b.description != "" && b.location != "" && caller.None? ==>
      reply == Unauthenticated("User authentication required to create a request") &&
      db.requests == old(db.requests) && db.users == old(db.users)
    ensures b.description != "" && b.location != "" && caller.Some? &&
            (Trim(b.description) == "" || Trim(b.location) == "") ==>
      reply.BadRequest? && db.requests == old(db.requests) && db.users == old(db.users)
    ensures reply.Created? <==>
      caller.Some? && Trim(b.description) != "" && Trim(b.location) != "" &&
      !StatsNull(old(db.users), caller.value.id)
    ensures reply.Created? ==>
      reply.value !in old(db.requests) &&
      db.requests == old(db.requests)[reply.value := NewRequest(caller.value.id, b, now)] &&
      db.users == ApplyDeltas(old(db.users), CreateEffects(caller.value.id))
    ensures caller.Some? && Trim(b.description) != "" && Trim(b.location) != "" &&
            StatsNull(old(db.users), caller.value.id) ==>
      reply == ServerError(IncOnNullFailed) && db.users == old(db.users) &&
      exists k: Id :: k !in old(db.requests) && db.requests == old(db.requests)[k := NewRequest(caller.value.id, b, now)]
  {
    if b.description == "" || b.location == "" {
      return BadRequest("Description and location are required");
    }
    if caller.None? {
      return Unauthenticated("User authentication required to create a request");
    }
    if Trim(b.description) == "" {
      return BadRequest("Validation error: Path `description` is required.");
    }
    if Trim(b.location) == "" {
      return BadRequest("Validation error: Path `location` is required.");
    }
    var id := FreshId(db.requests.Keys);
    db.requests := db.requests[id := NewRequest(caller.value.id, b, now)];
    ghost var requestsNow := db.requests;
    var ds := CreateEffects(caller.value.id);
    CreateCreditRefused(db.users, caller.value.id);
    var ok := db.IncrementCounters(ds);
    assert db.requests == requestsNow;
    if !ok {
      assert db.users == old(db.users);
      assert id !in old(db.requests) && db.requests == old(db.requests)[id := NewRequest(caller.value.id, b, now)];
      return ServerError(IncOnNullFailed);
    }
    assert ds[..FirstRefused(old(db.users), ds)] == ds;
    reply := Created(id);
  }

  // -------------------------------------------------------------- update

  /** The body asks for a status change when it carries a truthy status that
      differs from the stored one; only then is the table consulted. */
  predicate AsksStatusChange(stored: Request, p: Patch) {
    p.status.Some? && p.status.value != "" && p.status.value != StatusName(stored.status)
  }

  /** The counter changes an accepted body causes: none without a status change. */
  function StatusEffects(stored: Request, p: Patch): seq<Delta> {
    if AsksStatusChange(stored, p) && ParseStatus(p.status.value).Some?
    then CounterEffects(stored, ParseStatus(p.status.value).value, p.assignedTo)
    else []
  }

  /** The credit of an accepted status change is refused exactly when the user it
      credits is stored with `null` statistics, and then nothing moves: all of a
      change's counters go to that one user in a single `$inc`. */
  lemma StatusCreditRefused(users: map<Id, User>, stored: Request, to: Status, bodyAssignee: Option<Id>)
    ensures var ds := CounterEffects(stored, to, bodyAssignee);
      var who := Beneficiary(stored, to, bodyAssignee);
      (IncAccepted(users, ds) <==> !(who.Some? && StatsNull(users, who.value))) &&
      (!IncAccepted(users, ds) ==> ApplyDeltas(users, ds[..FirstRefused(users, ds)]) == users)
  {
    var ds := CounterEffects(stored, to, bodyAssignee);
    var who := Beneficiary(stored, to, bodyAssignee);
    CounterEffectsSum(stored, to, bodyAssignee, stored.informer, HelpCount);
    assert who.Some? <==> ds != [];
    if ds != [] {
      OneUserRefusedFirst(users, ds, who.value);
      assert forall i :: 0 <= i < |ds| ==> ds[i] in ds && ds[i].user == who.value;
      if !IncAccepted(users, ds) {
        assert ds[..0] == [];
      }
    }
  }

  function TransitionMessage(from: Status, requested: string): string {
    "Invalid status transition from " + StatusName(from) + " to " + requested
  }

  /** `updateRescueRequest`: 404 for an unknown id; 400 for a status change outside
      the table; otherwise the counters move first, and only then are a 403 for an
      unauthorised caller and a 400 for a body the validators refuse decided, so
      both of those replies still leave the counters moved.  A `$inc` that fails
      on `null` statistics throws before either check: the reply is a 500. */
  method UpdateRescueRequest(db: Database, caller: Caller, id: Id, p: Patch, now: nat)
    returns (reply: Reply<Request>)
    modifies db`requests, db`users
    ensures id !in old(db.requests) ==>
      reply == NotFound("Rescue request not found") &&
      db.requests == old(db.requests) && db.users == old(db.users)
    ensures id in old(db.requests) && AsksStatusChange(old(db.requests)[id], p) &&
            !ValidTransition(old(db.requests)[id].status, p.status.value) ==>
      reply == BadRequest(TransitionMessage(old(db.requests)[id].status, p.status.value)) &&
      db.requests == old(db.requests) && db.users == old(db.users)
    ensures id in old(db.requests) &&
            (AsksStatusChange(old(db.requests)[id], p) ==> ValidTransition(old(db.requests)[id].status, p.status.value)) &&
            !IncAccepted(old(db.users), StatusEffects(old(db.requests)[id], p)) ==>
      reply == ServerError(IncOnNullFailed) && db.requests == old(db.requests) && db.users == old(db.users)
    ensures id in old(db.requests) &&
            (AsksStatusChange(old(db.requests)[id], p) ==> ValidTransition(old(db.requests)[id].status, p.status.value)) &&
            IncAccepted(old(db.users), StatusEffects(old(db.requests)[id], p)) ==>
      db.users == ApplyDeltas(old(db.users), StatusEffects(old(db.requests)[id], p)) &&
      (!CanUpdate(caller, old(db.requests)[id]) ==>
         reply == Forbidden("Not authorized to update this rescue request") && db.requests == old(db.requests)) &&
      (CanUpdate(caller, old(db.requests)[id]) && !PatchValid(p) ==>
         reply.BadRequest? && db.requests == old(db.requests)) &&
      (CanUpdate(caller, old(db.requests)[id]) && PatchValid(p) ==>
         reply == Ok(ApplyPatch(old(db.requests)[id], p, now)) &&
         db.requests == old(db.requests)[id := ApplyPatch(old(db.requests)[id], p, now)])
  {
    if id !in db.requests {
      return NotFound("Rescue request not found");
    }
    var stored := db.requests[id];
    if AsksStatusChange(stored, p) {
      if !ValidTransition(stored.status, p.status.value) {
        return BadRequest(TransitionMessage(stored.status, p.status.value));
      }
      ValidTransitionMeansAllowed(stored.status, p.status.value);
      var to := ParseStatus(p.status.value).value;
      var ds := CounterEffects(stored, to, p.assignedTo);
      assert ds == StatusEffects(stored, p);
      StatusCreditRefused(db.users, stored, to, p.assignedTo);
      var ok := db.IncrementCounters(ds);
      assert db.requests == old(db.requests);
      if !ok {
        assert db.users == old(db.users);
        return ServerError(IncOnNullFailed);
      }
      assert ds[..FirstRefused(old(db.users), ds)] == ds;
    }
    if !CanUpdate(caller, stored) {
      return Forbidden("Not authorized to update this rescue request");
    }
    if !PatchValid(p) {
      return BadRequest("Validation error: Validation failed");
    }
    var updated := ApplyPatch(stored, p, now);
    db.requests := db.requests[id := updated];
    reply := Ok(updated);
  }

  /** What a status change does to one counter of one stored user: it moves by
      `Gain` when the user is the one the change credits, and not at all otherwise;
      a body without a status change moves nothing. */
  lemma StatusEffectsOnCounter(users: map<Id, User>, stored: Request, p: Patch, u: Id, c: Counter)
    requires u in users && !users[u].statistics.Null?
    requires AsksStatusChange(stored, p) ==> ValidTransition(stored.status, p.status.value)
    ensures var after := CounterOf(ApplyDeltas(users, StatusEffects(stored, p))[u].statistics, c);
      var before := CounterOf(users[u].statistics, c);
      if AsksStatusChange(stored, p) then
        var to := ParseStatus(p.status.value).value;
        after == before + (if Beneficiary(stored, to, p.assignedTo) == Some(u) then Gain(stored.status, to, c) else 0)
      else after == before
  {
    ApplyDeltasCounter(users, StatusEffects(stored, p), u, c);
    if AsksStatusChange(stored, p) {
      ValidTransitionMeansAllowed(stored.status, p.status.value);
      CounterEffectsSum(stored, ParseStatus(p.status.value).value, p.assignedTo, u, c);
    }
  }

  /** A receptionist may not update a request, yet sending `approved` for a
      pending one still credits the informer before the 403 is returned. */
  lemma ForbiddenApprovalStillCredits(users: map<Id, User>, stored: Request, caller: Caller, p: Patch)
    requires caller.role == Receptionist && stored.status == Pending && stored.informer in users
    requires !users[stored.informer].statistics.Null?
    requires p.status == Some(StatusName(Approved))
    ensures !CanUpdate(caller, stored)
    ensures CounterOf(ApplyDeltas(users, StatusEffects(stored, p))[stored.informer].statistics, RequestsApproved) ==
            CounterOf(users[stored.informer].statistics, RequestsApproved) + 1
  {
    NamedTransition(Pending, Approved);
    StatusNamesDistinct(Pending, Approved);
    StatusEffectsOnCounter(users, stored, p, stored.informer, RequestsApproved);
  }

  /** Completing a rescue takes one off the volunteer's `rescuesInProgress` with
      no lower bound: from 0 it becomes -1. */
  lemma CompletionCanGoNegative(users: map<Id, User>, stored: Request, p: Patch, v: Id)
    requires v in users && !users[v].statistics.Null? && stored.assignedTo == Some(v)
    requires stored.status == Rescued || stored.status == InProgress
    requires p.status == Some(StatusName(Completed))
    requires CounterOf(users[v].statistics, RescuesInProgress) == 0
    ensures CounterOf(ApplyDeltas(users, StatusEffects(stored, p))[v].statistics, RescuesInProgress) == -1
  {
    NamedTransition(stored.status, Completed);
    StatusNamesDistinct(stored.status, Completed);
    StatusEffectsOnCounter(users, stored, p, v, RescuesInProgress);
  }

  /** An assignment credits the volunteer named in the body, and nobody when the
      body names none. */
  lemma AssignmentCreditsBodyAssignee(users: map<Id, User>, stored: Request, p: Patch, u: Id)
    requires u in users && !users[u].statistics.Null? && stored.status == Approved
    requires p.status == Some(StatusName(Assigned))
    ensures CounterOf(ApplyDeltas(users, StatusEffects(stored, p))[u].statistics, RescuesInProgress) ==
            CounterOf(users[u].statistics, RescuesInProgress) + (if p.assignedTo == Some(u) then 1 else 0)
  {
    NamedTransition(Approved, Assigned);
    StatusNamesDistinct(Approved, Assigned);
    StatusEffectsOnCounter(users, stored, p, u, RescuesInProgress);
  }

  /** With no status in the body, or the stored one, no counter moves. */
  lemma NoStatusChangeNoEffects(stored: Request, p: Patch)
    requires p.status.None? || p.status == Some(StatusName(stored.status))
    ensures StatusEffects(stored, p) == []
  {
  }

  // -------------------------------------------------------------- delete

  /** `deleteRescueRequest`: 404 for an unknown id, then 403 unless `CanDelete`,
      then the request is gone and nothing else changes. */
  method DeleteRescueRequest(db: Database, caller: Caller, id: Id) returns (reply: Reply<string>)
    modifies db`requests
    ensures id !in old(db.requests) ==>
      reply == NotFound("Rescue request not found") && db.requests == old(db.requests)
    ensures id in old(db.requests) && !CanDelete(caller, old(db.requests)[id]) ==>
      reply == Forbidden("Not authorized to delete this rescue request") && db.requests == old(db.requests)
    ensures id in old(db.requests) && CanDelete(caller, old(db.requests)[id]) ==>
      reply == Ok("Rescue request deleted successfully") && db.requests == old(db.requests) - {id}
  {
    if id !in db.requests {
      return NotFound("Rescue request not found");
    }
    if !CanDelete(caller, db.requests[id]) {
      return Forbidden("Not authorized to delete this rescue request");
    }
    db.requests := db.requests - {id};
    reply := Ok("Rescue request deleted successfully");
  }
}
