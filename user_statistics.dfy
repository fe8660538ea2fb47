/** The statistics read path (`getUserStatistics`) and the admin-only repair of
    missing statistics (`initializeUserStatistics`) in `userController.js`. */
module UserStatistics {
  import opened Common
  import opened RescueRequestModel
  import opened UserModel
  import opened Store

  // ------------------------------------------------------------ live counts

  /** Requests assigned to `v` whose status is one of `statuses`. */
  function AssignedIn(requests: map<Id, Request>, v: Id, statuses: set<Status>): set<Id> {
    set id | id in requests && requests[id].assignedTo == Some(v) && requests[id].status in statuses
  }

  /** Requests informed by `u` whose status is one of `statuses`. */
  function InformedIn(requests: map<Id, Request>, u: Id, statuses: set<Status>): set<Id> {
    set id | id in requests && requests[id].informer == u && requests[id].status in statuses
  }

  const AllStatuses: set<Status> := {Pending, Approved, Rejected, Assigned, Rescued, InProgress, Completed, Cancelled}

  /** The statuses the informer view counts as approved: every status past
      approval except cancelled. */
  const ApprovedLike: set<Status> := {Approved, Assigned, InProgress, Rescued, Completed}

  /** `stored || live`: the stored counter unless it is 0 (or missing). */
  function Fallback(stored: int, live: nat): (r: int)
    ensures stored != 0 ==> r == stored
    ensures stored == 0 ==> r == live
  {
    if stored != 0 then stored else live
  }

  /** What `getUserStatistics` sends for a user, by role. */
  datatype StatsView =
    | VolunteerView(user: User, rescuedRequests: nat, completedRequests: nat, inProgressRequests: nat,
                    rescuesRescued: int, saveCount: int)
    | InformerView(user: User, pendingRequests: nat, approvedRequests: nat, rejectedRequests: nat,
                   totalRequests: nat, helpCount: int)
    | BasicView(user: User)

  function View(requests: map<Id, Request>, id: Id, u: User): (r: StatsView)
    ensures r.user == u
    ensures r.VolunteerView? <==> u.role == Volunteer
    ensures r.InformerView? <==> u.role == Informer
    ensures r.VolunteerView? ==>
      r.rescuedRequests == |AssignedIn(requests, id, {Rescued})| &&
      r.completedRequests == |AssignedIn(requests, id, {Completed})| &&
      r.inProgressRequests == |AssignedIn(requests, id, {Assigned, InProgress})| &&
      r.saveCount == Fallback(CounterOf(u.statistics, SaveCount), r.completedRequests) &&
      r.rescuesRescued == Fallback(CounterOf(u.statistics, RescuesRescued), r.rescuedRequests)
    ensures r.InformerView? ==>
      r.pendingRequests == |InformedIn(requests, id, {Pending})| &&
      r.approvedRequests == |InformedIn(requests, id, ApprovedLike)| &&
      r.rejectedRequests == |InformedIn(requests, id, {Rejected})| &&
      r.totalRequests == |InformedIn(requests, id, AllStatuses)| &&
      r.helpCount == Fallback(CounterOf(u.statistics, HelpCount), r.totalRequests)
  {
    if u.role == Volunteer then
      var rescued := |AssignedIn(requests, id, {Rescued})|;
      var completed := |AssignedIn(requests, id, {Completed})|;
      VolunteerView(u, rescued, completed, |AssignedIn(requests, id, {Assigned, InProgress})|,
                    Fallback(CounterOf(u.statistics, RescuesRescued), rescued),
                    Fallback(CounterOf(u.statistics, SaveCount), completed))
    else if u.role == Informer then
      var total := |InformedIn(requests, id, AllStatuses)|;
      InformerView(u, |InformedIn(requests, id, {Pending})|, |InformedIn(requests, id, ApprovedLike)|,
                   |InformedIn(requests, id, {Rejected})|, total,
                   Fallback(CounterOf(u.statistics, HelpCount), total))
    else
      BasicView(u)
  }

  /** Counting over disjoint sets of statuses adds up. */
  lemma InformedSplit(requests: map<Id, Request>, u: Id, a: set<Status>, b: set<Status>)
    requires a * b == {}
    ensures |InformedIn(requests, u, a + b)| == |InformedIn(requests, u, a)| + |InformedIn(requests, u, b)|
  {
    var x, y := InformedIn(requests, u, a), InformedIn(requests, u, b);
    assert InformedIn(requests, u, a + b) == x + y;
    forall k | k in x
      ensures k !in y
    {
      var st := requests[k].status;
      assert st in a;
      assert st !in b by {
        assert st !in a * b;
      }
    }
    assert x * y == {};
  }

  /** The informer's pending, approved and rejected counts, together with the
      cancelled requests the view leaves out, make up the total. */
  lemma InformerCountsAddUp(requests: map<Id, Request>, u: Id)
    ensures |InformedIn(requests, u, {Pending})| + |InformedIn(requests, u, ApprovedLike)| +
            |InformedIn(requests, u, {Rejected})| + |InformedIn(requests, u, {Cancelled})| ==
            |InformedIn(requests, u, AllStatuses)|
  {
    var s1: set<Status> := {Pending} + ApprovedLike;
    var s2: set<Status> := s1 + {Rejected};
    InformedSplit(requests, u, {Pending}, ApprovedLike);
    InformedSplit(requests, u, s1, {Rejected});
    InformedSplit(requests, u, s2, {Cancelled});
    assert s2 + {Cancelled} == AllStatuses;
  }

  /** The target of `getUserStatistics`: the id in the path, else the caller. */
  function Target(caller: Caller, paramId: Option<Id>): Id {
    if paramId.Some? then paramId.value else caller.id
  }

  /** Someone else's statistics are visible to admins and team leaders only. */
  predicate MayView(caller: Caller, paramId: Option<Id>) {
    !(paramId.Some? && paramId.value != caller.id) || caller.role == Admin || caller.role == TeamLeader
  }

  /** The user after loading and the read path's repair: absent statistics
      arrive as the default zeros, `null` ones are replaced by zeros. */
  function Repaired(u: User): (r: User)
    ensures r.statistics.Present?
    ensures !u.statistics.Present? ==> r == u.(statistics := Present(ZeroStats()))
    ensures u.statistics.Present? ==> r == u
    ensures r == Loaded(u).(statistics := RepairStats(Loaded(u).statistics))
  {
    u.(statistics := RepairStats(u.statistics))
  }

  const ToObjectFailed := "user.statistics.toObject is not a function"

  /** The reply `getUserStatistics` sends as written.  `statistics` is declared
      `type: Object`, which Mongoose keeps as a plain object without a `toObject`
      method, so the spread `...user.statistics.toObject()` of the volunteer and
      informer branches throws and the handler answers 500.  The other roles get
      the user itself, which is their view. */
  function StatsReply(requests: map<Id, Request>, id: Id, u: User): (r: Reply<StatsView>)
    ensures u.role == Volunteer || u.role == Informer ==> r == ServerError(ToObjectFailed)
    ensures u.role != Volunteer && u.role != Informer ==> r == Ok(View(requests, id, u))
  {
    if u.role == Volunteer || u.role == Informer then ServerError(ToObjectFailed) else Ok(BasicView(u))
  }

  /** The reply as written is the intended view exactly for the roles without
      live counts: every volunteer and every informer gets a 500 instead. */
  lemma StatsReplyDiffersFromView(requests: map<Id, Request>, id: Id, u: User)
    ensures StatsReply(requests, id, u) == Ok(View(requests, id, u)) <==> u.role != Volunteer && u.role != Informer
  {
  }

  /** `getUserStatistics`.  The user is loaded with only name, role and statistics
      selected, so absent statistics arrive as the default zeros and nothing is
      saved, while `null` ones are repaired and saved, which runs no other
      validator.  The repair is stored before the reply is built, so it stays
      stored when the reply is a 500. */
  method GetUserStatistics(db: Database, caller: Caller, paramId: Option<Id>) returns (reply: Reply<StatsView>)
    modifies db`users
    ensures !MayView(caller, paramId) ==>
      reply == Forbidden("Not authorized to view other user statistics") && db.users == old(db.users)
    ensures MayView(caller, paramId) && Target(caller, paramId) !in old(db.users) ==>
      reply == NotFound("User not found") && db.users == old(db.users)
    ensures MayView(caller, paramId) && Target(caller, paramId) in old(db.users) ==>
      var id := Target(caller, paramId);
      (old(db.users)[id].statistics.Null? ==> db.users == old(db.users)[id := Repaired(old(db.users)[id])]) &&
      (!old(db.users)[id].statistics.Null? ==> db.users == old(db.users)) &&
      reply == StatsReply(db.requests, id, Repaired(old(db.users)[id]))
  {
    if paramId.Some? && paramId.value != caller.id {
      if caller.role != Admin && caller.role != TeamLeader {
        return Forbidden("Not authorized to view other user statistics");
      }
    }
    var id := Target(caller, paramId);
    if id !in db.users {
      return NotFound("User not found");
    }
    var user := Loaded(db.users[id]);
    if user.statistics.Null? {
      user := user.(statistics := Present(ZeroStats()));
      db.users := db.users[id := user];
    }
    reply := StatsReply(db.requests, id, user);
  }

  // --------------------------------------------------- initialise statistics

  /** The users `initializeUserStatistics` selects: statistics missing or null. */
  function Missing(users: map<Id, User>): set<Id> {
    set id | id in users && !users[id].statistics.Present?
  }

  /** A user as the initialisation saves it: zero statistics, nothing else changed;
      what loading filled in is overwritten. */
  function Initialised(u: User): (r: User)
    ensures r == Loaded(u).(statistics := Present(ZeroStats()))
  {
    u.(statistics := Present(ZeroStats()))
  }

  /** The users in `done` are initialised and every other user is as before. */
  predicate InitialisedExactly(before: map<Id, User>, after: map<Id, User>, done: set<Id>) {
    after.Keys == before.Keys &&
    (forall id :: id in before && id !in done ==> after[id] == before[id]) &&
    (forall id :: id in before && id in done ==> after[id] == Initialised(before[id]))
  }

  /** The users after initialising those in `done`. */
  function InitialisedOn(before: map<Id, User>, done: set<Id>): map<Id, User> {
    map id | id in before :: if id in done then Initialised(before[id]) else before[id]
  }

  lemma InitialisedOnExactly(before: map<Id, User>, done: set<Id>)
    ensures InitialisedExactly(before, InitialisedOn(before, done), done)
  {
  }

  /** Initialising one more user. */
  lemma InitialisedOnStep(before: map<Id, User>, done: set<Id>, id: Id)
    requires id in before && id !in done
    ensures InitialisedOn(before, done)[id] == before[id]
    ensures InitialisedOn(before, done)[id := Initialised(before[id])] == InitialisedOn(before, done + {id})
  {
  }

  /** Initialising changes no username and no email, so the unique indexes judge
      a save during the loop as they would have judged it before the loop. */
  lemma NoClashWhileInitialising(before: map<Id, User>, done: set<Id>, id: Id, v: User)
    ensures NoClash(InitialisedOn(before, done), id, v) <==> NoClash(before, id, v)
  {
    var after := InitialisedOn(before, done);
    forall other | other in before
      ensures after[other].username == before[other].username && after[other].email == before[other].email
    {
    }
  }

  /** The validators accept user `id` of `before` with zero statistics. */
  predicate InitialisedAccepted(before: map<Id, User>, id: Id) {
    id in before && SaveValid(before, id, Initialised(before[id]), None)
  }

  /** One iteration: zero statistics, then `user.save()`, which throws exactly
      when the user as it stood before the loop fails the schema's validators. */
  method SaveInitialised(db: Database, id: Id, ghost start: map<Id, User>, ghost done: set<Id>) returns (ok: bool)
    requires db.users == InitialisedOn(start, done) && id in start && id !in done
    modifies db`users
    ensures ok <==> InitialisedAccepted(start, id)
    ensures ok ==> db.users == InitialisedOn(start, done + {id})
    ensures !ok ==> db.users == old(db.users)
  {
    var user := db.users[id];
    InitialisedOnStep(start, done, id);
    NoClashWhileInitialising(start, done, id, Initialised(user));
    var saved := db.SaveUser(id, Loaded(user).(statistics := Present(ZeroStats())), None);
    SaveWithStatistics(old(db.users), id, user, ZeroStats());
    ok := saved.Some?;
  }

  /** `initializeUserStatistics`: admins only.  `order` is the list the query
      returns: every selected user exactly once.  Each user gets zero statistics
      and is saved, counting each save.  A save that throws ends the loop with a
      500, and the users saved so far stay saved: `saved` are they, the first
      `count` of the order. */
  method InitializeUserStatistics(db: Database, caller: Caller, order: seq<Id>)
    returns (reply: Reply<nat>, ghost saved: set<Id>, ghost count: nat)
    requires Distinct(order) && forall id :: id in order <==> id in Missing(db.users)
    modifies db`users
    ensures caller.role != Admin ==>
      reply == Forbidden("Not authorized to perform this action") && db.users == old(db.users) && saved == {}
    ensures reply.Forbidden? <==> caller.role != Admin
    ensures count <= |order| && saved <= Missing(old(db.users))
    ensures forall j :: 0 <= j < count ==> order[j] in saved
    ensures forall j :: count <= j < |order| ==> order[j] !in saved
    ensures forall j :: 0 <= j < count ==> InitialisedAccepted(old(db.users), order[j])
    ensures InitialisedExactly(old(db.users), db.users, saved)
    ensures reply.Ok? || reply.ServerError? || reply.Forbidden?
    ensures reply.ServerError? ==>
      count < |order| && order[count] in old(db.users) && !InitialisedAccepted(old(db.users), order[count])
    ensures reply.Ok? ==>
      reply.value == |Missing(old(db.users))| && saved == Missing(old(db.users)) &&
      forall id :: id in db.users ==> db.users[id].statistics.Present?
  {
    saved, count := {}, 0;
    if caller.role != Admin {
      return Forbidden("Not authorized to perform this action"), saved, count;
    }
    ghost var start := db.users;
    var updatedCount := 0;
    assert db.users == InitialisedOn(start, {});
    for i := 0 to |order|
      invariant updatedCount == i == count && saved <= Missing(start)
      invariant forall j :: 0 <= j < i ==> order[j] in saved
      invariant forall j :: i <= j < |order| ==> order[j] !in saved
      invariant forall j :: 0 <= j < i ==> InitialisedAccepted(start, order[j])
      invariant db.users == InitialisedOn(start, saved)
    {
      assert order[i] in order;
      var ok := SaveInitialised(db, order[i], start, saved);
      if !ok {
        InitialisedOnExactly(start, saved);
        return ServerError("User validation failed"), saved, count;
      }
      saved, count := saved + {order[i]}, count + 1;
      updatedCount := updatedCount + 1;
    }
    InitialisedOnExactly(start, saved);
    assert saved == Missing(start) && Elements(order) == saved by {
      forall id | id in Missing(start) ensures id in saved {
        var j :| 0 <= j < |order| && order[j] == id;
      }
    }
    DistinctCount(order);
    reply := Ok(updatedCount);
  }
}
