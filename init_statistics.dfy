/** The maintenance script `initStatistics.js`: every user gets a statistics
    object holding all eight counters, each kept when truthy and 0 otherwise, and
    is saved; the first save that throws ends the run. */
module InitStatistics {
  import opened Common
  import opened UserModel
  import opened Store

  /** A user with its statistics rebuilt. */
  function Rebuilt(u: User): (r: User)
    ensures Complete(r.statistics)
    ensures forall c :: CounterOf(r.statistics, c) == CounterOf(u.statistics, c)
    ensures r.(statistics := u.statistics) == u
  {
    u.(statistics := Present(RebuildStats(u.statistics)))
  }

  /** Rebuilding the user as loaded, with absent statistics filled in by the
      default, gives what rebuilding the stored user gives. */
  lemma RebuiltIgnoresLoading(u: User)
    ensures Rebuilt(Loaded(u)) == Rebuilt(u)
  {
    var a, b := RebuildStats(Loaded(u).statistics), RebuildStats(u.statistics);
    assert forall c :: a[c] == b[c];
    assert a.Keys == b.Keys;
  }

  /** Rebuilding twice gives what rebuilding once gives, and a user whose
      statistics are already complete is left exactly as it was. */
  lemma RebuiltIdempotent(u: User)
    ensures Rebuilt(Rebuilt(u)) == Rebuilt(u)
    ensures Complete(u.statistics) ==> Rebuilt(u) == u
  {
    RebuildIdempotent(u.statistics);
  }

  /** The users in `done` are rebuilt and every other user is as before. */
  predicate RebuiltExactly(before: map<Id, User>, after: map<Id, User>, done: set<Id>) {
    after.Keys == before.Keys &&
    (forall id :: id in before && id !in done ==> after[id] == before[id]) &&
    (forall id :: id in before && id in done ==> after[id] == Rebuilt(before[id]))
  }

  /** Every user holds complete statistics that agree, counter by counter, with
      what the user held before. */
  predicate AllRebuilt(before: map<Id, User>, after: map<Id, User>) {
    after.Keys == before.Keys &&
    forall id :: id in after ==>
      (Complete(after[id].statistics) &&
       forall c :: CounterOf(after[id].statistics, c) == CounterOf(before[id].statistics, c))
  }

  /** A run that saved every user leaves every user rebuilt. */
  lemma RunOverAll(before: map<Id, User>, after: map<Id, User>)
    requires RebuiltExactly(before, after, before.Keys)
    ensures AllRebuilt(before, after)
  {
    forall id | id in after
      ensures Complete(after[id].statistics) &&
        forall c :: CounterOf(after[id].statistics, c) == CounterOf(before[id].statistics, c)
    {
      assert after[id] == Rebuilt(before[id]);
    }
  }

  /** The users after rebuilding those in `done`. */
  function RebuiltOn(before: map<Id, User>, done: set<Id>): map<Id, User> {
    map id | id in before :: if id in done then Rebuilt(before[id]) else before[id]
  }

  lemma RebuiltOnExactly(before: map<Id, User>, done: set<Id>)
    ensures RebuiltExactly(before, RebuiltOn(before, done), done)
  {
  }

  /** Rebuilding one more user. */
  lemma RebuiltOnStep(before: map<Id, User>, done: set<Id>, id: Id)
    requires id in before && id !in done
    ensures RebuiltOn(before, done)[id] == before[id]
    ensures RebuiltOn(before, done)[id := Rebuilt(before[id])] == RebuiltOn(before, done + {id})
  {
  }

  /** Rebuilding changes no username and no email, so the unique indexes judge
      a save during the run as they would have judged it before the run. */
  lemma NoClashDuringRun(before: map<Id, User>, after: map<Id, User>, done: set<Id>, id: Id, v: User)
    requires RebuiltExactly(before, after, done)
    ensures NoClash(after, id, v) <==> NoClash(before, id, v)
  {
    forall other | other in before
      ensures after[other].username == before[other].username && after[other].email == before[other].email
    {
      if other in done {
        assert after[other] == Rebuilt(before[other]);
      }
    }
  }

  /** The validators accept user `id` of `before` with its statistics rebuilt. */
  predicate Accepted(before: map<Id, User>, id: Id) {
    id in before && SaveValid(before, id, Rebuilt(before[id]), None)
  }

  /** One iteration: rebuild the statistics of user `id`, then `user.save()`.
      `start` and `done` are the users before the run and those saved so far. */
  method SaveRebuilt(db: Database, id: Id, ghost start: map<Id, User>, ghost done: set<Id>) returns (ok: bool)
    requires db.users == RebuiltOn(start, done) && id in start && id !in done
    modifies db`users
    ensures ok <==> SaveValid(old(db.users), id, Rebuilt(old(db.users)[id]), None)
    ensures ok <==> Accepted(start, id)
    ensures ok ==> db.users == old(db.users)[id := Rebuilt(old(db.users)[id])]
    ensures ok ==> db.users == RebuiltOn(start, done + {id})
    ensures !ok ==> db.users == old(db.users)
  {
    var user := Loaded(db.users[id]);
    RebuiltIgnoresLoading(db.users[id]);
    RebuiltOnExactly(start, done);
    RebuiltOnStep(start, done, id);
    NoClashDuringRun(start, db.users, done, id, Rebuilt(user));
    var saved := db.SaveUser(id, Rebuilt(user), None);
    SaveWithStatistics(old(db.users), id, user, RebuildStats(user.statistics));
    ok := saved.Some?;
  }

  /** The script's loop over the users `User.find({})` returns, in the order
      `order` it returns them: every user exactly once.  `updated` is
      `updatedCount`; `saved` is the set of users saved, which are the first
      `updated` of the order, each one the validators accepted.  `failed` says
      the loop was ended by a save that threw, and then it was the save of the
      next user in the order: the run stops exactly at the first refused user. */
  method InitializeStatistics(db: Database, order: seq<Id>) returns (updated: nat, failed: bool, ghost saved: set<Id>)
    requires Distinct(order) && forall id :: id in order <==> id in db.users
    modifies db`users
    ensures updated <= |order| && saved <= old(db.users).Keys
    ensures forall j :: 0 <= j < updated ==> order[j] in saved
    ensures forall j :: updated <= j < |order| ==> order[j] !in saved
    ensures forall j :: 0 <= j < updated ==> Accepted(old(db.users), order[j])
    ensures RebuiltExactly(old(db.users), db.users, saved)
    ensures failed <==> updated < |order|
    ensures failed ==> order[updated] in old(db.users) && !Accepted(old(db.users), order[updated])
    ensures !failed ==> AllRebuilt(old(db.users), db.users)
  {
    ghost var start := db.users;
    saved := {};
    updated := 0;
    assert db.users == RebuiltOn(start, {});
    for i := 0 to |order|
      invariant updated == i && saved <= start.Keys
      invariant forall j :: 0 <= j < i ==> order[j] in saved
      invariant forall j :: i <= j < |order| ==> order[j] !in saved
      invariant forall j :: 0 <= j < i ==> Accepted(start, order[j])
      invariant db.users == RebuiltOn(start, saved)
    {
      assert order[i] in order;
      var ok := SaveRebuilt(db, order[i], start, saved);
      if !ok {
        RebuiltOnExactly(start, saved);
        return updated, true, saved;
      }
      saved := saved + {order[i]};
      updated := updated + 1;
    }
    RebuiltOnExactly(start, saved);
    assert saved == start.Keys by {
      forall id | id in start ensures id in saved {
        var j :| 0 <= j < |order| && order[j] == id;
      }
    }
    RunOverAll(start, db.users);
    failed := false;
  }

  /** On a database whose users are valid and unique, every save succeeds: the
      validators the rebuilt user meets are exactly those the stored user met. */
  lemma ValidUsersNeverFail(users: map<Id, User>, id: Id)
    requires id in users && UserValid(users[id]) && UsersUnique(users)
    ensures SaveValid(users, id, Rebuilt(users[id]), None)
  {
    assert NoClash(users, id, users[id]);
  }
}
