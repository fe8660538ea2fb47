/** The User schema: role and its default, the area rule for volunteers, the eight
    statistics counters and their all-zero default, the pre-save hook, what a
    `$inc` on counters does, and what `save()` stores or refuses. */
module UserModel {
  import opened Common

  /** The eight keys of `statistics`. */
  datatype Counter =
    | RescuesCompleted | RescuesInProgress | RescuesRescued | SaveCount
    | HelpCount | RequestsSubmitted | RequestsApproved | RequestsRejected

  const AllCounters: set<Counter> := {
    RescuesCompleted, RescuesInProgress, RescuesRescued, SaveCount,
    HelpCount, RequestsSubmitted, RequestsApproved, RequestsRejected }

  lemma AllCountersComplete()
    ensures forall c :: c in AllCounters
  {
    forall c ensures c in AllCounters {
      match c
      case RescuesCompleted =>
      case RescuesInProgress =>
      case RescuesRescued =>
      case SaveCount =>
      case HelpCount =>
      case RequestsSubmitted =>
      case RequestsApproved =>
      case RequestsRejected =>
    }
  }

  /** The stored `statistics` field: absent from the document, `null`, or a plain
      object, which may lack keys. */
  datatype Stats = Absent | Null | Present(counters: map<Counter, int>)

  /** The schema default and every repair: all eight counters at zero. */
  function ZeroStats(): (m: map<Counter, int>)
    ensures forall c :: c in m && m[c] == 0
  {
    AllCountersComplete();
    map c | c in AllCounters :: 0
  }

  /** All eight keys are present. */
  predicate Complete(s: Stats) {
    s.Present? && forall c :: c in s.counters
  }

  /** `if (!user.statistics) user.statistics = {…zeros}`: the repair in the pre-save
      hook, in `getUserProfile` and in `getUserStatistics`; both an absent and a
      `null` field are falsy. */
  function RepairStats(s: Stats): (r: Stats)
    ensures r.Present?
    ensures s.Present? ==> r == s
    ensures !s.Present? ==> Complete(r) && forall c :: r.counters[c] == 0
  {
    if s.Present? then s else Present(ZeroStats())
  }

  /** The value a `$inc` continues from: a missing counter counts as 0. */
  function CounterOf(s: Stats, c: Counter): int {
    if s.Present? && c in s.counters then s.counters[c] else 0
  }

  /** `$inc: { 'statistics.<c>': amount }`: creates the object or the key when
      missing, and never clamps.  MongoDB cannot create a field inside `null`, so
      a `null` object is not something a `$inc` can move. */
  function Inc(s: Stats, c: Counter, amount: int): (r: Stats)
    requires !s.Null?
    ensures r.Present?
    ensures CounterOf(r, c) == CounterOf(s, c) + amount
    ensures forall d :: d != c ==> CounterOf(r, d) == CounterOf(s, d)
    ensures Complete(s) ==> Complete(r)
  {
    var m := if s.Present? then s.counters else map[];
    Present(m[c := CounterOf(s, c) + amount])
  }

  /** bcrypt is a foreign call; the hash of a password is represented by the
      password it was made from, so that comparing is checking equality. */
  datatype PasswordHash = Bcrypt(plain: string)

  datatype User = User(
    name: string,
    username: string,
    email: string,
    password: PasswordHash,
    role: Role,
    area: Option<string>,
    profilePicture: string,
    isActive: bool,
    lastLogin: nat,
    statistics: Stats)

  const DefaultRole: Role := Volunteer

  /** A document as Mongoose loads it: a path with a default that the stored
      document lacks is filled in with that default, so an absent `statistics`
      arrives as the zero object and the next `save()` stores it; a `null` one is
      a value and arrives as `null`. */
  function Loaded(u: User): (r: User)
    ensures !r.statistics.Absent?
    ensures u.statistics.Absent? ==> r == u.(statistics := Present(ZeroStats()))
    ensures !u.statistics.Absent? ==> r == u
  {
    if u.statistics.Absent? then u.(statistics := Present(ZeroStats())) else u
  }

  /** The `email` setters: trimmed, then lower-cased. */
  function NormaliseEmail(e: string): string {
    Lower(Trim(e))
  }

  /** A string the JavaScript test `if (x)` accepts. */
  predicate Truthy(s: string) {
    s != ""
  }

  /** The setters the schema applies when a field is assigned: `name`, `username`
      and `area` are trimmed, `email` is trimmed and lower-cased.  A document
      loaded from the database and saved again is not passed through them. */
  function ApplySetters(u: User): (r: User)
    ensures r.name == Trim(u.name) && r.username == Trim(u.username) && r.email == NormaliseEmail(u.email)
    ensures r.area == if u.area.Some? then Some(Trim(u.area.value)) else None
    ensures r.(name := u.name, username := u.username, email := u.email, area := u.area) == u
  {
    u.(name := Trim(u.name), username := Trim(u.username), email := NormaliseEmail(u.email),
       area := if u.area.Some? then Some(Trim(u.area.value)) else None)
  }

  /** After the setters, name, username and area carry no surrounding white space. */
  lemma SettersTrim(u: User)
    ensures var r := ApplySetters(u);
      Trim(r.name) == r.name && Trim(r.username) == r.username &&
      (r.area.Some? ==> Trim(r.area.value) == r.area.value)
  {
    TrimIdempotent(u.name);
    TrimIdempotent(u.username);
    if u.area.Some? {
      TrimIdempotent(u.area.value);
    }
  }

  /** The schema validators `save()` runs, before any `pre('save')` hook.
      `newPassword` is the plaintext when the password was modified: its
      `minlength` is checked before the hook hashes it.  `statistics` is
      `required`, so a `null` (or absent) object is refused before the hook could
      fill it in.  The unique indexes on username and email refuse a clash with any
      other stored user. */
  predicate SaveValid(users: map<Id, User>, id: Id, u: User, newPassword: Option<string>) {
    u.name != "" && u.username != "" && u.email != "" &&
    (u.role == Volunteer ==> u.area.Some? && u.area.value != "") &&
    u.statistics.Present? &&
    (newPassword.Some? ==> |newPassword.value| >= 6) &&
    NoClash(users, id, u)
  }

  /** No user other than `id` has the same username or email as `u`. */
  predicate NoClash(users: map<Id, User>, id: Id, u: User) {
    forall other :: other in users && other != id ==>
      users[other].username != u.username && users[other].email != u.email
  }

  /** The pre-save hook: hash the password only when it was modified, and fill
      in zero statistics when they are missing. */
  function PreSave(u: User, newPassword: Option<string>): (r: User)
    ensures r.statistics == RepairStats(u.statistics)
    ensures r.password == if newPassword.Some? then Bcrypt(newPassword.value) else u.password
    ensures r.(password := u.password, statistics := u.statistics) == u
  {
    u.(password := if newPassword.Some? then Bcrypt(newPassword.value) else u.password,
       statistics := RepairStats(u.statistics))
  }

  /** What every stored user satisfies. */
  predicate UserValid(u: User) {
    u.name != "" && u.username != "" && u.email != "" &&
    (u.role == Volunteer ==> u.area.Some? && u.area.value != "") &&
    u.statistics.Present?
  }

  /** `user.save()`: validation, then the pre-save hook; None when a validator or
      a unique index refuses the document.  What is stored is valid, clashes with
      nobody, and differs from the document only in the hashed password and the
      repaired statistics. */
  function SaveOutcome(users: map<Id, User>, id: Id, u: User, newPassword: Option<string>): (r: Option<User>)
    ensures r.Some? <==> SaveValid(users, id, u, newPassword)
    ensures r.Some? ==> UserValid(r.value) && NoClash(users, id, r.value)
    ensures r.Some? ==> r.value.(password := u.password, statistics := u.statistics) == u
    ensures r.Some? ==> r.value.statistics == RepairStats(u.statistics)
    ensures r.Some? ==> r.value.password == if newPassword.Some? then Bcrypt(newPassword.value) else u.password
  {
    if SaveValid(users, id, u, newPassword) then Some(PreSave(u, newPassword)) else None
  }

  /** Because validation runs first, the hook's statistics repair never takes
      effect: a save that succeeds stores the statistics it was given, and a user
      whose statistics are `null` cannot be saved at all.  A loaded user is never
      without statistics, so that is the only case left. */
  lemma HookRepairNeverApplies(users: map<Id, User>, id: Id, u: User, newPassword: Option<string>)
    ensures SaveOutcome(users, id, u, newPassword).Some? ==>
      SaveOutcome(users, id, u, newPassword).value.statistics == u.statistics
    ensures !u.statistics.Present? ==> SaveOutcome(users, id, u, newPassword).None?
    ensures u.statistics.Null? ==> SaveOutcome(users, id, Loaded(u), newPassword).None?
  {
  }

  /** Saving a user whose only change is complete statistics stores exactly that
      user: the hook has nothing to add. */
  lemma SaveWithStatistics(users: map<Id, User>, id: Id, u: User, m: map<Counter, int>)
    ensures SaveOutcome(users, id, u.(statistics := Present(m)), None).Some? ==>
      SaveOutcome(users, id, u.(statistics := Present(m)), None).value == u.(statistics := Present(m))
  {
  }

  /** No two stored users share a username or an email. */
  predicate UsersUnique(users: map<Id, User>) {
    forall a, b :: a in users && b in users && a != b ==>
      users[a].username != users[b].username && users[a].email != users[b].email
  }

  /** A save the unique indexes accept keeps usernames and emails unique. */
  lemma SaveKeepsUnique(users: map<Id, User>, id: Id, v: User)
    requires UsersUnique(users) && NoClash(users, id, v)
    ensures UsersUnique(users[id := v])
  {
    var after := users[id := v];
    forall a, b | a in after && b in after && a != b
      ensures after[a].username != after[b].username && after[a].email != after[b].email
    {
      if a == id {
        assert users[b].username != v.username && users[b].email != v.email;
      } else if b == id {
        assert users[a].username != v.username && users[a].email != v.email;
      }
    }
  }

  /** A counter change addressed to one user by `findByIdAndUpdate(user, { $inc })`. */
  datatype Delta = Delta(user: Id, counter: Counter, amount: int)

  /** User `u` is stored with `null` statistics. */
  predicate StatsNull(users: map<Id, User>, u: Id) {
    u in users && users[u].statistics.Null?
  }

  /** MongoDB refuses the `$inc` of `d`: its user is stored with `null` statistics. */
  predicate Refuses(users: map<Id, User>, d: Delta) {
    StatsNull(users, d.user)
  }

  /** No change of `ds` is refused. */
  predicate IncAccepted(users: map<Id, User>, ds: seq<Delta>) {
    forall i :: 0 <= i < |ds| ==> !Refuses(users, ds[i])
  }

  /** The position of the first refused change, or `|ds|` when none is refused. */
  function FirstRefused(users: map<Id, User>, ds: seq<Delta>): (k: nat)
    ensures k <= |ds|
    ensures forall i :: 0 <= i < k ==> !Refuses(users, ds[i])
    ensures k < |ds| ==> Refuses(users, ds[k])
    ensures k == |ds| <==> IncAccepted(users, ds)
    decreases |ds|
  {
    if ds == [] then 0
    else if Refuses(users, ds[0]) then 0
    else 1 + FirstRefused(users, ds[1..])
  }

  /** When every change is addressed to one user, as in a single `$inc`, either
      all of them are accepted or the very first is refused. */
  lemma OneUserRefusedFirst(users: map<Id, User>, ds: seq<Delta>, u: Id)
    requires forall d :: d in ds ==> d.user == u
    ensures !IncAccepted(users, ds) ==> FirstRefused(users, ds) == 0
  {
    if !IncAccepted(users, ds) {
      var k := FirstRefused(users, ds);
      assert ds[k] in ds && ds[0] in ds;
    }
  }

  /** One `$inc` addressed to `d.user`; an id with no stored user is left alone,
      as `findByIdAndUpdate` on a missing document does, and so is a user whose
      `null` statistics make the `$inc` fail. */
  function ApplyDelta(users: map<Id, User>, d: Delta): (r: map<Id, User>)
    ensures r.Keys == users.Keys
    ensures forall u :: u in r ==> (r[u].statistics.Null? <==> users[u].statistics.Null?)
  {
    if d.user in users && !users[d.user].statistics.Null?
    then users[d.user := users[d.user].(statistics := Inc(users[d.user].statistics, d.counter, d.amount))]
    else users
  }

  /** Applies the changes in order; a change addressed to an id with no stored user
      does nothing, as `findByIdAndUpdate` on a missing document does. */
  function ApplyDeltas(users: map<Id, User>, ds: seq<Delta>): (r: map<Id, User>)
    ensures r.Keys == users.Keys
    ensures forall u :: u in r ==> (r[u].statistics.Null? <==> users[u].statistics.Null?)
    decreases |ds|
  {
    if ds == [] then users
    else
      var d := ds[0];
      var next := ApplyDelta(users, d);
      ApplyDeltas(next, ds[1..])
  }

  /** Applying one more change after a run is the run extended by that change. */
  lemma {:induction false} ApplyDeltasSnoc(users: map<Id, User>, ds: seq<Delta>, d: Delta)
    ensures ApplyDeltas(users, ds + [d]) == ApplyDelta(ApplyDeltas(users, ds), d)
    decreases |ds|
  {
    if ds == [] {
      assert ([] + [d])[1..] == [];
    } else {
      assert (ds + [d])[0] == ds[0];
      assert (ds + [d])[1..] == ds[1..] + [d];
      ApplyDeltasSnoc(ApplyDelta(users, ds[0]), ds[1..], d);
    }
  }

  /** The total amount the changes add to counter `c` of user `u`. */
  function DeltaSum(ds: seq<Delta>, u: Id, c: Counter): int
    decreases |ds|
  {
    if ds == [] then 0
    else (if ds[0].user == u && ds[0].counter == c then ds[0].amount else 0) + DeltaSum(ds[1..], u, c)
  }

  /** Only the addressed users' statistics move: every other field, and every user
      no change is addressed to, stays as it was. */
  lemma {:induction false} ApplyDeltasFrame(users: map<Id, User>, ds: seq<Delta>, u: Id)
    requires u in users
    ensures ApplyDeltas(users, ds)[u].(statistics := users[u].statistics) == users[u]
    ensures (forall i :: 0 <= i < |ds| ==> ds[i].user != u) ==> ApplyDeltas(users, ds)[u] == users[u]
    decreases |ds|
  {
    if ds != [] {
      var d := ds[0];
      var next := ApplyDelta(users, d);
      ApplyDeltasFrame(next, ds[1..], u);
      assert forall i :: 0 <= i < |ds[1..]| ==> ds[1..][i] == ds[i + 1];
    }
  }

  /** Each counter of a stored user ends up moved by exactly the sum of the
      amounts addressed to it, unless its statistics are `null`, which no change
      moves. */
  lemma {:induction false} ApplyDeltasCounter(users: map<Id, User>, ds: seq<Delta>, u: Id, c: Counter)
    requires u in users
    ensures !users[u].statistics.Null? ==>
      CounterOf(ApplyDeltas(users, ds)[u].statistics, c) == CounterOf(users[u].statistics, c) + DeltaSum(ds, u, c)
    ensures users[u].statistics.Null? ==> ApplyDeltas(users, ds)[u] == users[u]
    decreases |ds|
  {
    if ds != [] {
      var d := ds[0];
      var next := ApplyDelta(users, d);
      ApplyDeltasCounter(next, ds[1..], u, c);
    }
  }

  /** `initStatistics`: each counter keeps its value when truthy and becomes 0
      when missing or falsy (`user.statistics?.<c> || 0`, so a `null` object gives
      zeros too); other keys of the old object are dropped. */
  function RebuildStats(s: Stats): (m: map<Counter, int>)
    ensures forall c :: c in m
    ensures forall c :: m[c] == CounterOf(s, c)
  {
    AllCountersComplete();
    map c | c in AllCounters :: if s.Present? && c in s.counters && s.counters[c] != 0 then s.counters[c] else 0
  }

  /** Rebuilding complete statistics changes nothing, so a second run is a no-op. */
  lemma RebuildIdempotent(s: Stats)
    ensures RebuildStats(Present(RebuildStats(s))) == RebuildStats(s)
    ensures Complete(s) ==> RebuildStats(s) == s.counters
  {
    var m := RebuildStats(s);
    var m2 := RebuildStats(Present(m));
    assert forall c :: m2[c] == m[c];
    if Complete(s) {
      assert forall c :: m[c] == s.counters[c];
      assert m.Keys == s.counters.Keys;
    }
  }
}
