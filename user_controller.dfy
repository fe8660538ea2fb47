/** The handlers of `userController.js`: registration, login, reading and editing
    one's profile, listing users, changing a role, the statistics read path and
    the statistics initialisation.  Token generation is not modelled; a handler
    that would answer with a token answers with the user's id. */
module UserController {
  import opened Common
  import opened RescueRequestModel
  import opened UserModel
  import opened Store

  // ------------------------------------------------------------ register

  /** The body fields `registerUser` reads; an absent field is the empty string. */
  datatype RegisterBody = RegisterBody(
    name: string, username: string, email: string, password: string, role: string, area: string)

  /** `findOne({ $or: [{ email }, { username }] })`: the schema setters also apply
      to the query values, so the email is compared trimmed and lower-cased and
      the username trimmed. */
  predicate ClashesWith(u: User, b: RegisterBody) {
    u.email == NormaliseEmail(b.email) || u.username == Trim(b.username)
  }

  /** `validRoles` of registration: every role except admin. */
  function RegistrationRole(role: string): (r: Option<Role>)
    ensures r.Some? <==> ParseRole(role).Some? && ParseRole(role).value != Admin
    ensures r.Some? ==> RoleName(r.value) == role
  {
    var parsed := ParseRole(role);
    if parsed.Some? && parsed.value != Admin then parsed else None
  }

  /** The document `User.create` builds: the body's fields through the schema
      setters, the password as its hash (the hook computes it on save), all eight counters at
      zero, and the area kept only for a volunteer. */
  function NewUser(b: RegisterBody, role: Role, now: nat): User {
    ApplySetters(User(b.name, b.username, b.email, Bcrypt(b.password), role,
                      if role == Volunteer then Some(b.area) else None, "", true, now, Present(ZeroStats())))
  }

  /** What the schema asks of a registration beyond the handler's own checks. */
  predicate RegistrationSaves(b: RegisterBody, role: Role) {
    Trim(b.name) != "" && Trim(b.username) != "" && Trim(b.email) != "" &&
    |b.password| >= 6 && (role == Volunteer ==> Trim(b.area) != "")
  }

  /** Once nobody clashes, save accepts the new user exactly when the fields pass
      their validators, and the stored user has zero counters, the chosen role,
      the hashed password and an area only when a volunteer. */
  lemma RegistrationOutcome(users: map<Id, User>, id: Id, b: RegisterBody, role: Role, now: nat)
    requires id !in users
    requires forall other :: other in users ==> !ClashesWith(users[other], b)
    ensures var r := SaveOutcome(users, id, NewUser(b, role, now), Some(b.password));
      (r.Some? <==> RegistrationSaves(b, role)) &&
      (r.Some? ==> r.value.statistics == Present(ZeroStats()) && r.value.role == role &&
                   r.value.password == Bcrypt(b.password) && (r.value.area.Some? <==> role == Volunteer))
  {
    var v := NewUser(b, role, now);
    assert |v.email| == |Trim(b.email)|;
    assert NoClash(users, id, v);
  }

  /** The duplicate check of `registerUser`: the message for the clashing user
      `findOne` returns, or None when nobody clashes. */
  method FindDuplicate(users: map<Id, User>, b: RegisterBody) returns (message: Option<string>)
    ensures message.None? <==> forall id :: id in users ==> !ClashesWith(users[id], b)
    ensures message.Some? ==> message.value == "Username already exists" || message.value == "Email already exists"
    ensures message == Some("Username already exists") ==>
      exists id :: id in users && ClashesWith(users[id], b) && users[id].username == b.username
    ensures (forall id :: id in users && ClashesWith(users[id], b) ==> users[id].username != b.username) ==>
      message != Some("Username already exists")
  {
    if exists id :: id in users && ClashesWith(users[id], b) {
      var found :| found in users && ClashesWith(users[found], b);
      if users[found].username == b.username {
        return Some("Username already exists");
      }
      return Some("Email already exists");
    }
    return None;
  }

  /** `registerUser`.  The duplicate check comes first: some clashing user is
      found, and the message is about the username only when that user's stored
      username equals the username exactly as sent. */
  method RegisterUser(db: Database, b: RegisterBody, now: nat) returns (reply: Reply<Id>)
    modifies db`users
    ensures (exists id :: id in old(db.users) && ClashesWith(old(db.users)[id], b)) ==>
      db.users == old(db.users) &&
      (reply == BadRequest("Username already exists") || reply == BadRequest("Email already exists"))
    ensures reply == BadRequest("Username already exists") ==>
      exists id :: id in old(db.users) && ClashesWith(old(db.users)[id], b) && old(db.users)[id].username == b.username
    ensures (forall id :: id in old(db.users) && ClashesWith(old(db.users)[id], b) ==> old(db.users)[id].username != b.username) ==>
      reply != BadRequest("Username already exists")
    ensures (forall id :: id in old(db.users) ==> !ClashesWith(old(db.users)[id], b)) ==>
      (RegistrationRole(b.role).None? ==> reply == BadRequest("Invalid role") && db.users == old(db.users)) &&
      (b.role == "volunteer" && b.area == "" ==>
         reply == BadRequest("Area is required for volunteers") && db.users == old(db.users)) &&
      (RegistrationRole(b.role).Some? && !(b.role == "volunteer" && b.area == "") ==>
         (reply.Created? <==> RegistrationSaves(b, RegistrationRole(b.role).value)) &&
         (!reply.Created? ==> reply.ServerError? && db.users == old(db.users)))
    ensures reply.Created? ==>
      reply.value !in old(db.users) && RegistrationRole(b.role).Some? &&
      SaveOutcome(old(db.users), reply.value, NewUser(b, RegistrationRole(b.role).value, now), Some(b.password)).Some? &&
      db.users == old(db.users)[reply.value :=
        SaveOutcome(old(db.users), reply.value, NewUser(b, RegistrationRole(b.role).value, now), Some(b.password)).value]
  {
    var duplicate := FindDuplicate(db.users, b);
    if duplicate.Some? {
      return BadRequest(duplicate.value);
    }
    var role := RegistrationRole(b.role);
    if role.None? {
      return BadRequest("Invalid role");
    }
    if b.role == "volunteer" && b.area == "" {
      return BadRequest("Area is required for volunteers");
    }
    var id := FreshId(db.users.Keys);
    var user := NewUser(b, role.value, now);
    RegistrationOutcome(db.users, id, b, role.value, now);
    var saved := db.SaveUser(id, user, Some(b.password));
    if saved.None? {
      return ServerError("User validation failed");
    }
    assert role.value == RegistrationRole(b.role).value;
    reply := Created(id);
  }

  // --------------------------------------------------------------- login

  const LoginFailed := "Invalid username or password"

  /** `loginUser`: the user found by (trimmed) username, a password check, then
      `lastLogin` is set and the user, as loaded, saved.  Both failures give the
      same reply. */
  method LoginUser(db: Database, username: string, password: string, now: nat) returns (reply: Reply<Id>)
    modifies db`users
    ensures (forall id :: id in old(db.users) ==> old(db.users)[id].username != Trim(username)) ==>
      reply == Unauthenticated(LoginFailed)
    ensures UsersUnique(old(db.users)) ==>
      forall id :: (id in old(db.users) && old(db.users)[id].username == Trim(username) &&
                    old(db.users)[id].password != Bcrypt(password)) ==>
        reply == Unauthenticated(LoginFailed)
    ensures UsersUnique(old(db.users)) ==>
      forall id :: (id in old(db.users) && old(db.users)[id].username == Trim(username) &&
                    old(db.users)[id].password == Bcrypt(password)) ==>
        (SaveOutcome(old(db.users), id, Loaded(old(db.users)[id]).(lastLogin := now), None).Some? ==> reply == Ok(id)) &&
        (SaveOutcome(old(db.users), id, Loaded(old(db.users)[id]).(lastLogin := now), None).None? ==> reply.ServerError?)
    ensures reply.ServerError? ==>
      exists id :: id in old(db.users) && old(db.users)[id].username == Trim(username) &&
        old(db.users)[id].password == Bcrypt(password) &&
        SaveOutcome(old(db.users), id, Loaded(old(db.users)[id]).(lastLogin := now), None).None?
    ensures reply.Ok? || reply.Unauthenticated? || reply.ServerError?
    ensures reply.Unauthenticated? ==> reply == Unauthenticated(LoginFailed)
    ensures !reply.Ok? ==> db.users == old(db.users)
    ensures reply.Ok? ==>
      reply.value in old(db.users) && old(db.users)[reply.value].username == Trim(username) &&
      old(db.users)[reply.value].password == Bcrypt(password) &&
      SaveOutcome(old(db.users), reply.value, Loaded(old(db.users)[reply.value]).(lastLogin := now), None).Some? &&
      db.users == old(db.users)[reply.value :=
        SaveOutcome(old(db.users), reply.value, Loaded(old(db.users)[reply.value]).(lastLogin := now), None).value]
    ensures reply.Ok? ==> db.users[reply.value].lastLogin == now
  {
    if !exists id :: id in db.users && db.users[id].username == Trim(username) {
      return Unauthenticated(LoginFailed);
    }
    var id :| id in db.users && db.users[id].username == Trim(username);
    if db.users[id].password != Bcrypt(password) {
      return Unauthenticated(LoginFailed);
    }
    var saved := db.SaveUser(id, Loaded(db.users[id]).(lastLogin := now), None);
    if saved.None? {
      return ServerError("User validation failed");
    }
    reply := Ok(id);
  }

  // ------------------------------------------------------------- profile

  /** `getUserProfile`: the caller's own user as loaded, so absent statistics
      arrive as the default zeros and are returned without a save; `null`
      statistics are replaced by zeros and saved before the user is returned. */
  method GetUserProfile(db: Database, caller: Caller) returns (reply: Reply<User>)
    modifies db`users
    ensures caller.id !in old(db.users) ==> reply == NotFound("User not found") && db.users == old(db.users)
    ensures caller.id in old(db.users) && !old(db.users)[caller.id].statistics.Null? ==>
      reply == Ok(Loaded(old(db.users)[caller.id])) && db.users == old(db.users)
    ensures caller.id in old(db.users) && old(db.users)[caller.id].statistics.Absent? ==>
      reply == Ok(old(db.users)[caller.id].(statistics := Present(ZeroStats())))
    ensures caller.id in old(db.users) && old(db.users)[caller.id].statistics.Null? ==>
      var repaired := old(db.users)[caller.id].(statistics := Present(ZeroStats()));
      (reply.Ok? ==> reply == Ok(repaired) && db.users == old(db.users)[caller.id := repaired]) &&
      (!reply.Ok? ==> reply.ServerError? && db.users == old(db.users)) &&
      (reply.Ok? <==> SaveOutcome(old(db.users), caller.id, repaired, None).Some?)
  {
    if caller.id !in db.users {
      return NotFound("User not found");
    }
    var user := Loaded(db.users[caller.id]);
    if user.statistics.Null? {
      var saved := db.SaveUser(caller.id, user.(statistics := Present(ZeroStats())), None);
      if saved.None? {
        return ServerError("User validation failed");
      }
      SaveWithStatistics(old(db.users), caller.id, user, ZeroStats());
      return Ok(saved.value);
    }
    reply := Ok(user);
  }

  /** The body fields `updateUserProfile` reads; empty means absent or falsy. */
  datatype ProfileBody = ProfileBody(name: string, email: string, profilePicture: string, area: string, password: string)

  /** The `||` merge: a falsy body value keeps the stored one, a truthy one is
      assigned through its setter; the area changes only for a volunteer who sends
      one; role, statistics and the rest are left alone. */
  function MergeProfile(u: User, b: ProfileBody): (r: User)
    ensures r.(name := u.name, email := u.email, profilePicture := u.profilePicture, area := u.area) == u
    ensures r.name == (if Truthy(b.name) then Trim(b.name) else u.name)
    ensures r.email == (if Truthy(b.email) then NormaliseEmail(b.email) else u.email)
    ensures r.profilePicture == (if Truthy(b.profilePicture) then b.profilePicture else u.profilePicture)
    ensures r.area == (if u.role == Volunteer && Truthy(b.area) then Some(Trim(b.area)) else u.area)
  {
    u.(name := if Truthy(b.name) then Trim(b.name) else u.name,
       email := if Truthy(b.email) then NormaliseEmail(b.email) else u.email,
       profilePicture := if Truthy(b.profilePicture) then b.profilePicture else u.profilePicture,
       area := if u.role == Volunteer && Truthy(b.area) then Some(Trim(b.area)) else u.area)
  }

  /** Sending the same edit twice gives the same user as sending it once, and an
      edit with every field empty changes nothing. */
  lemma MergeProfileIdempotent(u: User, b: ProfileBody)
    ensures MergeProfile(MergeProfile(u, b), b) == MergeProfile(u, b)
    ensures MergeProfile(u, ProfileBody("", "", "", "", "")) == u
  {
  }

  /** The password a profile edit sets: only when one is supplied. */
  function ProfilePassword(b: ProfileBody): Option<string> {
    if Truthy(b.password) then Some(b.password) else None
  }

  /** `updateUserProfile`: merge into the loaded user, then save (a new password
      is hashed by the hook). */
  method UpdateUserProfile(db: Database, caller: Caller, b: ProfileBody) returns (reply: Reply<User>)
    modifies db`users
    ensures caller.id !in old(db.users) ==> reply == NotFound("User not found") && db.users == old(db.users)
    ensures caller.id in old(db.users) ==>
      var outcome := SaveOutcome(old(db.users), caller.id, MergeProfile(Loaded(old(db.users)[caller.id]), b), ProfilePassword(b));
      (outcome.Some? ==> reply == Ok(outcome.value) && db.users == old(db.users)[caller.id := outcome.value]) &&
      (outcome.None? ==> reply.ServerError? && db.users == old(db.users))
  {
    if caller.id !in db.users {
      return NotFound("User not found");
    }
    var saved := db.SaveUser(caller.id, MergeProfile(Loaded(db.users[caller.id]), b), ProfilePassword(b));
    if saved.None? {
      return ServerError("User validation failed");
    }
    reply := Ok(saved.value);
  }

  /** A profile edit never changes the role or the statistics as loaded, and
      changes the password only when one is supplied; a user with `null`
      statistics cannot be edited at all. */
  lemma ProfileEditKeepsRoleAndStatistics(users: map<Id, User>, id: Id, b: ProfileBody)
    requires id in users
    ensures users[id].statistics.Null? ==>
      SaveOutcome(users, id, MergeProfile(Loaded(users[id]), b), ProfilePassword(b)).None?
    ensures SaveOutcome(users, id, MergeProfile(Loaded(users[id]), b), ProfilePassword(b)).Some? ==>
      var r := SaveOutcome(users, id, MergeProfile(Loaded(users[id]), b), ProfilePassword(b)).value;
      r.role == users[id].role && r.statistics == Loaded(users[id]).statistics &&
      (b.password == "" ==> r.password == users[id].password) &&
      (b.password != "" ==> r.password == Bcrypt(b.password))
  {
    var m := MergeProfile(Loaded(users[id]), b);
    assert m.statistics == Loaded(users[id]).statistics && m.password == users[id].password;
  }

  // ----------------------------------------------------------- user list

  /** The query of `getUsers`: an empty role adds no condition; `isActive` counts
      only when it is exactly "true" or "false". */
  datatype UsersQuery = UsersQuery(role: string, isActive: string)

  predicate UserSelected(u: User, q: UsersQuery) {
    (q.role != "" ==> RoleName(u.role) == q.role) &&
    (q.isActive == "true" ==> u.isActive) &&
    (q.isActive == "false" ==> !u.isActive)
  }

  /** `getUsers`: only admins and team leaders; the users the filter selects. */
  method GetUsers(db: Database, caller: Caller, q: UsersQuery) returns (reply: Reply<set<Id>>)
    ensures caller.role != Admin && caller.role != TeamLeader ==>
      reply == Forbidden("Not authorized to view all users")
    ensures caller.role == Admin || caller.role == TeamLeader ==>
      reply.Ok? && forall id :: id in reply.value <==> id in db.users && UserSelected(db.users[id], q)
  {
    if caller.role != Admin && caller.role != TeamLeader {
      return Forbidden("Not authorized to view all users");
    }
    reply := Ok(set id | id in db.users && UserSelected(db.users[id], q));
  }

  /** Any `isActive` value other than the two literals filters nothing. */
  lemma OtherActiveValuesIgnored(u: User, role: string, isActive: string)
    requires isActive != "true" && isActive != "false"
    ensures UserSelected(u, UsersQuery(role, isActive)) <==> UserSelected(u, UsersQuery(role, ""))
  {
  }

  // ---------------------------------------------------------- role change

  /** The user `updateUserRole` saves: the new role, and a supplied area (trimmed
      by its setter) when the new role is volunteer. */
  function WithRole(u: User, role: Role, area: string): (r: User)
    ensures r.role == role
    ensures r.area == (if role == Volunteer && Truthy(area) then Some(Trim(area)) else u.area)
    ensures r.(role := u.role, area := u.area) == u
  {
    u.(role := role, area := if role == Volunteer && Truthy(area) then Some(Trim(area)) else u.area)
  }

  /** A stored area the JavaScript test `if (user.area)` accepts. */
  predicate HasArea(u: User) {
    u.area.Some? && Truthy(u.area.value)
  }

  /** `updateUserRole`: admins only; 404; one of the six roles; a volunteer needs a
      stored or a supplied area, and a refused request saves nothing. */
  method UpdateUserRole(db: Database, caller: Caller, id: Id, role: string, area: string) returns (reply: Reply<User>)
    modifies db`users
    ensures caller.role != Admin ==> reply == Forbidden("Not authorized to update user roles")
    ensures caller.role == Admin && id !in old(db.users) ==> reply == NotFound("User not found")
    ensures caller.role == Admin && id in old(db.users) && ParseRole(role).None? ==> reply == BadRequest("Invalid role")
    ensures caller.role == Admin && id in old(db.users) && role == "volunteer" &&
            !HasArea(old(db.users)[id]) && !Truthy(area) ==>
      reply == BadRequest("Area is required for volunteers")
    ensures caller.role == Admin && id in old(db.users) && ParseRole(role).Some? &&
            !(role == "volunteer" && !HasArea(old(db.users)[id]) && !Truthy(area)) ==>
      var outcome := SaveOutcome(old(db.users), id, WithRole(Loaded(old(db.users)[id]), ParseRole(role).value, area), None);
      (reply.Ok? <==> outcome.Some?) && (!reply.Ok? ==> reply.ServerError?)
    ensures !reply.Ok? && !reply.ServerError? ==> db.users == old(db.users)
    ensures reply.Ok? ==>
      caller.role == Admin && id in old(db.users) && ParseRole(role).Some? &&
      var outcome := SaveOutcome(old(db.users), id, WithRole(Loaded(old(db.users)[id]), ParseRole(role).value, area), None);
      outcome.Some? && reply.value == outcome.value && db.users == old(db.users)[id := outcome.value] &&
      reply.value.role == ParseRole(role).value
    ensures reply.ServerError? ==> db.users == old(db.users)
  {
    if caller.role != Admin {
      return Forbidden("Not authorized to update user roles");
    }
    if id !in db.users {
      return NotFound("User not found");
    }
    var parsed := ParseRole(role);
    if parsed.None? {
      return BadRequest("Invalid role");
    }
    var user := Loaded(db.users[id]);
    if role == "volunteer" && !HasArea(user) && !Truthy(area) {
      return BadRequest("Area is required for volunteers");
    }
    var saved := db.SaveUser(id, WithRole(user, parsed.value, area), None);
    if saved.None? {
      return ServerError("User validation failed");
    }
    reply := Ok(saved.value);
  }
}
