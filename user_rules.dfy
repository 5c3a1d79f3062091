/**
 * The user-administration rules of AuthController (register, updateUser,
 * deleteUser) as functions of the user table, a map from id to row, and of
 * the set of team ids. The class AuthController.UserTable performs these
 * steps on its own state and is proved to agree with them.
 */
module UserRules {
  import opened Wrappers
  import opened Models

  /** The body of a registration; every key may be absent. */
  datatype RegisterRequest = RegisterRequest(
    name: Option<string>, email: Option<string>, password: Option<string>,
    confirmation: Option<string>, team: Option<int>)

  /**
   * The body of an administrator's update. `password` and `id` stand for the
   * keys that may be sent but are never written.
   */
  datatype UserUpdateRequest = UserUpdateRequest(
    name: Option<string>, email: Option<string>, team: Option<int>, isAdmin: Option<bool>,
    password: Option<string>, id: Option<int>)

  /** Every row is stored under its own id. */
  ghost predicate KeysAreIds(users: map<nat, User>) {
    forall k :: k in users ==> users[k].id == k
  }

  /** No two users share an email. */
  ghost predicate UniqueEmails(users: map<nat, User>) {
    forall i, j :: i in users && j in users && i != j ==> users[i].email != users[j].email
  }

  /** `unique:utilisateurs,email[,except]`: some other row than `except` holds the email. */
  predicate EmailTaken(users: map<nat, User>, email: string, except: Option<nat>) {
    exists k :: k in users && users[k].email == email && except != Some(k)
  }

  /** The `email` rule, reduced to a local part and a domain around an `@`. */
  predicate LooksLikeEmail(e: string) {
    exists i :: 0 < i < |e| - 1 && e[i] == '@'
  }

  /**
   * `required` on a string: something is left once PHP's `trim` has removed
   * spaces, tabs, line breaks, NUL and vertical tabs.
   */
  predicate Filled(s: string) {
    exists i :: 0 <= i < |s| && !Trimmed(s[i])
  }

  /** The characters PHP's `trim` removes by default. */
  predicate Trimmed(c: char) {
    c == ' ' || c == '\t' || c == '\n' || c == '\r' || c == '\0' || c as int == 11
  }

  /** `string|max:255`, counted in characters. */
  predicate NameFits(n: string) {
    |n| <= 255
  }

  /** The registration rules: all keys required, email free, password of 8 or more and confirmed, team known. */
  predicate RegisterRulesHold(users: map<nat, User>, teams: set<nat>, req: RegisterRequest) {
    && req.name.Some? && Filled(req.name.value) && NameFits(req.name.value)
    && req.email.Some? && LooksLikeEmail(req.email.value) && !EmailTaken(users, req.email.value, None)
    && req.password.Some? && Filled(req.password.value) && |req.password.value| >= 8 && req.confirmation == req.password
    && req.team.Some? && req.team.value >= 0 && req.team.value as nat in teams
  }

  /** The row a valid registration inserts: never an administrator, password stored hashed. */
  function Registered(id: nat, req: RegisterRequest, hash: string -> string): (u: User)
    requires req.name.Some? && req.email.Some? && req.password.Some? && req.team.Some? && req.team.value >= 0
    ensures u.id == id && !u.isAdmin
    ensures u.name == req.name.value && u.email == req.email.value && u.team == Some(req.team.value as nat)
    ensures u.passwordHash == hash(req.password.value)
  {
    User(id, req.name.value, req.email.value, hash(req.password.value), Some(req.team.value as nat), false)
  }

  /** The answer to a registration: 422 when a rule fails, else the new row under `id`. */
  function RegisterOutcome(users: map<nat, User>, teams: set<nat>, id: nat, req: RegisterRequest,
                           hash: string -> string): (r: Result<User, Error>)
    ensures r.Err? <==> !RegisterRulesHold(users, teams, req)
    ensures r.Err? ==> r.error == ValidationFailed
    ensures req.email.Some? && EmailTaken(users, req.email.value, None) ==> r == Err(ValidationFailed)
    ensures r.Ok? ==> r.value.id == id && !r.value.isAdmin && r.value.email == req.email.value
    ensures r.Ok? ==> r.value == Registered(id, req, hash)
  {
    if RegisterRulesHold(users, teams, req) then Ok(Registered(id, req, hash)) else Err(ValidationFailed)
  }

  /** `required` trims first: a name made only of spaces is refused with 422. */
  lemma BlankNameRefused(users: map<nat, User>, teams: set<nat>, id: nat, req: RegisterRequest, hash: string -> string)
    requires req.name == Some("   ")
    ensures RegisterOutcome(users, teams, id, req, hash) == Err(ValidationFailed)
  {
    assert !Filled("   ") by {
      forall i | 0 <= i < 3 ensures Trimmed("   "[i]) {
      }
    }
  }

  /** A registration under a fresh id keeps emails unique and rows under their ids. */
  lemma RegisterKeepsTable(users: map<nat, User>, teams: set<nat>, id: nat, req: RegisterRequest, hash: string -> string)
    requires KeysAreIds(users) && UniqueEmails(users) && id !in users
    requires RegisterOutcome(users, teams, id, req, hash).Ok?
    ensures KeysAreIds(users[id := RegisterOutcome(users, teams, id, req, hash).value])
    ensures UniqueEmails(users[id := RegisterOutcome(users, teams, id, req, hash).value])
  {
    var u := RegisterOutcome(users, teams, id, req, hash).value;
    var users' := users[id := u];
    forall i, j | i in users' && j in users' && i != j
      ensures users'[i].email != users'[j].email
    {
      if i == id {
        assert !(users[j].email == req.email.value && None != Some(j));
      } else if j == id {
        assert !(users[i].email == req.email.value && None != Some(i));
      }
    }
  }

  /** The update rules: each key, when present, must be valid; the email may be the user's own. */
  predicate UpdateRulesHold(users: map<nat, User>, teams: set<nat>, id: nat, req: UserUpdateRequest) {
    && (req.name.Some? ==> NameFits(req.name.value))
    && (req.email.Some? ==> LooksLikeEmail(req.email.value) && !EmailTaken(users, req.email.value, Some(id)))
    && (req.team.Some? ==> req.team.value >= 0 && req.team.value as nat in teams)
  }

  /**
   * `update($request->only([...]))`: exactly the present keys among name,
   * email, team and the administrator flag are written; id and password are not.
   */
  function UserUpdated(u: User, req: UserUpdateRequest): (v: User)
    requires req.team.Some? ==> req.team.value >= 0
    ensures v.id == u.id && v.passwordHash == u.passwordHash
    ensures v.name == (if req.name.Some? then req.name.value else u.name)
    ensures v.email == (if req.email.Some? then req.email.value else u.email)
    ensures v.team == (if req.team.Some? then Some(req.team.value as nat) else u.team)
    ensures v.isAdmin == (if req.isAdmin.Some? then req.isAdmin.value else u.isAdmin)
  {
    var v := if req.name.Some? then u.(name := req.name.value) else u;
    var v := if req.email.Some? then v.(email := req.email.value) else v;
    var v := if req.team.Some? then v.(team := Some(req.team.value as nat)) else v;
    if req.isAdmin.Some? then v.(isAdmin := req.isAdmin.value) else v
  }

  /** The answer to an update: 404, then 422, then the updated row. */
  function UpdateUserOutcome(users: map<nat, User>, teams: set<nat>, id: nat, req: UserUpdateRequest): (r: Result<User, Error>)
    ensures r == Err(NotFound) <==> id !in users
    ensures r == Err(ValidationFailed) <==> id in users && !UpdateRulesHold(users, teams, id, req)
    ensures r.Ok? <==> id in users && UpdateRulesHold(users, teams, id, req)
    ensures r.Ok? ==> r.value.id == users[id].id && r.value.passwordHash == users[id].passwordHash
    ensures r.Ok? ==> r.value == UserUpdated(users[id], req)
  {
    if id !in users then Err(NotFound)
    else if !UpdateRulesHold(users, teams, id, req) then Err(ValidationFailed)
    else Ok(UserUpdated(users[id], req))
  }

  /** A user may keep their own email: sending it back raises no uniqueness error. */
  lemma OwnEmailAccepted(users: map<nat, User>, id: nat)
    requires UniqueEmails(users) && id in users
    ensures !EmailTaken(users, users[id].email, Some(id))
  {
  }

  /** Another user's email is refused, whatever else the request holds. */
  lemma OtherEmailRefused(users: map<nat, User>, teams: set<nat>, id: nat, other: nat, req: UserUpdateRequest)
    requires id in users && other in users && other != id
    requires req.email == Some(users[other].email)
    ensures UpdateUserOutcome(users, teams, id, req) == Err(ValidationFailed)
  {
    assert EmailTaken(users, users[other].email, Some(id));
  }

  /** An update keeps emails unique and rows under their ids. */
  lemma UpdateKeepsTable(users: map<nat, User>, teams: set<nat>, id: nat, req: UserUpdateRequest)
    requires KeysAreIds(users) && UniqueEmails(users)
    requires UpdateUserOutcome(users, teams, id, req).Ok?
    ensures KeysAreIds(users[id := UpdateUserOutcome(users, teams, id, req).value])
    ensures UniqueEmails(users[id := UpdateUserOutcome(users, teams, id, req).value])
  {
    var v := UpdateUserOutcome(users, teams, id, req).value;
    var users' := users[id := v];
    forall i, j | i in users' && j in users' && i != j
      ensures users'[i].email != users'[j].email
    {
      if i == id && req.email.Some? {
        assert !(users[j].email == req.email.value && Some(id) != Some(j));
      } else if j == id && req.email.Some? {
        assert !(users[i].email == req.email.value && Some(id) != Some(i));
      }
    }
  }

  /** The update has no last-administrator guard: the only administrator can be demoted. */
  lemma LastAdminCanBeDemoted()
    ensures
      var admin := User(1, "Admin", "admin@example.org", "h", Some(1), true);
      var users := map[1 := admin];
      AdminCount(users) == 1 &&
      UpdateUserOutcome(users, {1}, 1, UserUpdateRequest(None, None, None, Some(false), None, None))
        == Ok(admin.(isAdmin := false))
  {
    var admin := User(1, "Admin", "admin@example.org", "h", Some(1), true);
    var users := map[1 := admin];
    assert Admins(users) == {1};
  }

  /** The ids of the administrators. */
  function Admins(users: map<nat, User>): (s: set<nat>)
    ensures forall k :: k in s <==> k in users && users[k].isAdmin
  {
    set k | k in users && users[k].isAdmin
  }

  /** `Utilisateur::where('is_admin', true)->count()`. */
  function AdminCount(users: map<nat, User>): (n: nat)
    ensures n == 0 <==> forall k :: k in users ==> !users[k].isAdmin
    ensures forall k :: k in users && users[k].isAdmin ==> n >= 1
  {
    |Admins(users)|
  }

  /** The answer to a deletion: 404, then 400 for the last administrator, else success. */
  function DeleteOutcome(users: map<nat, User>, id: nat): (r: Result<(), Error>)
    ensures r == Err(NotFound) <==> id !in users
    ensures r == Err(LastAdminDeletion) <==> id in users && users[id].isAdmin && AdminCount(users) <= 1
    ensures r.Ok? <==> id in users && (!users[id].isAdmin || AdminCount(users) >= 2)
  {
    if id !in users then Err(NotFound)
    else if users[id].isAdmin && AdminCount(users) <= 1 then Err(LastAdminDeletion)
    else Ok(())
  }

  /**
   * A permitted deletion removes exactly one row, keeps every other row,
   * and leaves at least one administrator when there was one before.
   */
  lemma DeleteKeepsAnAdmin(users: map<nat, User>, id: nat)
    requires DeleteOutcome(users, id).Ok?
    ensures (users - {id}).Keys == users.Keys - {id}
    ensures forall k :: k in users && k != id ==> (users - {id})[k] == users[k]
    ensures AdminCount(users) >= 1 ==> AdminCount(users - {id}) >= 1
    ensures AdminCount(users - {id}) == AdminCount(users) - (if users[id].isAdmin then 1 else 0)
  {
    var after := users - {id};
    if users[id].isAdmin {
      assert Admins(after) == Admins(users) - {id};
    } else {
      assert Admins(after) == Admins(users);
    }
  }

  /** Deleting keeps emails unique and rows under their ids. */
  lemma DeleteKeepsTable(users: map<nat, User>, id: nat)
    requires KeysAreIds(users) && UniqueEmails(users)
    ensures KeysAreIds(users - {id}) && UniqueEmails(users - {id})
  {
  }
}
