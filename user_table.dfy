/**
 * The user table and the three administration operations of AuthController
 * that change it (register, updateUser, deleteUser). Every method follows
 * the controller's steps and is proved to give the answer, and leave the
 * table, that UserRules prescribes, keeping ids and emails consistent.
 */
module AuthController {
  import opened Wrappers
  import opened Models
  import opened UserRules

  class UserTable {
    /** The rows of `utilisateurs`, by id. */
    var users: map<nat, User>
    /** The id the next insert receives. */
    var nextId: nat

    ghost predicate Valid()
      reads this
    {
      && KeysAreIds(users)
      && UniqueEmails(users)
      && forall k :: k in users ==> k < nextId
    }

    constructor ()
      ensures Valid() && users == map[] && nextId == 0
    {
      users := map[];
      nextId := 0;
    }

    /** POST /register, with the teams that exist and the password hash function. */
    method Register(teams: set<nat>, req: RegisterRequest, hash: string -> string) returns (r: Result<nat, Error>)
      requires Valid()
      modifies this
      ensures Valid()
      ensures match RegisterOutcome(old(users), teams, old(nextId), req, hash)
        case Ok(u) => r == Ok(old(nextId)) && users == old(users)[old(nextId) := u] && nextId == old(nextId) + 1
        case Err(e) => r == Err(e) && users == old(users) && nextId == old(nextId)
    {
      if !RegisterRulesHold(users, teams, req) {
        return Err(ValidationFailed);
      }
      var u := User(nextId, req.name.value, req.email.value, hash(req.password.value),
                    Some(req.team.value as nat), false);
      assert u == RegisterOutcome(users, teams, nextId, req, hash).value;
      RegisterKeepsTable(users, teams, nextId, req, hash);
      users := users[nextId := u];
      r := Ok(nextId);
      nextId := nextId + 1;
    }

    /** PUT /users/{id}: look the row up (404), validate (422), write the whitelisted keys. */
    method UpdateUser(teams: set<nat>, id: nat, req: UserUpdateRequest) returns (r: Result<User, Error>)
      requires Valid()
      modifies this
      ensures Valid() && nextId == old(nextId)
      ensures r == UpdateUserOutcome(old(users), teams, id, req)
      ensures users == if r.Ok? then old(users)[id := r.value] else old(users)
    {
      if id !in users {
        return Err(NotFound);
      }
      var u := users[id];
      if !UpdateRulesHold(users, teams, id, req) {
        return Err(ValidationFailed);
      }
      if req.name.Some? {
        u := u.(name := req.name.value);
      }
      if req.email.Some? {
        u := u.(email := req.email.value);
      }
      if req.team.Some? {
        u := u.(team := Some(req.team.value as nat));
      }
      if req.isAdmin.Some? {
        u := u.(isAdmin := req.isAdmin.value);
      }
      assert u == UserUpdated(users[id], req);
      UpdateKeepsTable(users, teams, id, req);
      users := users[id := u];
      r := Ok(u);
    }

    /** DELETE /users/{id}: refuses to remove the last administrator. */
    method DeleteUser(id: nat) returns (r: Result<(), Error>)
      requires Valid()
      modifies this
      ensures Valid() && nextId == old(nextId)
      ensures r == DeleteOutcome(old(users), id)
      ensures users == if r.Ok? then old(users) - {id} else old(users)
    {
      if id !in users {
        return Err(NotFound);
      }
      var u := users[id];
      if u.isAdmin && AdminCount(users) <= 1 {
        return Err(LastAdminDeletion);
      }
      DeleteKeepsTable(users, id);
      users := users - {id};
      r := Ok(());
    }
  }

  /**
   * The scenario of the repository's feature test on the last administrator:
   * a registered user promoted to be the only administrator cannot be
   * deleted, and the table keeps them.
   */
  method LastAdminScenario(hash: string -> string)
    returns (reg: Result<nat, Error>, promote: Result<User, Error>, refused: Result<(), Error>)
    ensures reg == Ok(0) && promote.Ok? && promote.value.isAdmin
    ensures refused == Err(LastAdminDeletion)
  {
    var table := new UserTable();
    reg := table.Register({1}, RegisterRequest(Some("Alice"), Some("a@b.fr"), Some("password"),
                                              Some("password"), Some(1)), hash);
    assert LooksLikeEmail("a@b.fr") && Filled("Alice") && Filled("password") by {
      assert "a@b.fr"[1] == '@' && !Trimmed("Alice"[0]) && !Trimmed("password"[0]);
    }
    assert reg == Ok(0);
    promote := table.UpdateUser({1}, 0, UserUpdateRequest(None, None, None, Some(true), None, None));
    assert promote.Ok? && table.users[0].isAdmin;
    assert Admins(table.users) == {0};
    refused := table.DeleteUser(0);
  }
}
