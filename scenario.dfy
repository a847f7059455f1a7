/** The two-account scenario: an administrator and a regular account are
    created through the user service on an empty table, then counted and
    logged in. */
module Scenario {
  import opened Wrappers
  import opened Roles
  import opened Users
  import UserRepository
  import opened UserServices
  import AuthServices

  const AdminEmail := "admin@example.com"
  const UserEmail := "user@example.com"

  /** The table after both accounts are created under keys `a` and `u`. */
  function TwoAccounts(a: nat, u: nat): UserRepository.Store {
    map[a := CreateAdmin(AdminEmail, "admin123").(id := Some(a)),
        u := CreateUser(UserEmail, "user123").(id := Some(u))]
  }

  /** Both creations succeed on an empty table, and they leave exactly the
      two accounts, under two distinct keys. */
  method CreateBoth(service: UserService) returns (admin: Result<User, ServiceError>, user: Result<User, ServiceError>)
    requires service.repository.Valid() && service.repository.users == map[]
    modifies service.repository
    ensures service.repository.Valid()
    ensures admin.Success? && user.Success?
    ensures exists a: nat, u: nat :: a != u && service.repository.users == TwoAccounts(a, u)
  {
    var repository := service.repository;
    ghost var a := repository.nextId;
    admin := service.CreateUser(CreateAdmin(AdminEmail, "admin123"));
    ghost var u := repository.nextId;
    assert a in repository.users;
    assert AdminEmail != UserEmail by { assert AdminEmail[0] != UserEmail[0]; }
    user := service.CreateUser(CreateUser(UserEmail, "user123"));
    assert repository.users == TwoAccounts(a, u);
  }

  /** In that table the counts are one administrator, one regular account
      and two in all; a wrong password for the regular account is refused
      with the generic message, and its own password logs in with roles
      exactly {ROLE_USER}. */
  lemma TwoAccountsFacts(a: nat, u: nat, now: AuthServices.Instant, loggedInAt: AuthServices.Instant, sessionId: string)
    requires a != u
    ensures var m := TwoAccounts(a, u);
      && UserRepository.WellFormed(m)
      && UserRepository.CountTotalUsers(m) == 2
      && UserRepository.CountByRole(m, RoleAdmin) == 1
      && UserRepository.CountByRole(m, RoleUser) == 1
      && AuthServices.Message(AuthServices.Login(m, UserEmail, "wrong", now, loggedInAt, sessionId))
           == "Invalid email or password"
      && AuthServices.Login(m, UserEmail, "user123", now, loggedInAt, sessionId).Granted?
      && AuthServices.Login(m, UserEmail, "user123", now, loggedInAt, sessionId).roles == {RoleUser}
  {
    TwoAccountsCounts(a, u);
    TwoAccountsLogins(a, u, now, loggedInAt, sessionId);
  }

  /** The table is well formed and holds one account of each role. */
  lemma TwoAccountsCounts(a: nat, u: nat)
    requires a != u
    ensures var m := TwoAccounts(a, u);
      && UserRepository.WellFormed(m)
      && UserRepository.CountTotalUsers(m) == 2
      && UserRepository.CountByRole(m, RoleAdmin) == 1
      && UserRepository.CountByRole(m, RoleUser) == 1
  {
    var m := TwoAccounts(a, u);
    assert AdminEmail != UserEmail by { assert AdminEmail[0] != UserEmail[0]; }
    assert m.Keys == {a, u};
    assert UserRepository.KeysWithRole(m, RoleAdmin) == {a};
    assert UserRepository.KeysWithRole(m, RoleUser) == {u};
  }

  /** The regular account's logins: a wrong password is refused with the
      generic message, its own password is granted with its one role. */
  lemma TwoAccountsLogins(a: nat, u: nat, now: AuthServices.Instant, loggedInAt: AuthServices.Instant, sessionId: string)
    requires a != u
    ensures var m := TwoAccounts(a, u);
      && AuthServices.Login(m, UserEmail, "wrong", now, loggedInAt, sessionId) == AuthServices.Denied(AuthServices.WrongPassword)
      && AuthServices.Login(m, UserEmail, "user123", now, loggedInAt, sessionId).Granted?
      && AuthServices.Login(m, UserEmail, "user123", now, loggedInAt, sessionId).roles == {RoleUser}
  {
    var m := TwoAccounts(a, u);
    assert AdminEmail != UserEmail by { assert AdminEmail[0] != UserEmail[0]; }
    assert UserRepository.EmailsUnique(m);
    assert m[u].email == UserEmail && m[u].enabled && m[u].password == "user123";
  }
}
