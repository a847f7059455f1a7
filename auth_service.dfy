/** The authentication service: the login decision, password change and the
    two session checks. The clock and the generated session id are inputs. */
module AuthServices {
  import opened Wrappers
  import opened Roles
  import opened Text
  import opened Users
  import UserRepository
  import opened UserEntities

  /** Seconds on the application clock. */
  type Instant = int

  /** A session lasts 24 hours. */
  const SessionLifetime: int := 24 * 60 * 60

  datatype DenialReason = UnknownEmail | AccountDisabled | WrongPassword

  /** The login response: on success it carries the account's identity and
      the session; on failure only the reason, shown as a message. */
  datatype LoginResponse =
    | Granted(id: Option<int>, email: string, roles: set<Role>, enabled: bool,
              lastLogin: Instant, sessionId: string, sessionExpiry: Instant)
    | Denied(reason: DenialReason)

  /** The `message` of the response. */
  function Message(r: LoginResponse): string {
    match r
    case Granted(_, _, _, _, _, _, _) => "Login successful"
    case Denied(AccountDisabled) => "Account is disabled"
    case Denied(_) => "Invalid email or password"
  }

  /** The stored account for `email` is enabled and has password `password`. */
  predicate Authenticates(m: UserRepository.Store, email: string, password: string) {
    exists k :: k in m && m[k].email == email && m[k].enabled && m[k].password == password
  }

  /** `login`: unknown address, then disabled account, then password
      mismatch; otherwise a session opened at `now` for 24 hours.
      `loggedInAt` is the second clock reading taken for `lastLogin`. */
  function Login(m: UserRepository.Store, email: string, password: string,
                 now: Instant, loggedInAt: Instant, sessionId: string): (r: LoginResponse)
    requires UserRepository.WellFormed(m)
    ensures r.Granted? <==> Authenticates(m, email, password)
    ensures r == Denied(UnknownEmail) <==> !UserRepository.ExistsByEmail(m, email)
    ensures r == Denied(AccountDisabled) <==> exists k :: k in m && m[k].email == email && !m[k].enabled
    ensures r.Granted? ==> exists k :: (k in m && m[k].email == email &&
      r == Granted(Some(k), email, m[k].roles, true, loggedInAt, sessionId, now + SessionLifetime))
  {
    match UserRepository.FindByEmail(m, email)
    case None => Denied(UnknownEmail)
    case Some(u) =>
      if !u.enabled then Denied(AccountDisabled)
      else if password != u.password then Denied(WrongPassword)
      else Granted(u.id, u.email, u.roles, u.enabled, loggedInAt, sessionId, now + SessionLifetime)
  }

  /** A caller cannot tell an unknown address from a wrong password by the
      message, but a disabled account is reported as such. */
  lemma DenialMessages(m: UserRepository.Store, email: string, password: string,
                       now: Instant, loggedInAt: Instant, sessionId: string)
    requires UserRepository.WellFormed(m)
    ensures var r := Login(m, email, password, now, loggedInAt, sessionId);
      && (r.Denied? && r.reason != AccountDisabled ==> Message(r) == "Invalid email or password")
      && (r == Denied(AccountDisabled) <==> Message(r) == "Account is disabled")
      && (r.Granted? <==> Message(r) == "Login successful")
  {
  }

  /** The disabled check comes first: a disabled account is reported as
      disabled whatever password is given. */
  lemma DisabledRegardlessOfPassword(m: UserRepository.Store, email: string, p: string, q: string,
                                     now: Instant, loggedInAt: Instant, sessionId: string)
    requires UserRepository.WellFormed(m)
    requires Login(m, email, p, now, loggedInAt, sessionId) == Denied(AccountDisabled)
    ensures Login(m, email, q, now, loggedInAt, sessionId) == Denied(AccountDisabled)
  {
  }

  /** `validateSession`: present and not blank once trimmed. */
  function ValidateSession(sessionId: Option<string>): (b: bool)
    ensures b <==> sessionId.Some? && exists i :: 0 <= i < |sessionId.value| && !IsTrimmable(sessionId.value[i])
  {
    sessionId.Some? && !IsBlank(sessionId.value)
  }

  /** `logout`: always succeeds; there is no session store to update. */
  function Logout(sessionId: Option<string>): (b: bool)
    ensures b
  {
    true
  }

  /** The outcome of a password change: whether it happened, and the table
      afterwards. */
  datatype PasswordChange = PasswordChange(changed: bool, users: UserRepository.Store)

  /** What `changePassword` does to the table: with the same three guards as
      `login`, the account's password becomes `newPassword`; nothing else
      moves. */
  function ChangedPasswords(m: UserRepository.Store, email: string, current: string, newPassword: string): (r: PasswordChange)
    requires UserRepository.WellFormed(m)
    ensures r.changed <==> Authenticates(m, email, current)
    ensures !r.changed ==> r.users == m
    ensures r.changed ==> exists k :: (k in m && m[k].email == email &&
      r.users == m[k := m[k].(password := newPassword)])
    ensures UserRepository.WellFormed(r.users)
  {
    match UserRepository.FindByEmail(m, email)
    case None => PasswordChange(false, m)
    case Some(u) =>
      if !u.enabled || current != u.password then PasswordChange(false, m)
      else
        var k :| k in m && m[k] == u;
        PasswordChange(true, m[k := u.(password := newPassword)])
  }

  /** After a change, the new password logs in; the old one, if different,
      is refused as a wrong password. */
  lemma LoginAfterPasswordChange(m: UserRepository.Store, email: string, current: string, newPassword: string,
                                 now: Instant, loggedInAt: Instant, sessionId: string)
    requires UserRepository.WellFormed(m)
    requires ChangedPasswords(m, email, current, newPassword).changed
    ensures var m' := ChangedPasswords(m, email, current, newPassword).users;
      && Login(m', email, newPassword, now, loggedInAt, sessionId).Granted?
      && (current != newPassword ==> Login(m', email, current, now, loggedInAt, sessionId) == Denied(WrongPassword))
  {
    var m' := ChangedPasswords(m, email, current, newPassword).users;
    var k :| k in m && m[k].email == email && m' == m[k := m[k].(password := newPassword)];
    assert m'[k].email == email && m'[k].enabled && m'[k].password == newPassword;
  }

  /** A password change leaves every other account's login as it was. */
  lemma OtherAccountsUnaffected(m: UserRepository.Store, email: string, current: string, newPassword: string,
                                other: string, password: string,
                                now: Instant, loggedInAt: Instant, sessionId: string)
    requires UserRepository.WellFormed(m) && other != email
    ensures var m' := ChangedPasswords(m, email, current, newPassword).users;
      Login(m', other, password, now, loggedInAt, sessionId) == Login(m, other, password, now, loggedInAt, sessionId)
  {
    var m' := ChangedPasswords(m, email, current, newPassword).users;
    if m' != m {
      var k :| k in m && m[k].email == email && m' == m[k := m[k].(password := newPassword)];
      assert forall j :: j in m' && m'[j].email == other ==> j != k && m'[j] == m[j];
    }
  }

  class AuthService {
    const repository: UserRepository.UserStore

    constructor (repository: UserRepository.UserStore)
      ensures this.repository == repository
    {
      this.repository := repository;
    }

    /** `changePassword`: the three guards of `login`, then the new password
        is set on the loaded record and saved back. */
    method ChangePassword(email: string, current: string, newPassword: string) returns (changed: bool)
      requires repository.Valid()
      modifies repository
      ensures repository.Valid()
      ensures PasswordChange(changed, repository.users) ==
        ChangedPasswords(old(repository.users), email, current, newPassword)
      ensures repository.nextId == old(repository.nextId)
    {
      var found := UserRepository.FindByEmail(repository.users, email);
      if found.None? {
        return false;
      }
      var user := found.value;
      if !user.enabled {
        return false;
      }
      if current != user.password {
        return false;
      }
      var entity := new UserEntity.Load(user);
      entity.SetPassword(newPassword);
      var saved := repository.Save(entity.Value());
      changed := true;
    }
  }
}
