/** The account record: identity, credentials, roles and status flags. */
module Users {
  import opened Wrappers
  import opened Roles
  import opened Text

  /** Column bounds declared on the entity, in UTF-16 code units as Java
      counts a string's length. */
  const EmailMaxLength := 100
  const PasswordMinLength := 6
  const PasswordMaxLength := 120

  /** One account as the store holds it. `id` is `None` until the store
      assigns one; creation and update timestamps are not modelled. */
  datatype User = User(
    id: Option<int>,
    email: string,
    password: string,
    roles: set<Role>,
    enabled: bool,
    accountNonExpired: bool,
    accountNonLocked: bool,
    credentialsNonExpired: bool)

  /** All four account-status flags are set. */
  predicate StatusFlagsSet(u: User) {
    u.enabled && u.accountNonExpired && u.accountNonLocked && u.credentialsNonExpired
  }

  /** `User.builder().email(e).password(p).build()`: the builder's defaults
      are no id, no roles and every status flag set. */
  function Build(email: string, password: string): (u: User)
    ensures u.id == None && u.roles == {} && StatusFlagsSet(u)
    ensures u.email == email && u.password == password
  {
    User(None, email, password, {}, true, true, true, true)
  }

  /** `hasRole`: membership in the role set. */
  predicate HasRole(u: User, r: Role) {
    r in u.roles
  }

  /** `addRole`: `r` is held afterwards, every other role keeps its
      membership, and nothing but the role set changes. */
  function AddRole(u: User, r: Role): (v: User)
    ensures HasRole(v, r)
    ensures forall q :: q != r ==> (HasRole(v, q) <==> HasRole(u, q))
    ensures v.(roles := u.roles) == u
  {
    u.(roles := u.roles + {r})
  }

  /** `removeRole`: `r` is not held afterwards, every other role keeps its
      membership, and nothing but the role set changes. */
  function RemoveRole(u: User, r: Role): (v: User)
    ensures !HasRole(v, r)
    ensures forall q :: q != r ==> (HasRole(v, q) <==> HasRole(u, q))
    ensures v.(roles := u.roles) == u
  {
    u.(roles := u.roles - {r})
  }

  /** Adding a role twice is the same as adding it once; adding a role
      already held changes nothing. */
  lemma AddRoleIdempotent(u: User, r: Role)
    ensures AddRole(AddRole(u, r), r) == AddRole(u, r)
    ensures HasRole(u, r) ==> AddRole(u, r) == u
  {
  }

  /** Removing a role twice is the same as removing it once; removing a
      role not held changes nothing. */
  lemma RemoveRoleIdempotent(u: User, r: Role)
    ensures RemoveRole(RemoveRole(u, r), r) == RemoveRole(u, r)
    ensures !HasRole(u, r) ==> RemoveRole(u, r) == u
  {
  }

  /** `User.createUser`: a regular account holding exactly `ROLE_USER`. */
  function CreateUser(email: string, password: string): (u: User)
    ensures u.id == None && u.email == email && u.password == password
    ensures u.roles == {RoleUser} && StatusFlagsSet(u)
  {
    AddRole(Build(email, password), RoleUser)
  }

  /** `User.createAdmin`: an administrator holding exactly `ROLE_ADMIN`. */
  function CreateAdmin(email: string, password: string): (u: User)
    ensures u.id == None && u.email == email && u.password == password
    ensures u.roles == {RoleAdmin} && StatusFlagsSet(u)
  {
    AddRole(Build(email, password), RoleAdmin)
  }

  /** Lombok's `equals`, generated from the id alone: two records denote the
      same account exactly when their ids agree (two unsaved records, both
      without an id, are equal too). */
  predicate SameAccount(a: User, b: User) {
    a.id == b.id
  }

  /** `SameAccount` is an equivalence that ignores every field but the id. */
  lemma SameAccountIgnoresContents(a: User, b: User, c: User, e: string)
    ensures SameAccount(a, a)
    ensures SameAccount(a, b) ==> SameAccount(b, a)
    ensures SameAccount(a, b) && SameAccount(b, c) ==> SameAccount(a, c)
    ensures SameAccount(a, b) <==> SameAccount(a.(email := e), b)
  {
  }

  /** The field constraints declared on the entity, with their messages. */
  datatype Violation = EmailRequired | EmailMalformed | EmailTooLong | PasswordRequired | PasswordSize

  function ViolationMessage(v: Violation): string {
    match v
    case EmailRequired => "Email is required"
    case EmailMalformed => "Email should be valid"
    case EmailTooLong => "Email must not exceed 100 characters"
    case PasswordRequired => "Password is required"
    case PasswordSize => "Password must be between 6 and 120 characters"
  }

  /** A record satisfies every field constraint. `emailShape` is the
      validator's e-mail syntax check, which this model takes as given. */
  predicate IsValid(u: User, emailShape: string -> bool) {
    && !IsBlank(u.email)
    && emailShape(u.email)
    && Utf16Length(u.email) <= EmailMaxLength
    && !IsBlank(u.password)
    && PasswordMinLength <= Utf16Length(u.password) <= PasswordMaxLength
  }

  /** The constraint violations a validator reports for `u`. The e-mail
      syntax check, like Hibernate's, accepts the empty string, which is
      left to `@NotBlank`. */
  function Violations(u: User, emailShape: string -> bool): (vs: set<Violation>)
    ensures vs == {} <==> IsValid(u, emailShape)
  {
    (if IsBlank(u.email) then {EmailRequired} else {})
    + (if u.email != [] && !emailShape(u.email) then {EmailMalformed} else {})
    + (if Utf16Length(u.email) > EmailMaxLength then {EmailTooLong} else {})
    + (if IsBlank(u.password) then {PasswordRequired} else {})
    + (if Utf16Length(u.password) < PasswordMinLength || Utf16Length(u.password) > PasswordMaxLength then {PasswordSize} else {})
  }

  /** An empty password breaks two constraints at once, and a short one that
      is not blank breaks only the size constraint. */
  lemma PasswordViolations(u: User, emailShape: string -> bool)
    requires !IsBlank(u.email) && emailShape(u.email) && Utf16Length(u.email) <= EmailMaxLength
    ensures u.password == [] ==> Violations(u, emailShape) == {PasswordRequired, PasswordSize}
    ensures (0 < Utf16Length(u.password) < PasswordMinLength && !IsBlank(u.password))
      ==> Violations(u, emailShape) == {PasswordSize}
  {
  }

  /** An empty e-mail address is reported once, as missing, not also as
      malformed. */
  lemma EmptyEmailViolation(u: User, emailShape: string -> bool)
    requires u.email == []
    requires !IsBlank(u.password) && PasswordMinLength <= Utf16Length(u.password) <= PasswordMaxLength
    ensures Violations(u, emailShape) == {EmailRequired}
  {
  }
}
