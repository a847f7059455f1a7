/** The closed set of permission labels an account can hold. */
module Roles {
  import opened Wrappers

  datatype Role = RoleUser | RoleAdmin

  /** `Role.values()`: the constants in declaration order. */
  function Values(): (rs: seq<Role>)
    ensures |rs| == 2 && rs[0] != rs[1]
    ensures forall r: Role :: r in rs
  {
    var rs := [RoleUser, RoleAdmin];
    assert forall r: Role :: r in rs by {
      forall r: Role ensures r in rs {
        if r.RoleUser? { assert r == rs[0]; } else { assert r == rs[1]; }
      }
    }
    rs
  }

  /** The human-readable label carried by each constant. */
  function DisplayName(r: Role): string {
    match r
    case RoleUser => "User"
    case RoleAdmin => "Administrator"
  }

  /** `name()`, which `toString` returns. */
  function Name(r: Role): string {
    match r
    case RoleUser => "ROLE_USER"
    case RoleAdmin => "ROLE_ADMIN"
  }

  /** `Role.valueOf`: the constant with the given name; `None` where Java
      throws `IllegalArgumentException`. */
  function ValueOf(s: string): (r: Option<Role>)
    ensures r.Some? <==> exists q: Role :: Name(q) == s
    ensures r.Some? ==> Name(r.value) == s
  {
    if s == Name(RoleUser) then Some(RoleUser)
    else if s == Name(RoleAdmin) then Some(RoleAdmin)
    else None
  }

  /** Parsing a constant's name gives the constant back. */
  lemma ValueOfName(r: Role)
    ensures ValueOf(Name(r)) == Some(r)
  {
  }

  /** No two constants share a display name or a name. */
  lemma NamesDistinguishRoles(a: Role, b: Role)
    ensures DisplayName(a) == DisplayName(b) ==> a == b
    ensures Name(a) == Name(b) ==> a == b
  {
  }
}
