/** The mutable Java object behind a user record. */
module UserEntities {
  import opened Wrappers
  import opened Roles
  import Users

  /** The Java object, whose role set `addRole` and `removeRole` change in
      place. `Value` is the record it currently denotes. */
  class UserEntity {
    var id: Option<int>
    var email: string
    var password: string
    var roles: set<Role>
    var enabled: bool
    var accountNonExpired: bool
    var accountNonLocked: bool
    var credentialsNonExpired: bool

    function Value(): Users.User
      reads this
    {
      Users.User(id, email, password, roles, enabled, accountNonExpired, accountNonLocked, credentialsNonExpired)
    }

    /** The builder with only e-mail and password given. */
    constructor Build(email: string, password: string)
      ensures Value() == Users.Build(email, password)
    {
      this.id := None;
      this.email := email;
      this.password := password;
      this.roles := {};
      this.enabled := true;
      this.accountNonExpired := true;
      this.accountNonLocked := true;
      this.credentialsNonExpired := true;
    }

    /** The object the persistence layer hands back for a stored record. */
    constructor Load(u: Users.User)
      ensures Value() == u
    {
      this.id := u.id;
      this.email := u.email;
      this.password := u.password;
      this.roles := u.roles;
      this.enabled := u.enabled;
      this.accountNonExpired := u.accountNonExpired;
      this.accountNonLocked := u.accountNonLocked;
      this.credentialsNonExpired := u.credentialsNonExpired;
    }

    function HasRole(r: Role): (b: bool)
      reads this
      ensures b == Users.HasRole(Value(), r)
    {
      r in roles
    }

    method AddRole(r: Role)
      modifies this
      ensures Value() == Users.AddRole(old(Value()), r)
    {
      roles := roles + {r};
    }

    method RemoveRole(r: Role)
      modifies this
      ensures Value() == Users.RemoveRole(old(Value()), r)
    {
      roles := roles - {r};
    }

    method SetPassword(p: string)
      modifies this
      ensures Value() == old(Value()).(password := p)
    {
      password := p;
    }

    static method CreateUser(email: string, password: string) returns (u: UserEntity)
      ensures fresh(u) && u.Value() == Users.CreateUser(email, password)
    {
      u := new UserEntity.Build(email, password);
      u.AddRole(RoleUser);
    }

    static method CreateAdmin(email: string, password: string) returns (u: UserEntity)
      ensures fresh(u) && u.Value() == Users.CreateAdmin(email, password)
    {
      u := new UserEntity.Build(email, password);
      u.AddRole(RoleAdmin);
    }
  }
}
