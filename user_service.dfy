/** The user-management service: checks the business rules (unique address,
    existing id) before delegating to the repository. A thrown exception
    becomes a `Failure` carrying the error. */
module UserServices {
  import opened Wrappers
  import opened Roles
  import opened Text
  import opened Users
  import UserRepository
  import SqlLike

  datatype ServiceError =
    | EmailTaken(email: string)   // createUser on an address already stored
    | UserNotFound(id: int)       // updateUser or deleteUser on a missing id
    | MissingId                   // updateUser on a user without id; raised by `existsById`
    | Storage(cause: UserRepository.StorageError)  // the store refused the write

  /** The message the service itself puts in the exception; the other two
      errors carry the framework's message. */
  function ErrorMessage(e: ServiceError): (s: Option<string>)
    ensures s.Some? <==> e.EmailTaken? || e.UserNotFound?
  {
    match e
    case EmailTaken(email) => Some("User with email " + email + " already exists")
    case UserNotFound(id) => Some("User with ID " + LongToString(id) + " not found")
    case _ => None
  }

  /** `s` is `p + mid + q` exactly when the middle of `s` is `mid`. */
  lemma Unwrap(s: string, p: string, mid: string, q: string)
    requires s == p + mid + q
    ensures s[|p|..|s| - |q|] == mid
  {
    assert (p + mid + q)[|p|..|p| + |mid|] == mid;
  }

  /** A not-found message names the id it is about. */
  lemma NotFoundMessageNamesId(a: int, b: int)
    requires ErrorMessage(UserNotFound(a)) == ErrorMessage(UserNotFound(b))
    ensures a == b
  {
    var s := ErrorMessage(UserNotFound(a)).value;
    Unwrap(s, "User with ID ", LongToString(a), " not found");
    Unwrap(s, "User with ID ", LongToString(b), " not found");
    LongToStringInjective(a, b);
  }

  /** A duplicate-address message names the address it is about. */
  lemma EmailTakenMessageNamesEmail(a: string, b: string)
    requires ErrorMessage(EmailTaken(a)) == ErrorMessage(EmailTaken(b))
    ensures a == b
  {
    var s := ErrorMessage(EmailTaken(a)).value;
    Unwrap(s, "User with email ", a, " already exists");
    Unwrap(s, "User with email ", b, " already exists");
  }

  /** No address is reported as taken when it is free, and saving under
      `key` then meets no other row with the address. */
  lemma FreeEmailSaves(m: UserRepository.Store, email: string, key: int)
    requires !UserRepository.ExistsByEmail(m, email)
    ensures !UserRepository.EmailHeldByOther(m, email, key)
  {
  }

  class UserService {
    const repository: UserRepository.UserStore

    constructor (repository: UserRepository.UserStore)
      ensures this.repository == repository
    {
      this.repository := repository;
    }

    /** `createUser`: refuses an address already stored; otherwise saves,
        which assigns a fresh key unless the record names a stored row. */
    method CreateUser(u: User) returns (r: Result<User, ServiceError>)
      requires repository.Valid()
      modifies repository
      ensures repository.Valid()
      ensures UserRepository.ExistsByEmail(old(repository.users), u.email) ==>
        r == Failure(EmailTaken(u.email)) && repository.Unchanged()
      ensures !UserRepository.ExistsByEmail(old(repository.users), u.email) ==>
        var key := UserRepository.SaveKey(old(repository.users), old(repository.nextId), u);
        && r == Success(u.(id := Some(key)))
        && repository.users == old(repository.users)[key := r.value]
      ensures r.Success? ==>
        var key := UserRepository.SaveKey(old(repository.users), old(repository.nextId), u);
        repository.nextId == (if key in old(repository.users) then old(repository.nextId) else old(repository.nextId) + 1)
      ensures r.Success? ==> UserRepository.FindByEmail(repository.users, u.email) == Some(r.value)
      ensures r.Success? && u.id.None? ==>
        UserRepository.CountTotalUsers(repository.users) == UserRepository.CountTotalUsers(old(repository.users)) + 1
    {
      if UserRepository.ExistsByEmail(repository.users, u.email) {
        return Failure(EmailTaken(u.email));
      }
      FreeEmailSaves(repository.users, u.email, UserRepository.SaveKey(repository.users, repository.nextId, u));
      var saved := repository.Save(u);
      r := Success(saved.value);
    }

    /** `findByEmail`. */
    method FindByEmail(email: string) returns (r: Option<User>)
      requires repository.Valid()
      ensures r == UserRepository.FindByEmail(repository.users, email)
    {
      r := UserRepository.FindByEmail(repository.users, email);
    }

    /** `findById`. */
    method FindById(id: int) returns (r: Option<User>)
      requires repository.Valid()
      ensures r == UserRepository.FindById(repository.users, id)
    {
      r := UserRepository.FindById(repository.users, id);
    }

    /** `findAllUsers`. */
    method FindAllUsers() returns (us: set<User>)
      requires repository.Valid()
      ensures us == repository.users.Values
    {
      us := UserRepository.FindAll(repository.users);
    }

    /** `findByRole`. */
    method FindByRole(role: Role) returns (us: set<User>)
      requires repository.Valid()
      ensures forall u :: u in us <==> u in repository.users.Values && role in u.roles
    {
      us := UserRepository.FindByRole(repository.users, role);
    }

    /** `updateUser`: a user without id makes `existsById` throw; an id not
        stored is refused; otherwise the row is overwritten, subject to the
        unique constraint on the address. */
    method UpdateUser(u: User) returns (r: Result<User, ServiceError>)
      requires repository.Valid()
      modifies repository
      ensures repository.Valid()
      ensures u.id.None? ==> r == Failure(MissingId) && repository.Unchanged()
      ensures u.id.Some? && u.id.value !in old(repository.users) ==>
        r == Failure(UserNotFound(u.id.value)) && repository.Unchanged()
      ensures u.id.Some? && u.id.value in old(repository.users) ==>
        if UserRepository.EmailHeldByOther(old(repository.users), u.email, u.id.value) then
          r == Failure(Storage(UserRepository.DuplicateEmail(u.email))) && repository.Unchanged()
        else
          && r == Success(u)
          && repository.users == old(repository.users)[u.id.value := u]
          && repository.nextId == old(repository.nextId)
      ensures UserRepository.CountTotalUsers(repository.users) == UserRepository.CountTotalUsers(old(repository.users))
    {
      if u.id.None? {
        return Failure(MissingId);
      }
      if !UserRepository.ExistsById(repository.users, u.id.value) {
        return Failure(UserNotFound(u.id.value));
      }
      var saved := repository.Save(u);
      match saved
      case Success(v) => r := Success(v);
      case Failure(e) =>
        r := Failure(Storage(e));
    }

    /** `deleteUser`: an id not stored is refused; otherwise its row goes. */
    method DeleteUser(id: int) returns (r: Outcome<ServiceError>)
      requires repository.Valid()
      modifies repository
      ensures repository.Valid()
      ensures id !in old(repository.users) ==> r == Fail(UserNotFound(id)) && repository.Unchanged()
      ensures id in old(repository.users) ==>
        && r == Pass
        && repository.users == old(repository.users) - {id as nat}
        && repository.nextId == old(repository.nextId)
        && UserRepository.CountTotalUsers(repository.users) == UserRepository.CountTotalUsers(old(repository.users)) - 1
      ensures UserRepository.FindById(repository.users, id) == None
    {
      if !UserRepository.ExistsById(repository.users, id) {
        return Fail(UserNotFound(id));
      }
      repository.DeleteById(id);
      r := Pass;
    }

    /** `existsByEmail`. */
    method ExistsByEmail(email: string) returns (b: bool)
      requires repository.Valid()
      ensures b <==> UserRepository.FindByEmail(repository.users, email).Some?
    {
      b := UserRepository.ExistsByEmail(repository.users, email);
    }

    /** `getTotalUserCount`: as many as `findAllUsers` returns. */
    method GetTotalUserCount() returns (n: nat)
      requires repository.Valid()
      ensures n == |repository.users.Values|
    {
      n := UserRepository.CountTotalUsers(repository.users);
      UserRepository.CountTotalIsFindAllSize(repository.users);
    }

    /** `getUserCountByRole`: as many as `findByRole` returns. */
    method GetUserCountByRole(role: Role) returns (n: nat)
      requires repository.Valid()
      ensures n == |UserRepository.FindByRole(repository.users, role)|
      ensures n <= |repository.users.Values|
    {
      n := UserRepository.CountByRole(repository.users, role);
      UserRepository.CountByRoleIsFindByRoleSize(repository.users, role);
      UserRepository.CountTotalIsFindAllSize(repository.users);
    }

    /** `searchUsersByEmail`: users whose address contains the term, ignoring
        case. This is the intended search; on every term free of `%` and `_`
        it is the answer of the repository's `LIKE` query as written (see
        `UserRepository.EmailLikeSearch`). */
    method SearchUsersByEmail(term: string) returns (us: set<User>)
      requires repository.Valid()
      ensures forall u :: u in us <==>
        u in repository.users.Values && Contains(Lower(u.email), Lower(term))
      ensures SqlLike.IsLiteral(Lower(term)) ==>
        us == UserRepository.EmailLikeSearch(repository.users, term)
    {
      us := UserRepository.EmailSubstringSearch(repository.users, term);
      if SqlLike.IsLiteral(Lower(term)) {
        UserRepository.LikeSearchMatchesSubstringSearch(repository.users, term);
      }
    }
  }
}
