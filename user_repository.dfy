/** The `users` table and the queries the repository declares over it.
    Every query is a function of the table; the writes `save` and
    `deleteById` belong to `UserStore`. */
module UserRepository {
  import opened Wrappers
  import opened Roles
  import opened Text
  import opened Users
  import SqlLike

  /** The table, keyed by primary key (generated keys are never negative). */
  type Store = map<nat, User>

  /** Each row carries its own key as its id. */
  predicate IdsMatchKeys(m: Store) {
    forall k :: k in m ==> m[k].id == Some(k)
  }

  /** The unique constraint on the `email` column. */
  predicate EmailsUnique(m: Store) {
    forall j, k :: j in m && k in m && m[j].email == m[k].email ==> j == k
  }

  predicate WellFormed(m: Store) {
    IdsMatchKeys(m) && EmailsUnique(m)
  }

  /** `findById`: the row with that key, if any. */
  function FindById(m: Store, id: int): (r: Option<User>)
    ensures r.Some? <==> id in m
    ensures r.Some? ==> r.value == m[id]
  {
    if id in m then Some(m[id]) else None
  }

  /** `existsById`: a row with that key is stored. */
  predicate ExistsById(m: Store, id: int) {
    id in m
  }

  /** `existsByEmail`: some row holds exactly this address. */
  predicate ExistsByEmail(m: Store, email: string) {
    exists k :: k in m && m[k].email == email
  }

  /** `findByEmail`: the one row whose address equals `email` character for
      character (so the match is case-sensitive), or nothing. */
  function FindByEmail(m: Store, email: string): (r: Option<User>)
    requires EmailsUnique(m)
    ensures r.None? <==> !ExistsByEmail(m, email)
    ensures forall k :: k in m && m[k].email == email ==> r == Some(m[k])
  {
    if ExistsByEmail(m, email) then
      var k :| k in m && m[k].email == email;
      Some(m[k])
    else
      None
  }

  /** `findAll`. */
  function FindAll(m: Store): set<User> {
    m.Values
  }

  /** The rows satisfying `p`, the shape of every derived query below. */
  function Where(m: Store, p: User -> bool): (us: set<User>)
    ensures forall u :: u in us <==> u in m.Values && p(u)
  {
    var us := set k | k in m && p(m[k]) :: m[k];
    assert forall u :: u in m.Values && p(u) ==> u in us by {
      forall u | u in m.Values && p(u)
        ensures u in us
      {
        var k :| k in m && m[k] == u;
      }
    }
    us
  }

  /** `findByRole`: the users whose role set contains `r`; a user holding
      both roles is in both answers. */
  function FindByRole(m: Store, r: Role): (us: set<User>)
    ensures forall u :: u in us <==> u in m.Values && HasRole(u, r)
  {
    Where(m, (u: User) => HasRole(u, r))
  }

  /** `findByEnabledTrue`. */
  function FindByEnabledTrue(m: Store): (us: set<User>)
    ensures forall u :: u in us <==> u in m.Values && u.enabled
  {
    Where(m, (u: User) => u.enabled)
  }

  /** `findByEnabledFalse`. */
  function FindByEnabledFalse(m: Store): (us: set<User>)
    ensures forall u :: u in us <==> u in m.Values && !u.enabled
  {
    Where(m, (u: User) => !u.enabled)
  }

  /** `countTotalUsers`: the number of rows. */
  function CountTotalUsers(m: Store): nat {
    |m|
  }

  /** The keys of the rows holding role `r`. */
  function KeysWithRole(m: Store, r: Role): set<nat> {
    set k | k in m && HasRole(m[k], r)
  }

  /** `countByRole`: the join of users with their roles, restricted to `r`,
      has one row per user holding `r`; no more than there are users. */
  function CountByRole(m: Store, r: Role): (n: nat)
    ensures n <= CountTotalUsers(m)
  {
    var ks := KeysWithRole(m, r);
    assert ks <= m.Keys;
    SubsetSize(ks, m.Keys);
    |ks|
  }

  lemma {:induction false} SubsetSize(a: set<nat>, b: set<nat>)
    requires a <= b
    ensures |a| <= |b|
    decreases b
  {
    if a != {} {
      var x :| x in a;
      SubsetSize(a - {x}, b - {x});
    }
  }

  /** Distinct keys hold distinct records, so a set of keys and the set of
      their rows have the same size. */
  lemma {:induction false} RowsOfKeysSize(m: Store, ks: set<nat>)
    requires IdsMatchKeys(m) && ks <= m.Keys
    ensures |set k | k in ks :: m[k]| == |ks|
    decreases ks
  {
    if ks != {} {
      var k :| k in ks;
      var rest := ks - {k};
      RowsOfKeysSize(m, rest);
      var rows := set j | j in rest :: m[j];
      assert (set j | j in ks :: m[j]) == rows + {m[k]};
      assert forall j :: j in rest ==> m[j] != m[k] by {
        forall j | j in rest
          ensures m[j] != m[k]
        {
          assert m[j].id == Some(j) && m[k].id == Some(k);
        }
      }
    }
  }

  /** `countTotalUsers` is the size of `findAll`'s answer. */
  lemma CountTotalIsFindAllSize(m: Store)
    requires IdsMatchKeys(m)
    ensures CountTotalUsers(m) == |FindAll(m)|
  {
    RowsOfKeysSize(m, m.Keys);
    assert (set k | k in m.Keys :: m[k]) == m.Values;
  }

  /** `countByRole(r)` is the size of `findByRole(r)`'s answer. */
  lemma CountByRoleIsFindByRoleSize(m: Store, r: Role)
    requires IdsMatchKeys(m)
    ensures CountByRole(m, r) == |FindByRole(m, r)|
  {
    var ks := KeysWithRole(m, r);
    RowsOfKeysSize(m, ks);
    assert (set k | k in ks :: m[k]) == FindByRole(m, r);
  }

  /** The enabled and the disabled users split the table: together they are
      every user, no user is in both, and their sizes add up to the count. */
  lemma EnabledPartition(m: Store)
    requires IdsMatchKeys(m)
    ensures FindByEnabledTrue(m) + FindByEnabledFalse(m) == FindAll(m)
    ensures FindByEnabledTrue(m) !! FindByEnabledFalse(m)
    ensures |FindByEnabledTrue(m)| + |FindByEnabledFalse(m)| == CountTotalUsers(m)
  {
    CountTotalIsFindAllSize(m);
  }

  /** `findByEmailContainingIgnoreCase` as written: the query lower-cases the
      address and compares it with `LIKE` against `%term%`, lower-cased, so
      any `%` or `_` inside the term acts as a wildcard. */
  function EmailLikeSearch(m: Store, term: string): (us: set<User>)
    ensures forall u :: u in us <==>
      u in m.Values && SqlLike.Like(Lower(u.email), "%" + Lower(term) + "%")
  {
    Where(m, (u: User) => SqlLike.Like(Lower(u.email), "%" + Lower(term) + "%"))
  }

  /** The search the method's name promises: users whose address contains
      the term, ignoring the case of letters. */
  function EmailSubstringSearch(m: Store, term: string): (us: set<User>)
    ensures forall u :: u in us <==> u in m.Values && Contains(Lower(u.email), Lower(term))
  {
    Where(m, (u: User) => Contains(Lower(u.email), Lower(term)))
  }

  /** For a term free of `%` and `_`, the query as written and the intended
      search give the same answer. */
  lemma LikeSearchMatchesSubstringSearch(m: Store, term: string)
    requires SqlLike.IsLiteral(Lower(term))
    ensures EmailLikeSearch(m, term) == EmailSubstringSearch(m, term)
  {
    forall u | u in m.Values
      ensures SqlLike.Like(Lower(u.email), "%" + Lower(term) + "%") <==> Contains(Lower(u.email), Lower(term))
    {
      SqlLike.LikeContains(Lower(u.email), Lower(term));
    }
  }

  /** A search for `_` over a table holding only `ab@x.io` returns that user,
      though its address contains no `_`. */
  lemma UnderscoreSearchFinding()
    ensures var m := map[1 := CreateUser("ab@x.io", "secret1").(id := Some(1))];
      EmailLikeSearch(m, "_") == m.Values && EmailSubstringSearch(m, "_") == {}
  {
    AddressWithoutUnderscore();
    UnderscoreOnSingleRow(CreateUser("ab@x.io", "secret1").(id := Some(1)));
  }

  /** On a one-row table whose address is non-empty and holds no `_`, the
      query as written returns the row and the intended search nothing. */
  lemma UnderscoreOnSingleRow(u: User)
    requires Lower(u.email) != [] && !Contains(Lower(u.email), "_")
    ensures var m: Store := map[1 := u];
      EmailLikeSearch(m, "_") == m.Values && EmailSubstringSearch(m, "_") == {}
  {
    var m: Store := map[1 := u];
    assert m.Values == {u} by {
      assert m[1] == u;
      assert forall v :: v in m.Values ==> v == u;
    }
    assert Lower("_") == "_";
    SqlLike.UnderscoreMatchesNonEmpty(Lower(u.email));
    assert EmailLikeSearch(m, "_") == {u};
  }

  /** `ab@x.io` is already lower case and holds no `_`. */
  lemma AddressWithoutUnderscore()
    ensures Lower("ab@x.io") == "ab@x.io" && !Contains("ab@x.io", "_")
  {
  }

  /** The store's write failure: the unique constraint on `email`. */
  datatype StorageError = DuplicateEmail(email: string)

  /** The key `save` writes under: the record's own id when that row exists
      (an update), otherwise the next generated key (an insert). */
  function SaveKey(m: Store, nextId: nat, u: User): nat {
    if u.id.Some? && u.id.value in m then u.id.value else nextId
  }

  /** A row other than `key` already holds `email`. */
  predicate EmailHeldByOther(m: Store, email: string, key: int) {
    exists k :: k in m && k != key && m[k].email == email
  }

  /** The table as a mutable object, with the generator of identity keys.
      Keys are handed out from 1 upward and never reused. */
  class UserStore {
    var users: Store
    var nextId: nat

    ghost predicate Valid()
      reads this
    {
      WellFormed(users) && 1 <= nextId && forall k :: k in users ==> 1 <= k < nextId
    }

    /** Neither the rows nor the key generator moved. */
    twostate predicate Unchanged()
      reads this
    {
      users == old(users) && nextId == old(nextId)
    }

    constructor ()
      ensures Valid() && users == map[] && nextId == 1
    {
      users := map[];
      nextId := 1;
    }

    /** `save`: inserts or updates by id; the unique constraint rejects a
        write that would give two rows the same address. */
    method Save(u: User) returns (r: Result<User, StorageError>)
      requires Valid()
      modifies this
      ensures Valid()
      ensures var key := SaveKey(old(users), old(nextId), u);
        if EmailHeldByOther(old(users), u.email, key) then
          r == Failure(DuplicateEmail(u.email)) && users == old(users) && nextId == old(nextId)
        else
          && r == Success(u.(id := Some(key)))
          && users == old(users)[key := r.value]
          && nextId == (if key in old(users) then old(nextId) else old(nextId) + 1)
    {
      var key := SaveKey(users, nextId, u);
      if exists k :: k in users && k != key && users[k].email == u.email {
        return Failure(DuplicateEmail(u.email));
      }
      var row := u.(id := Some(key));
      if key !in users {
        nextId := nextId + 1;
      }
      users := users[key := row];
      r := Success(row);
    }

    /** `deleteById`: removes the row if present. */
    method DeleteById(id: nat)
      requires Valid()
      modifies this
      ensures Valid()
      ensures users == old(users) - {id} && nextId == old(nextId)
    {
      users := users - {id};
    }
  }
}
