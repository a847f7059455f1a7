# Auth-App identity core in Dafny

This project models the identity core of the Auth-App backend, a Spring Boot
service. Its parts:

- the `User` account record with its roles, status flags and field
  constraints;
- the `Role` enumeration;
- the queries the `UserRepository` declares over the `users` table;
- the `UserService`, which creates, updates, deletes, looks up, counts and
  searches accounts;
- the `AuthService`, which decides a login, changes a password and checks a
  session id.

The database is an in-memory table, a map from primary key to record. The
table keeps two invariants: each row carries its own key as id, and no two
rows share an e-mail address (the unique constraint on the `email` column).
Keys are generated from 1 upward and are never reused.

Modules and files:

- `wrappers.dfy` (`Wrappers`): `Option`, `Result` and `Outcome`.
- `text.dfy` (`Text`): Java's `String.trim` and blank test, ASCII
  lower-casing, substring containment, and the decimal rendering of a
  `Long` with its inverse.
- `role.dfy` (`Roles`): the two roles, their names and display names, and
  `valueOf`.
- `user.dfy` (`Users`): the account record as a value. Role updates,
  `createUser`/`createAdmin`, id-based equality and the field constraints
  with their messages.
- `user_entity.dfy` (`UserEntities`): the mutable Java object whose role set
  and password are changed in place. Each method is proved against the
  functions of `Users`.
- `sql_like.dfy` (`SqlLike`): the SQL `LIKE` matcher with `%` and `_`.
- `user_repository.dfy` (`UserRepository`): the table, every declared query
  as a function of it, and the `UserStore` object with `save` and
  `deleteById`.
- `user_service.dfy` (`UserServices`): the service over a shared
  `UserStore`.
- `auth_service.dfy` (`AuthServices`): the login decision, the password
  change and the session checks. The clock readings and the generated
  session id are parameters.
- `scenario.dfy` (`Scenario`): an administrator and a regular account
  created on an empty table, then counted and logged in.

A thrown exception is modelled as a `Failure` (or `Fail`) carrying the error,
and the store is left exactly as it was.

## Model

All source paths are under `backend/src/main/java/com/authapp/backend/`
(main) or `backend/src/test/java/com/authapp/backend/` (tests); the cells
give the full path.

| member | source | states |
|---|---|---|
| Roles.Values | backend/src/main/java/com/authapp/backend/entity/Role.java:11-12 | there are exactly two distinct roles and every role is one of them |
| Roles.ValueOf | backend/src/test/java/com/authapp/backend/entity/RoleTest.java:48-62 | parsing succeeds exactly on a role's name and then returns the role with that name; every other string is rejected |
| Roles.ValueOfName | backend/src/main/java/com/authapp/backend/entity/Role.java:20-23 | parsing the name `toString` prints gives the role back |
| Roles.NamesDistinguishRoles | backend/src/main/java/com/authapp/backend/entity/Role.java:11-17 | no two roles share a display name or a name |
| Users.Build | backend/src/main/java/com/authapp/backend/entity/User.java:52-69 | a freshly built record has no id, no roles, the given credentials and all four status flags set |
| Users.AddRole | backend/src/main/java/com/authapp/backend/entity/User.java:84-86 | the role is held afterwards, every other role keeps its membership, and no other field changes |
| Users.RemoveRole | backend/src/main/java/com/authapp/backend/entity/User.java:88-90 | the role is not held afterwards, every other role keeps its membership, and no other field changes |
| Users.AddRoleIdempotent | backend/src/main/java/com/authapp/backend/entity/User.java:84-86 | adding a role twice equals adding it once; adding a held role changes nothing |
| Users.RemoveRoleIdempotent | backend/src/main/java/com/authapp/backend/entity/User.java:88-90 | removing a role twice equals removing it once; removing a role not held changes nothing |
| Users.CreateUser | backend/src/main/java/com/authapp/backend/entity/User.java:93-100 | the account has the given credentials, no id, roles exactly {ROLE_USER} and every status flag set |
| Users.CreateAdmin | backend/src/main/java/com/authapp/backend/entity/User.java:102-109 | the account has the given credentials, no id, roles exactly {ROLE_ADMIN} and every status flag set |
| Users.SameAccountIgnoresContents | backend/src/main/java/com/authapp/backend/entity/User.java:29-35 | equality by id is an equivalence, and changing the e-mail does not change it |
| Users.Violations | backend/src/main/java/com/authapp/backend/entity/User.java:37-46 | the validator reports no violation exactly when the address is non-blank, well-shaped and at most 100 UTF-16 code units long, and the password is non-blank and 6 to 120 code units long |
| Users.PasswordViolations | backend/src/test/java/com/authapp/backend/entity/UserTest.java:204-219 | an empty password breaks both the required and the size constraint; a short non-blank one breaks only the size constraint |
| Users.EmptyEmailViolation | backend/src/main/java/com/authapp/backend/entity/User.java:37-39 | an empty address is reported once, as required, and not also as malformed |
| UserEntities.UserEntity.Build | backend/src/main/java/com/authapp/backend/entity/User.java:52-69 | the new object denotes the record the builder gives |
| UserEntities.UserEntity.HasRole | backend/src/main/java/com/authapp/backend/entity/User.java:80-82 | the object holds a role exactly when its record does |
| UserEntities.UserEntity.AddRole | backend/src/main/java/com/authapp/backend/entity/User.java:84-86 | updating the object in place yields the record `Users.AddRole` gives |
| UserEntities.UserEntity.RemoveRole | backend/src/main/java/com/authapp/backend/entity/User.java:88-90 | updating the object in place yields the record `Users.RemoveRole` gives |
| UserEntities.UserEntity.SetPassword | backend/src/main/java/com/authapp/backend/service/AuthService.java:129 | only the password of the object changes |
| UserEntities.UserEntity.CreateUser | backend/src/main/java/com/authapp/backend/entity/User.java:93-100 | the new object denotes `Users.CreateUser`'s record |
| UserEntities.UserEntity.CreateAdmin | backend/src/main/java/com/authapp/backend/entity/User.java:102-109 | the new object denotes `Users.CreateAdmin`'s record |
| Text.Trim | backend/src/main/java/com/authapp/backend/service/AuthService.java:147 | the result is the slice of the input left after cutting the characters up to U+0020 before and after it; it neither starts nor ends with such a character, and it is empty exactly when every input character is one |
| Text.LongToStringInjective | backend/src/main/java/com/authapp/backend/service/UserService.java:101 | distinct ids render as distinct decimal strings |
| SqlLike.LikeContains | backend/src/main/java/com/authapp/backend/repository/UserRepository.java:83 | for a term without `%` or `_`, `LIKE '%' + term + '%'` holds exactly when the term occurs in the string |
| SqlLike.UnderscoreMatchesNonEmpty | backend/src/main/java/com/authapp/backend/repository/UserRepository.java:83 | `LIKE '%_%'` holds for every non-empty string |
| UserRepository.FindById | backend/src/main/java/com/authapp/backend/service/UserService.java:65 | a record is returned exactly when the key is stored, and it is that key's row |
| UserRepository.FindByEmail | backend/src/main/java/com/authapp/backend/repository/UserRepository.java:27-35 | the answer is empty exactly when no row has the address (so `existsByEmail` is presence), and otherwise it is the row whose address is equal character for character |
| UserRepository.FindByRole | backend/src/main/java/com/authapp/backend/repository/UserRepository.java:43-44 | the answer is exactly the stored users whose role set holds the role; a user with both roles is in both answers |
| UserRepository.FindByEnabledTrue | backend/src/main/java/com/authapp/backend/repository/UserRepository.java:51 | the answer is exactly the stored users that are enabled |
| UserRepository.FindByEnabledFalse | backend/src/main/java/com/authapp/backend/repository/UserRepository.java:58 | the answer is exactly the stored users that are disabled |
| UserRepository.EnabledPartition | backend/src/main/java/com/authapp/backend/repository/UserRepository.java:51-58 | the enabled and disabled answers are disjoint, together are every user, and their sizes add up to the total count |
| UserRepository.CountTotalIsFindAllSize | backend/src/main/java/com/authapp/backend/repository/UserRepository.java:65-66 | the total count equals the number of users `findAll` returns |
| UserRepository.CountByRole | backend/src/main/java/com/authapp/backend/repository/UserRepository.java:74-75 | the count for a role never exceeds the total count |
| UserRepository.CountByRoleIsFindByRoleSize | backend/src/main/java/com/authapp/backend/repository/UserRepository.java:74-75 | the count for a role equals the number of users `findByRole` returns |
| UserRepository.EmailLikeSearch | backend/src/main/java/com/authapp/backend/repository/UserRepository.java:83-84 | as written: the users whose lower-cased address matches `LIKE '%' + lower(term) + '%'` |
| UserRepository.EmailSubstringSearch | backend/src/main/java/com/authapp/backend/repository/UserRepository.java:83-84 | as intended: exactly the users whose lower-cased address contains the lower-cased term |
| UserRepository.LikeSearchMatchesSubstringSearch | backend/src/test/java/com/authapp/backend/repository/UserRepositoryTest.java:240-282 | for a term free of `%` and `_` the two searches agree |
| UserRepository.UnderscoreSearchFinding | backend/src/main/java/com/authapp/backend/repository/UserRepository.java:83-84 | searching for `_` returns a user whose address has no `_`, which the intended search does not |
| UserRepository.UserStore.constructor | backend/src/main/java/com/authapp/backend/entity/User.java:20-23 | an empty table satisfies the id and unique-address invariants |
| UserRepository.UserStore.Save | backend/src/main/java/com/authapp/backend/entity/User.java:20-40 | a write that would give two rows the same address is refused and changes nothing; otherwise the record is stored under its own id when that row exists, or under a fresh key, and the invariants hold |
| UserRepository.UserStore.DeleteById | backend/src/main/java/com/authapp/backend/service/UserService.java:121 | exactly that key's row is removed; the invariants hold |
| UserServices.ErrorMessage | backend/src/main/java/com/authapp/backend/service/UserService.java:35-37 | the service writes its own message for a taken address and a missing id, and only for those |
| UserServices.NotFoundMessageNamesId | backend/src/main/java/com/authapp/backend/service/UserService.java:101 | two "User with ID n not found" messages are equal only for the same id |
| UserServices.EmailTakenMessageNamesEmail | backend/src/main/java/com/authapp/backend/service/UserService.java:36 | two "User with email X already exists" messages are equal only for the same address |
| UserServices.UserService.CreateUser | backend/src/main/java/com/authapp/backend/service/UserService.java:32-42 | a taken address fails with `EmailTaken` and leaves the store unchanged; otherwise the record is saved, is then found by its address, a record without id raises the count by one and advances the key generator by one, and the unique-address invariant holds |
| UserServices.UserService.FindByEmail | backend/src/main/java/com/authapp/backend/service/UserService.java:50-54 | returns exactly the repository's answer |
| UserServices.UserService.FindById | backend/src/main/java/com/authapp/backend/service/UserService.java:62-66 | returns exactly the repository's answer |
| UserServices.UserService.FindAllUsers | backend/src/main/java/com/authapp/backend/service/UserService.java:73-77 | returns every stored user |
| UserServices.UserService.FindByRole | backend/src/main/java/com/authapp/backend/service/UserService.java:85-89 | returns exactly the stored users holding the role |
| UserServices.UserService.UpdateUser | backend/src/main/java/com/authapp/backend/service/UserService.java:97-107 | no id fails with `MissingId`; an id not stored fails with `UserNotFound`; otherwise that row is replaced wholesale unless another row holds the address; every failure leaves the store unchanged and the count never moves |
| UserServices.UserService.DeleteUser | backend/src/main/java/com/authapp/backend/service/UserService.java:114-123 | an id not stored fails with `UserNotFound` and removes nothing; otherwise exactly that row goes and the count drops by one; afterwards the id is not found |
| UserServices.UserService.ExistsByEmail | backend/src/main/java/com/authapp/backend/service/UserService.java:131-134 | true exactly when `findByEmail` finds a user |
| UserServices.UserService.GetTotalUserCount | backend/src/main/java/com/authapp/backend/service/UserService.java:141-144 | the number of users `findAllUsers` returns |
| UserServices.UserService.GetUserCountByRole | backend/src/main/java/com/authapp/backend/service/UserService.java:152-155 | the number of users `findByRole` returns, never more than the total |
| UserServices.UserService.SearchUsersByEmail | backend/src/main/java/com/authapp/backend/service/UserService.java:163-167 | exactly the users whose lower-cased address contains the lower-cased term; for every term without `%` or `_` this is the answer of the repository's `LIKE` query |
| AuthServices.Login | backend/src/main/java/com/authapp/backend/service/AuthService.java:33-86 | login succeeds exactly when an enabled account has the address and the password; an unknown address and a disabled account are denied as such; a success carries the row's id, address and roles and a session expiring 24 hours after `now` |
| AuthServices.DenialMessages | backend/src/main/java/com/authapp/backend/service/AuthService.java:38-66 | an unknown address and a wrong password give the same message; a disabled account and a success each have their own |
| AuthServices.DisabledRegardlessOfPassword | backend/src/main/java/com/authapp/backend/service/AuthService.java:51-66 | a disabled account is reported as disabled whatever password is given |
| AuthServices.ValidateSession | backend/src/main/java/com/authapp/backend/service/AuthService.java:145-148 | true exactly when the id is present and has a character above U+0020 |
| AuthServices.Logout | backend/src/main/java/com/authapp/backend/service/AuthService.java:154-158 | always true |
| AuthServices.ChangedPasswords | backend/src/main/java/com/authapp/backend/service/AuthService.java:107-133 | the change happens exactly when an enabled account has the address and the current password; then only that row's password changes, otherwise the table is unchanged; the invariants hold |
| AuthServices.LoginAfterPasswordChange | backend/src/main/java/com/authapp/backend/service/AuthService.java:123-130 | after a change the new password logs in, and a different old password is refused as wrong |
| AuthServices.OtherAccountsUnaffected | backend/src/main/java/com/authapp/backend/service/AuthService.java:129-130 | a change leaves every other address's login outcome as it was |
| AuthServices.AuthService.ChangePassword | backend/src/main/java/com/authapp/backend/service/AuthService.java:102-139 | the result and the new table are those `ChangedPasswords` gives, with the key generator untouched |
| Roles.DisplayName | backend/src/main/java/com/authapp/backend/entity/Role.java:11-17 | ROLE_USER displays as "User" and ROLE_ADMIN as "Administrator"; `NamesDistinguishRoles` shows no two roles share one |
| Roles.Name | backend/src/main/java/com/authapp/backend/entity/Role.java:20-23 | the constant's identifier, which `toString` returns; `ValueOfName` parses it back |
| Users.HasRole | backend/src/main/java/com/authapp/backend/entity/User.java:80-82 | membership of the role in the record's role set |
| Users.SameAccount | backend/src/main/java/com/authapp/backend/entity/User.java:29-35 | two records are equal exactly when their ids are, two absent ids included |
| UserEntities.UserEntity.Load | backend/src/main/java/com/authapp/backend/service/AuthService.java:114 | the object denotes exactly the record loaded from the table |
| Text.Utf16Length | backend/src/main/java/com/authapp/backend/entity/User.java:39-44 | the length `@Size` measures: at least one and at most two code units per character, exactly one each when all characters lie in the Basic Multilingual Plane |
| Text.Lower | backend/src/main/java/com/authapp/backend/repository/UserRepository.java:83 | same length as the input, each character lower-cased (ASCII letters only) |
| SqlLike.Like | backend/src/main/java/com/authapp/backend/repository/UserRepository.java:83 | `%` matches any run of characters, `_` any one character, every other pattern character itself; `LikeContains` and `UnderscoreMatchesNonEmpty` state what that means for `%term%` |
| UserRepository.ExistsById | backend/src/main/java/com/authapp/backend/service/UserService.java:100 | a row with that key is stored |
| UserRepository.ExistsByEmail | backend/src/main/java/com/authapp/backend/repository/UserRepository.java:35 | some row holds exactly this address; `FindByEmail` is empty exactly when it is false |
| UserRepository.FindAll | backend/src/main/java/com/authapp/backend/service/UserService.java:76 | every stored row |
| UserRepository.CountTotalUsers | backend/src/main/java/com/authapp/backend/repository/UserRepository.java:65-66 | the number of rows; `CountTotalIsFindAllSize` ties it to `findAll` |
| AuthServices.Message | backend/src/main/java/com/authapp/backend/service/AuthService.java:38-86 | "Login successful" on success, "Account is disabled" for a disabled account, "Invalid email or password" for an unknown address or a wrong password |
| Scenario.CreateBoth | backend/src/main/java/com/authapp/backend/service/UserService.java:32-42 | on an empty table, creating an administrator and then a regular account both succeed and leave exactly those two rows under distinct keys |
| Scenario.TwoAccountsFacts | backend/src/main/java/com/authapp/backend/service/AuthService.java:38-86 | in that table there are two users, one per role; a wrong password for the regular account gets "Invalid email or password", and the right one logs in with roles exactly {ROLE_USER} |

## Left out

- Bean Validation at persist and flush time is not modelled: `UserStore.Save` accepts records that break the field constraints. The constraints are stated on their own by `Users.Violations`.
- The `@Email` syntax rule belongs to the validator library and is a parameter (`emailShape`).
- `createdAt`/`updatedAt` timestamps, `hashCode`, `toString` (which omits the password) and the Lombok accessors other than `setPassword` are not modelled.
- UserServices.UserService.SearchUsersByEmail: returns the corrected substring search, not the unescaped `LIKE` query the service delegates to; on a term holding `%` or `_` the source can return more users (see Findings). Both agree on every other term.
- Query answers are sets. The order and list form of the JPA results are not modelled.
- `Text.Lower` lower-cases ASCII letters only, while the database's `LOWER` handles all of Unicode. The `LIKE` escape character is not modelled.
- Ids and counts are unbounded integers. The 64-bit `Long` limit is not reached by generated keys in practice.
- Stored keys are natural numbers, because generated identity keys start at 1. Lookups accept any integer id.
- `UserRepository.UserStore.Save` with an id whose row does not exist inserts under a fresh key, the merge behaviour of Hibernate 5. Newer Hibernate rejects such a record. `updateUser` never reaches that case, because it checks the id first.
- Transactions, rollback and concurrency are not modelled. Two concurrent `createUser` calls can both pass the `existsByEmail` check; the unique constraint modelled in `Save` is the backstop.
- JPA dirty checking is not modelled. A loaded record changes in the table only through `Save`, which is also what `changePassword` does.
- The catch-all handlers at `AuthService.java` 88-94 and 135-138 cover failures of the database itself, and no such failure is modelled. In `ChangePassword` the save cannot fail, because the address is unchanged.
- `UserServices.ErrorMessage` returns no text for `MissingId` and `Storage`: those exceptions carry messages written by Spring Data and the database driver.
- Logging, controllers, configuration, security wiring, the seeding at startup (which stores BCrypt hashes that the plaintext login comparison never matches) and the frontend are not modelled.
- Request objects are assumed to carry non-null strings, since the controller validates them; `LoginRequestDto` and `ChangePasswordRequestDto` are not part of this model. The session id passed to `validateSession` and `logout` may be absent (`Option`).
- `LocalDateTime.now()` and `UUID.randomUUID()` are parameters. Time is measured in whole seconds.

## Findings

| source | as written | input that shows it | evidently intended | confidence | as-written member | corrected member |
|---|---|---|---|---|---|---|
| backend/src/main/java/com/authapp/backend/repository/UserRepository.java:83-84 | the search term is pasted into a `LIKE` pattern unescaped, so `%` and `_` in the term act as wildcards | term `_` over a table holding only `ab@x.io` returns that user, whose address contains no `_` | a case-insensitive substring match, as the method's name and its tests say | medium; not executed | UserRepository.EmailLikeSearch, UserRepository.UnderscoreSearchFinding | UserRepository.EmailSubstringSearch |

`UserService.SearchUsersByEmail` uses the corrected search.
`UserRepository.LikeSearchMatchesSubstringSearch` shows that the two searches
agree on every term free of `%` and `_`.
