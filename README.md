# User management and authentication: a Dafny model

This project models the authentication and user-management core of a NestJS
identity service and proves properties of the model. It covers:

- the user repository, a store of user rows with `create`, `findOneById`,
  `findOneByEmailOrUsername`, `findByConflict`, `findFirst`, `findMany`,
  `count`, `update` and `delete`;
- the user command service (`create`, `update`, `updateStatus`, `remove`) and
  its existence and conflict checks;
- the user query service (`findOneById`, `findOneWithPassword`, `findAll` with
  its filter, offset, sort key and page count), and the validated listing query;
- the auth service: `register`, `validateUser`, `login`, and the
  forgot-password / reset-password flow;
- the local (identifier and password) and JWT strategies;
- the role guard's decision.

The store is a class `Repository.UsersRepository` whose field `users` is the
sequence of rows in the store's natural order. A sequence rather than a map is
used because `findFirst` and `findMany` return rows in that order. The only
store invariant is the primary key: ids are unique (`Valid`). The services are
classes that hold the one shared repository as a constant field. Their
state-changing methods say, in `ensures`, exactly what the new sequence of
rows is, stated through the pure store functions of `UserStore` (`UpdateAt`,
`RemoveId`, `First`, `Filter`, `Page`). The lemmas are stated over those
functions.

bcrypt, SHA-256 and JWT signing are values of the datatype `Crypto.Crypto`
and a signing function, which are injected into the services. Where a lemma
needs more, it assumes `Crypto.Sound` as a hypothesis:

- a bcrypt hash verifies against its own plaintext;
- SHA-256 digests of different secrets differ.

The random inputs are explicit parameters: the bcrypt salt, the reset secret
and the new row id. So is the current time `now`, in milliseconds.

`Scenarios` walks the flows through on small stores, with asserted outcomes at each step:

- registering a duplicate username is refused;
- a wrong reset guess is refused;
- a reset secret is redeemed once, and refused the second time.

Four behaviours of the code a reader may not expect, all modelled as written:

- An empty list of required roles denies every request, because `[].some(...)`
  is false. The role test is substring containment (`user.role?.includes(r)`),
  not membership.
- On `create`, the email is looked up first, then the username, each against
  both columns. Either hit raises the same Conflict, so no field is reported.
- An unknown or expired reset secret raises UnprocessableEntity.
- Identifiers are compared exactly, as the repository's `where` objects do. No
  case folding is applied.

## Model

| member | source | states |
|---|---|---|
| Strings.IncludesAt | src/auth/guards/role.guard.ts:27 | `includes` holds iff the needle occurs at some offset of the string |
| Strings.IncludesSelf | src/auth/guards/role.guard.ts:27 | a string includes itself and the empty string |
| Strings.IncludesNotLonger | src/auth/guards/role.guard.ts:27 | a string never includes a longer needle |
| Strings.Lower | src/users/services/users-query.service.ts:30-31 | case folding keeps the length (the basis of `mode: 'insensitive'`) |
| Strings.Split | src/users/services/users-query.service.ts:38 | `split('_')` gives at least one part, no part contains the separator, and joining the parts gives the input back |
| Strings.SplitJoin | src/users/services/users-query.service.ts:38 | splitting a join of separator-free parts gives those parts back |
| Strings.SplitNoSep | src/users/services/users-query.service.ts:38 | a string without the separator splits into itself alone |
| Strings.SplitPrefix | src/users/services/users-query.service.ts:38 | a separator-free prefix and the separator split off as the first part |
| Strings.Includes | src/auth/guards/role.guard.ts:27 | JavaScript `includes` on strings: the needle is a prefix of the string or of one of its suffixes |
| Strings.IncludesInsensitive | src/users/services/users-query.service.ts:30-31 | `contains` with `mode: 'insensitive'`: `includes` after lower-casing both sides |
| UserStore.Holds | src/users/users.repository.ts:17-37 | the meaning of a store `where` object on one row: equality on a column, case-insensitive containment, the reset expiry `gt`, and `OR`, `NOT` and several keys combined as and |
| UserStore.WithoutPassword | src/users/services/users-query.service.ts:15 | `const { password, ...result } = user`: every column except the password |
| UserStore.NewRecord | src/users/users.repository.ts:9-11 | the row `create` stores: the given id, username, email and password hash, the default role, active, and no reset columns |
| UserStore.Apply | src/users/users.repository.ts:59-64 | an update's data on one row: each column given is set, every other column, and the id and role, are kept |
| Repository.Conflicts | src/users/users.repository.ts:30-35 | the conflict probe on one row: email or username equal, and a different id when a truthy id is excluded |
| QueryUserDto.Valid | src/users/dto/query-user.dto.ts:13-40 | the validated query: page an integer >= 1, limit in [1, 100], search non-empty, isActive one of "true", "false", "1", "0", and sortBy one of the four sort options, each only when present |
| UsersQuery.Offset | src/users/services/users-query.service.ts:25 | `skip = (page - 1) * limit` |
| UsersQuery.WhereOf | src/users/services/users-query.service.ts:27-36 | the where object `findAll` ends with, as one expression |
| UsersQuery.Selected | src/users/services/users-query.service.ts:27-36 | a row is listed iff the search, when truthy, occurs case-insensitively in its username or email, and its active flag equals `isActive === 'true'` when `isActive` is present |
| UsersQuery.Selection | src/users/services/users-query.service.ts:44-47 | the listed rows, in store order |
| UsersCommand.BlocksCreate | src/users/services/users-command.service.ts:20-22 | a row blocks `create` when the new email or the new username equals its email or its username |
| UsersCommand.ChecksConflict | src/users/services/users-command.service.ts:49 | `update` probes for conflicts only when the username or the email is truthy |
| UsersCommand.BlocksUpdate | src/users/services/users-command.service.ts:49-54 | the update probe with `username ?? ''`, `email ?? ''` and the target id excluded |
| UsersCommand.ProfileUpdate | src/users/services/users-command.service.ts:60 | `update` writes the supplied username and email and nothing else |
| UsersCommand.StatusUpdate | src/users/services/users-command.service.ts:74-76 | `updateStatus` writes `isActive` and nothing else |
| UsersCommand.ColumnsUnique | src/users/services/users-command.service.ts:49-57 | no two rows share an email, and no two share a username |
| UsersCommand.IdentifiersDisjoint | src/users/services/users-command.service.ts:20-25 | no value is the email or username of two different rows |
| RolesGuard.RouteRoles | src/users/users.controller.ts:36-48 | the roles metadata of each user route: ADMIN on the listing only |
| Auth.Claims | src/auth/auth.service.ts:58-63 | the login payload `{sub: id, username, email, role}` |
| Auth.IssueReset | src/auth/auth.service.ts:93-96 | `forgotPassword` writes the digest and the expiry and nothing else |
| Auth.RedeemReset | src/auth/auth.service.ts:132-136 | `resetPassword` writes the new hash and clears both reset columns, and nothing else |
| Auth.ResetWhere | src/auth/auth.service.ts:117-122 | the reset lookup's where object: digest equal and expiry `gt` now |
| Auth.Redeemable | src/auth/auth.service.ts:118-121 | a row redeems a digest at `now` iff it holds that digest and an expiry strictly after `now` |
| UserStore.First | src/users/users.repository.ts:39-43 | `findFirst` is null iff no row satisfies the where; otherwise it is the earliest row that does |
| UserStore.FirstById | src/users/users.repository.ts:13-15 | with unique ids, the id lookup finds exactly the row with that id |
| UserStore.Filter | src/users/users.repository.ts:55-57 | the rows satisfying a where: exactly those rows, and never more than the store holds |
| UserStore.Page | src/users/users.repository.ts:45-53 | `skip`/`take`: at most `take` elements, exactly `min(take, n - skip)` of them, element k being element `skip + k` |
| UserStore.UpdateAt | src/users/users.repository.ts:59-64 | an update changes the row with that id, by the given columns, and no other row |
| UserStore.RemoveId | src/users/users.repository.ts:66-68 | a delete keeps exactly the rows with another id |
| UserStore.UpdateAtKeepsIds | src/users/users.repository.ts:59-64 | an update keeps ids unique and keeps the set of ids |
| UserStore.RemoveIdExact | src/users/users.repository.ts:66-68 | with unique ids, deleting a stored id removes that one row and keeps the others in order |
| UserStore.DropKeepsIds | src/users/users.repository.ts:66-68 | removing one row keeps ids unique |
| UserStore.RemoveIdAbsent | src/users/users.repository.ts:66-68 | deleting an id no row carries changes nothing |
| UserStore.AppendKeepsIds | src/users/users.repository.ts:9-11 | appending a row with a fresh id keeps ids unique |
| Repository.UsersRepository.Create | src/users/users.repository.ts:9-11 | `create` appends exactly one row, built from the data with the schema's default role and active flag |
| Repository.UsersRepository.FindOneById | src/users/users.repository.ts:13-15 | null iff no row has the id; otherwise a stored row with that id |
| Repository.UsersRepository.FindOneByEmailOrUsername | src/users/users.repository.ts:17-23 | null iff no row has the identifier as email or username; otherwise a stored row that does |
| Repository.UsersRepository.FindByConflict | src/users/users.repository.ts:25-37 | a row whose email or username matches, with a different id when the excluded id is non-empty; null iff there is none |
| Repository.UsersRepository.FindFirst | src/users/users.repository.ts:39-43 | null iff no row satisfies the where; otherwise a stored row that does |
| Repository.UsersRepository.FindMany | src/users/users.repository.ts:45-53 | at most `take` matching rows, exactly the matching rows from position `skip` on |
| Repository.UsersRepository.Count | src/users/users.repository.ts:55-57 | the number of matching rows; zero iff no row matches |
| Repository.UsersRepository.Update | src/users/users.repository.ts:59-64 | an unknown id fails and changes nothing; otherwise only that row changes, by the given columns, and is returned |
| Repository.UsersRepository.Delete | src/users/users.repository.ts:66-68 | an unknown id fails and changes nothing; otherwise exactly that row is removed and returned |
| QueryUserDto.WithDefaults | src/users/dto/query-user.dto.ts:13-40 | a missing page, limit or sortBy takes its default (1, 10, `createdAt_desc`), the rest is kept, and validity is preserved |
| QueryUserDto.ValidBounds | src/users/dto/query-user.dto.ts:14-25 | for a valid query, page >= 1 and 1 <= limit <= 100, defaults included, so the offset is never negative |
| UsersQuery.UsersQueryService.FindOneById | src/users/services/users-query.service.ts:10-17 | NotFound(id) iff no row has the id; otherwise that row without its password |
| UsersQuery.UsersQueryService.FindOneWithPassword | src/users/services/users-query.service.ts:19-21 | the repository's identifier lookup, password included |
| UsersQuery.UsersQueryService.FindAll | src/users/services/users-query.service.ts:23-63 | the listing is page `page` of the selected rows: meta echoes page and limit, `total` counts every selected row, `lastPage` is the ceiling of total/limit, and `data` is at most `limit` rows from offset `(page-1)*limit`, without passwords |
| UsersQuery.UsersQueryService.FetchPage | src/users/services/users-query.service.ts:25-61 | the same listing, once the page, limit and sort order are fixed |
| UsersQuery.BuildWhere | src/users/services/users-query.service.ts:27-36 | the where object built step by step selects a row iff the search (when non-empty) occurs case-insensitively in username or email, and `isActive` (when present) equals `value === 'true'` |
| UsersQuery.WhereMeansSelected | src/users/services/users-query.service.ts:27-36 | the assembled where object means exactly `Selected` |
| UsersQuery.FilterIsSelection | src/users/services/users-query.service.ts:44-47 | filtering by a where that means `Selected` gives the selection, in store order |
| UsersQuery.SortKey | src/users/services/users-query.service.ts:38-42 | an allowed or defaulted sortBy splits into a column in {createdAt, username} and a direction in {asc, desc} that join back to it |
| UsersQuery.SortOptionsSplit | src/users/dto/query-user.dto.ts:38 | each of the four allowed sort options splits into exactly two parts, a column and a direction |
| UsersQuery.CeilDiv | src/users/services/users-query.service.ts:60 | `Math.ceil(total / limit)`: the least page count whose pages hold every row |
| UsersQuery.CeilDivBounds | src/users/services/users-query.service.ts:60 | integer ceiling division bounds |
| UsersQuery.OneSelectsInactive | src/users/services/users-query.service.ts:34-36 | `isActive = "1"` passes validation but selects exactly the inactive users |
| UsersCommand.UsersCommandService.Create | src/users/services/users-command.service.ts:17-37 | Conflict, store unchanged, iff some row has the new email or the new username in either column; otherwise one row is appended with the bcrypt hash of the password, and returned without it |
| UsersCommand.UsersCommandService.Update | src/users/services/users-command.service.ts:39-63 | NotFound for an unknown id; Conflict when a truthy username or email is supplied and another row matches the probe (`username ?? ''`, `email ?? ''`, own id excluded); otherwise only the supplied fields of that row change |
| UsersCommand.UsersCommandService.UpdateStatus | src/users/services/users-command.service.ts:65-79 | NotFound, store unchanged, iff the id is unknown; otherwise only `isActive` of that row changes |
| UsersCommand.UsersCommandService.Remove | src/users/services/users-command.service.ts:81-87 | NotFound, store unchanged, iff the id is unknown; otherwise exactly that row is removed |
| UsersCommand.CreateKeepsIdentifiersDisjoint | src/users/services/users-command.service.ts:20-25 | a create that passes its cross-column check keeps every login identifier naming at most one row |
| UsersCommand.UpdateKeepsColumnsUnique | src/users/services/users-command.service.ts:49-57 | an update that passes its check, with non-empty values, keeps emails unique and usernames unique |
| UsersCommand.UpdateCanShareIdentifierAcrossColumns | src/users/services/users-command.service.ts:49-57 | the update check is within columns: one user can take another's email as username |
| UsersCommand.EmptyUsernameSkipsConflictCheck | src/users/services/users-command.service.ts:49 | an empty username is falsy, so the check is skipped and the write reaches the store unchecked |
| RolesGuard.RequiredRoles | src/auth/guards/role.guard.ts:12-15 | the handler's roles metadata when it has any, otherwise the controller's |
| RolesGuard.SomeRoleIncluded | src/auth/guards/role.guard.ts:27 | true iff the user has a role and it includes some required role |
| RolesGuard.CanActivate | src/auth/guards/role.guard.ts:10-28 | allow iff no roles are required, or the user's role includes one of the required roles |
| RolesGuard.EmptyRolesDeny | src/auth/guards/role.guard.ts:27 | an empty required list denies every user |
| RolesGuard.MissingRoleDenied | src/auth/guards/role.guard.ts:27 | a user without a role is denied whenever roles are required |
| RolesGuard.PermutationInvariant | src/auth/guards/role.guard.ts:27 | the decision does not depend on the order of the required roles |
| RolesGuard.Monotone | src/auth/guards/role.guard.ts:27 | adding required roles never turns allow into deny |
| RolesGuard.ExactRoleAllowed | src/auth/guards/role.guard.ts:27 | a role listed among the required roles is allowed |
| RolesGuard.AdminRouteDecisions | src/auth/guards/role.guard.ts:27 | ADMIN passes an ADMIN route and USER does not, and the reverse for a USER route |
| RolesGuard.AdminDoesNotIncludeUser | src/auth/guards/role.guard.ts:27 | "ADMIN" does not include "USER" |
| RolesGuard.OnlyListingIsAdminOnly | src/users/users.controller.ts:36-48 | only the user listing needs ADMIN; every other user route passes any authenticated user |
| Jwt.Configure | src/auth/strategies/jwt.strategy.ts:20-28 | start-up fails iff the secret is missing or empty; otherwise tokens come from the bearer header, expiry is enforced, and the secret is the key |
| Jwt.JwtStrategy.Validate | src/auth/strategies/jwt.strategy.ts:38-50 | NotFound(sub) iff no row has the subject id; Unauthorized iff that row is inactive; otherwise that row as stored now, without its password |
| Auth.ResetWhereMeansRedeemable | src/auth/auth.service.ts:117-122 | the reset lookup matches a row iff it holds the digest and an expiry strictly after `now` |
| Auth.AuthService.Register | src/auth/auth.service.ts:32-36 | exactly the command service's create |
| Auth.AuthService.ValidateUser | src/auth/auth.service.ts:42-52 | the user without its password iff a row matches the identifier and the password verifies against its hash; null otherwise |
| Auth.AuthService.Login | src/auth/auth.service.ts:57-67 | the token is signed over claims {sub: id, username, email, role} of the user |
| Auth.AuthService.ForgotPassword | src/auth/auth.service.ts:73-106 | always the same message; for an unknown identifier the store is unchanged; otherwise only that row's reset digest and expiry (now + 900000 ms) change |
| Auth.AuthService.ResetPassword | src/auth/auth.service.ts:111-139 | UnprocessableEntity, store unchanged, iff no row holds the digest of the token with an expiry after `now`; otherwise only the first such row changes: new password hash, reset columns cleared |
| Auth.IssuedSecretWindow | src/auth/auth.service.ts:86-122 | an issued secret redeems for its row exactly while `later < now + 900000`; at the expiry and after, nothing matches |
| Auth.RedeemedSecretIsSpent | src/auth/auth.service.ts:130-136 | after a redemption the row holds the new hash and no reset columns, and the same secret matches nothing |
| Auth.ReissueOverwrites | src/auth/auth.service.ts:93-96 | a second forgot-password replaces the first secret and expiry |
| Auth.OnlyIssuedSecretRedeems | src/auth/auth.service.ts:115-122 | with a collision-free digest, no other secret redeems against the row |
| Auth.ResetThenLogin | src/auth/auth.service.ts:130-136 | after a reset, the new password logs the user in by email |
| Auth.LoginClaimsValidate | src/auth/auth.service.ts:57-67 | the claims signed at login validate back to the same stored active user |
| Auth.ClaimedRoleIsIgnored | src/auth/strategies/jwt.strategy.ts:38-50 | a token claiming ADMIN for a USER row validates with role USER |
| Auth.DeactivatedUserRefused | src/auth/strategies/jwt.strategy.ts:42-46 | a deactivated user's token is refused with Unauthorized |
| LocalStrategy.LocalStrategy.Validate | src/auth/strategies/local.strategy.ts:20-29 | Unauthorized(invalid credentials) iff validateUser gives null; otherwise exactly its result |
| LocalStrategy.UnknownAndWrongPasswordLookAlike | src/auth/auth.service.ts:46-51 | an unknown identifier and a wrong password fail with the same error |

## Left out

- bcrypt, SHA-256, `randomBytes` and JWT signing are injected functions. Token signature and expiry checking is library behaviour. The only properties assumed are those in `Crypto.Sound`, and only as lemma hypotheses.
- The clock and the random values are parameters: `now`, the salt, the reset secret and the new id.
- Repository.UsersRepository.FindMany: `orderBy` is accepted but not applied. Rows come in store order, because the ordering is database behaviour.
- UsersQuery.UsersQueryService.FindAll: the page is cut from the selection in store order, not in `sortBy` order, so for a sorted listing the model can put different users on a page. Only the sort key computed from `sortBy` is modelled.
- UsersQuery.UsersQueryService.FetchPage: the same as `FindAll`, the page is cut from the selection in store order, not in `sortBy` order.
- The modelled row has no `createdAt` or `updatedAt` columns, which the store keeps and the source's password-free results carry. This is why the `sortBy` order, which sorts by `createdAt` or `username`, is not applied.
- Numbers are unbounded integers. In the code `page`, `limit`, `skip` and the counts are JavaScript doubles, and `page` has no upper bound, so `skip = (page - 1) * limit` is exact only below 2^53. `lastPage` is `Math.ceil` of a floating-point quotient; the model uses integer ceiling division, which agrees with it while the operands are exact.
- The database assigns ids and applies the schema's defaults for role and active flag. These defaults are constants (`USER`, active). The store's unique constraints on email and username are not modelled, so a write that they would refuse (as after `UsersCommand.EmptyUsernameSkipsConflictCheck`) succeeds in the model; the service's own checks are modelled.
- `mode: 'insensitive'` is modelled as ASCII lower-casing. Unicode case folding is not modelled.
- `async` and `Promise.all` are sequential.
- Logging, including the plaintext reset secret being logged, is not modelled. Translated messages are abstract message values.
- The HTTP controllers, the other DTO validators, the Prisma service and bootstrap are not part of this model. The route-to-roles table is a constant.
- The guard's request is assumed to carry a user, as the JWT guard runs first. Only that user's optional role is an input.
- A row that the repository's `update` cannot find is not possible in the services, because they check the id first. A delete or update racing between that check and the write is not modelled.
