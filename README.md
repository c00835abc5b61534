# Users and sessions of a NestJS user-management API, in Dafny

This project models the user-and-session core of a NestJS user-management backend. That core is:

- a `users` table keyed by id, with a unique email, a password hash, a role (`USER` or `ADMIN`) and a nullable access token;
- the directory service over that table (`BaseService`, `UsersService`);
- login and logout (`AuthService`), which write and clear the access token;
- the token validation guard, which admits a request only when its bearer token equals the token persisted for the user;
- the authorization policy of the users controller;
- the response mapper, which never exposes the password or the token.

The table is a `seq<User>` kept in creation order. Uniqueness of ids and emails is the invariant `Valid`. The lemmas show that every write the directory makes preserves it: create, the token writes, delete, and an update whose payload email, when given, is not empty (see `Users.UpdateKeepsValid` under Left out). No lemma covers `BaseService.Update` with an arbitrary patch.

Each operation comes in two forms:

- a pure function from the old table to an `Outcome` (the result and the new table);
- a method of a class (`UsersService`, `AuthService`, `TokenValidationGuard`, `UsersController`) that changes the `rows` field in place, proved equal to that function.

Collaborators are parameters:

- bcrypt's `hash` is a `string -> string`, and `compare` is a `(string, string) -> bool`;
- `jwtService.sign` is a `Claims -> string`;
- the database's generated uuid is `newId`, and its timestamp is `now`.

The module `Sessions` proves what the pieces give together:

- after a login, only its token passes the gate;
- after a series of logins by one user, only the latest token passes, and an earlier one fails as stale;
- after logout no request passes;
- one user's login or logout leaves every other user's gate decision unchanged;
- the seeded ADMIN cannot be deleted;
- an end-to-end scenario: create, two logins, stale first token, delete, failed self-deletion.

Behaviour of the code worth knowing, which the model reproduces:

- A request whose resolved user is missing from the table fails in the guard with the directory's `NotFound`, not with an authentication error. `findOne` throws before the guard's own "not found in database" branch (token-validation.guard.ts:27-29), so that branch can never run.
- `updateAccessToken` on an absent id writes nothing and reports nothing.
- The guard takes the second space-separated piece of the header whatever the first piece says, so the scheme word is not checked (`TokenGuard.AnySchemeAccepted`).
- An `update` whose password is the empty string writes it as it is, unhashed, because the truthiness test at users.service.ts:47 skips it. The validator's minimum length normally rules this out.

## Model

| member | source | states |
|---|---|---|
| UserEntity.SeedTable | src/database/migrations/1740749720422-InitialMigration.ts:23-32 | the initial table holds exactly one user, an ADMIN without a token, and satisfies the key invariant |
| UserEntity.UniqueIds | src/common/entities/base.entity.ts:5-7 | no two rows share an id: the primary key |
| UserEntity.UniqueEmails | src/modules/users/entities/user.entity.ts:17-19 | no two rows share an email: the unique index |
| UserEntity.Valid | src/database/migrations/1740749720422-InitialMigration.ts:17-18 | the table keeps both keys: the primary key and the email index |
| Dto.ValidPaginationQuery | src/modules/users/dto/pagination-query.dto.ts:11-27 | what the validator lets through: a page of at least 1 and a limit between 1 and 50, each when given |
| Dto.PageOf | src/modules/users/dto/pagination-query.dto.ts:11-15 | the page is the query's page, or 1 when absent, and is never below 1 |
| Dto.LimitOf | src/modules/users/dto/pagination-query.dto.ts:23-28 | the limit is the query's limit, or 10 when absent, and lies in [1, 50], so the page count division is defined |
| Dto.Given | src/modules/users/users.service.ts:40 | the truthiness test on an optional string: present and not empty |
| Repository.FindById | src/common/services/base.service.ts:13 | a lookup by id succeeds exactly when some row has that id, and returns a row of the table with that id |
| Repository.FindByEmail | src/modules/users/users.service.ts:54-56 | a lookup by email succeeds exactly when some row has that email, and returns a row of the table with that email |
| Repository.FindByIdOfRow | src/common/entities/base.entity.ts:5-7 | with unique ids, looking up a row's id returns that very row |
| Repository.FindByEmailOfRow | src/modules/users/entities/user.entity.ts:17-19 | with unique emails, looking up a row's email returns that very row |
| Repository.Assign | src/common/services/base.service.ts:27 | a field update writes each of name, email, password and role that the payload gives and keeps each it leaves out, and never changes the id, the timestamps or the token; a token write changes the token only |
| Repository.UpdateWhere | src/common/services/base.service.ts:27 | the rows with the id are rewritten and every other row is kept, position by position |
| Repository.FindByIdAfterUpdate | src/common/services/base.service.ts:27-28 | after an update the id reads back as the old row with the assignment applied, and every other id reads back as before |
| Repository.FindByEmailAfterTokenUpdate | src/modules/users/users.service.ts:62-65 | a token write changes no email: an email lookup finds the same row, carrying the new token if it is the row written |
| Repository.UpdateWherePreservesIds | src/common/services/base.service.ts:27 | an update never changes a primary key |
| Repository.UpdateTokenPreservesValid | src/modules/users/users.service.ts:62-65 | writing a token keeps ids and emails unique |
| Repository.DeleteWhere | src/common/services/base.service.ts:37 | the rows left are exactly the old rows with another id, and none has the deleted id |
| Repository.FindByIdAfterDelete | src/common/services/base.service.ts:37 | after a delete the deleted id is absent and every other id reads back as before |
| Repository.DeleteWherePreservesValid | src/common/services/base.service.ts:37 | deleting keeps ids and emails unique |
| BaseService.FindOne | src/common/services/base.service.ts:12-18 | NotFound exactly when the id is absent, otherwise the row with that id |
| BaseService.Create | src/common/services/base.service.ts:20-23 | the entity is appended, reads back by its id, and every other id reads back as before |
| BaseService.FindByIdAfterAppend | src/common/services/base.service.ts:21-22 | appending a row with a fresh id changes no earlier lookup and makes the new row findable by its id |
| BaseService.Update | src/common/services/base.service.ts:25-33 | an absent id gives NotFound and writes nothing; otherwise the row is rewritten and the result is the old row with the patch applied |
| BaseService.Remove | src/common/services/base.service.ts:35-38 | an absent id gives NotFound and deletes nothing; otherwise the table keeps exactly the other rows and ids |
| Users.NewUser | src/modules/users/users.service.ts:30-34 | the new entity carries the payload's fields, the hash in place of the password, the USER role when none is given, and no token |
| Users.CreateUser | src/modules/users/users.service.ts:24-37 | a taken email gives Conflict and no write; otherwise the new row with the hashed password is appended and returned |
| Users.CreateKeepsValid | src/modules/users/users.service.ts:24-37 | a create keeps ids and emails unique, and the new email then resolves to the new row |
| Users.EmailConflictIff | src/modules/users/users.service.ts:40-45 | with unique emails, the conflict check fires exactly when another row holds the requested non-empty email |
| Users.EmailConflict | src/modules/users/users.service.ts:40-45 | the update's conflict test: a truthy email whose first holder is a different id |
| Users.HashPassword | src/modules/users/users.service.ts:47-49 | a given password is replaced by its hash; an absent or empty one leaves the payload as it is |
| Users.UpdateUser | src/modules/users/users.service.ts:39-52 | Conflict first, then NotFound, neither writing anything; otherwise the row is rewritten with the hashed payload and the updated row returned |
| Users.UpdateWithoutPasswordIgnoresHash | src/modules/users/users.service.ts:47-49 | without a password in the payload the hash function does not influence the update |
| Users.UpdateStoresPassword | src/modules/users/users.service.ts:47-51 | a successful update stores the hash of a given password, keeps the old hash when none is given, and never changes the token |
| Users.UpdateKeepsValid | src/modules/users/users.service.ts:39-52 | with a non-empty email in the payload, an update keeps ids and emails unique |
| Users.SetAccessToken | src/modules/users/users.service.ts:58-66 | the token (or null) is written to that id's row only; every other id reads back as before and uniqueness is kept |
| Users.SetAccessTokenIdempotent | src/modules/users/users.service.ts:58-66 | writing the same token twice leaves the same table as writing it once |
| Users.UsersService.FindOne | src/common/services/base.service.ts:12-18 | the method returns what `BaseService.FindOne` states for the current rows |
| Users.UsersService.FindByEmail | src/modules/users/users.service.ts:54-56 | the method returns the first row with that email |
| Users.UsersService.Create | src/modules/users/users.service.ts:24-37 | the result and the new rows are those of `CreateUser` on the old rows |
| Users.UsersService.BaseUpdate | src/common/services/base.service.ts:25-33 | the result and the new rows are those of `BaseService.Update` on the old rows |
| Users.UsersService.Update | src/modules/users/users.service.ts:39-52 | the result and the new rows are those of `UpdateUser` on the old rows |
| Users.UsersService.UpdateAccessToken | src/modules/users/users.service.ts:58-66 | the new rows are those of `SetAccessToken` on the old rows |
| Users.UsersService.Remove | src/common/services/base.service.ts:35-38 | the result and the new rows are those of `BaseService.Remove` on the old rows |
| Users.UsersService.FindAllPaginated | src/modules/users/users.service.ts:68-111 | the where clause built field by field and the page returned are those of `Pagination.FindAllPaginated` |
| Pagination.WhereClause | src/modules/users/users.service.ts:82-91 | a name or email filter is set exactly when given and non-empty, and the role filter exactly when a role is given |
| Pagination.Filter | src/modules/users/users.service.ts:93-94 | the selection holds exactly the rows that match every filter that is set |
| Pagination.Contains | src/modules/users/users.service.ts:84 | `LIKE '%sub%'` as substring containment: `sub` occurs at some position of the string |
| Pagination.Matches | src/modules/users/users.service.ts:82-91 | a row matches when it satisfies every filter that is set: name and email by substring, role exactly |
| Pagination.NewestFirst | src/modules/users/users.service.ts:97 | newest first is the creation order reversed, with the same rows |
| Pagination.Window | src/modules/users/users.service.ts:95-96 | after `skip` rows, at most `take` consecutive rows, and only rows of the input |
| Pagination.FindAndCount | src/modules/users/users.service.ts:93-98 | the count is the full selection's size, and the window is consecutive rows of the newest-first selection from `skip` on |
| Pagination.CeilDiv | src/modules/users/users.service.ts:100 | the page count is the least number whose multiple of the limit covers the total |
| Pagination.NextPageExists | src/modules/users/users.service.ts:108 | a page is below the page count exactly when it ends before the total |
| Pagination.Offset | src/modules/users/users.service.ts:80 | skip is (page - 1) * limit and never negative |
| Pagination.FindAllPaginated | src/modules/users/users.service.ts:79-110 | defaults applied; total is the full selection's size; totalPages is the ceiling of total / limit; hasPreviousPage iff page > 1; at most limit rows |
| Pagination.PageContents | src/modules/users/users.service.ts:93-103 | the page holds the selection newest first from (page - 1) * limit on: as many as fit, fewer on the last page, none past it |
| Pagination.HasNextPageIff | src/modules/users/users.service.ts:108 | hasNextPage iff page * limit < total iff the following page has rows |
| Pagination.PaginationExamples | src/modules/users/users.service.ts:100-109 | 15 rows at limit 10 give 2 pages, with next/previous flags true/false on page 1 and false/true on page 2; 0 rows on page 1 give 0 pages, no data and neither flag |
| Auth.CheckCredentials | src/modules/auth/auth.service.ts:15-27 | one failure, InvalidCredentials, for an unknown email and for a wrong password; success exactly when the email is stored and its hash accepts the password |
| Auth.CheckCredentialsOfRow | src/modules/auth/auth.service.ts:15-27 | with unique emails, a row's own email and a matching password return that row |
| Auth.UnknownEmailSkipsCompare | src/modules/auth/auth.service.ts:16-19 | for an unknown email the outcome does not depend on the comparison function |
| Auth.IssueToken | src/modules/auth/auth.service.ts:29-47 | bad credentials give InvalidCredentials and no write; otherwise the token signed over {sub, email} is written and returned with the re-read user, who carries it |
| Auth.RevokeToken | src/modules/auth/auth.service.ts:49-51 | after logout the user has no token, every other user reads back as before, and uniqueness is kept |
| Auth.RevokeTokenIdempotent | src/modules/auth/auth.service.ts:49-51 | logging out twice leaves the same table as logging out once |
| Auth.AuthService.ValidateUser | src/modules/auth/auth.service.ts:15-27 | the method returns what `CheckCredentials` states, without changing the table |
| Auth.AuthService.Login | src/modules/auth/auth.service.ts:29-47 | the result and the new rows are those of `IssueToken` on the old rows |
| Auth.AuthService.Logout | src/modules/auth/auth.service.ts:49-51 | the new rows are those of `RevokeToken` on the old rows |
| TokenGuard.Split | src/modules/auth/guards/token-validation.guard.ts:16 | splitting gives at least one piece and no piece contains the separator |
| TokenGuard.JoinSplit | src/modules/auth/guards/token-validation.guard.ts:16 | joining the pieces back gives the original header |
| TokenGuard.SplitPrefix | src/modules/auth/guards/token-validation.guard.ts:16 | a leading run without separators stays one piece, joined to the first piece of what follows it |
| TokenGuard.SplitJoin | src/modules/auth/guards/token-validation.guard.ts:16 | pieces without separators, joined and split again, are the same pieces |
| TokenGuard.BearerToken | src/modules/auth/guards/token-validation.guard.ts:16 | a token is found exactly when the header contains a space, and it holds no space |
| TokenGuard.BearerTokenOfHeader | src/modules/auth/guards/token-validation.guard.ts:16 | the guard reads back exactly the token a client put after `Bearer ` |
| TokenGuard.Gate | src/modules/auth/guards/token-validation.guard.ts:8-41 | no header is refused first; acceptance means a resolved user whose stored record has a non-empty token equal to the presented one, and the result is that record |
| TokenGuard.GateDecision | src/modules/auth/guards/token-validation.guard.ts:26-40 | for a well-formed header: NotFound for an unknown user, LoggedOut for an empty stored token, TokenMismatch for a different one, acceptance for the same one |
| TokenGuard.GateAcceptsIff | src/modules/auth/guards/token-validation.guard.ts:8-41 | for every header and request user: accepted exactly when the header is truthy, the user is stored, its stored token is non-empty and the header's second piece equals it |
| TokenGuard.AnySchemeAccepted | src/modules/auth/guards/token-validation.guard.ts:16 | any space-free word before the token is admitted, so the `Bearer` scheme is not checked |
| TokenGuard.TokenValidationGuard.CanActivate | src/modules/auth/guards/token-validation.guard.ts:8-41 | the decision is that of `Gate`; on acceptance the request's user becomes the stored record, on refusal the request is unchanged |
| Mapper.ResponseHidesSecrets | src/modules/users/mappers/user.mapper.ts:7-16 | the response does not depend on the password or the access token |
| Mapper.ToResponseDto | src/modules/users/mappers/user.mapper.ts:7-16 | the field copy of id, name, email, role and both timestamps; its properties are the three lemmas around it |
| Mapper.ResponseEqualIff | src/modules/users/mappers/user.mapper.ts:7-16 | two responses are equal exactly when the users agree on id, name, email, role and both timestamps |
| Mapper.ResponseRestoresUser | src/modules/users/mappers/user.mapper.ts:9-14 | every public field is copied unchanged: the user can be rebuilt from the response and the two secret fields |
| Mapper.ToResponseDtoArray | src/modules/users/mappers/user.mapper.ts:18-20 | same length, and element i is the mapping of user i |
| Mapper.ToResponseDtoArrayAppend | src/modules/users/mappers/user.mapper.ts:18-20 | mapping a concatenation concatenates the mappings, so order is kept |
| Controller.MapUser | src/modules/users/users.controller.ts:92 | a success is mapped, an error passes through unchanged |
| Controller.MayAccess | src/modules/users/users.controller.ts:88 | a caller may reach a record when it is an ADMIN or the record is its own |
| Controller.MaySetRole | src/modules/users/users.controller.ts:111 | only an ADMIN may send a role in an update |
| Controller.IsDemotion | src/modules/users/users.controller.ts:119-122 | an ADMIN target given the USER role |
| Controller.HandleCreate | src/modules/users/users.controller.ts:45-56 | for an ADMIN caller, the directory's create, with the created user mapped |
| Controller.HandleFindAll | src/modules/users/users.controller.ts:58-75 | for an ADMIN caller, the directory's page with each user mapped and every metadata field kept |
| Controller.HandleFindOne | src/modules/users/users.controller.ts:84-93 | Forbidden before any lookup unless the caller is an ADMIN or asks for itself; then NotFound or the mapped record |
| Controller.HandleUpdate | src/modules/users/users.controller.ts:102-130 | other user refused, then role in payload refused for non-ADMINs, then NotFound, then demotion of an ADMIN refused as Forbidden for every caller, none writing; otherwise the directory's update |
| Controller.HandleRemove | src/modules/users/users.controller.ts:139-156 | self-deletion refused before the lookup, then NotFound, then an ADMIN target refused, none deleting; otherwise the directory's remove |
| Controller.UpdateErrorChangesNothing | src/modules/users/users.controller.ts:102-130 | every refused or failed update leaves the table unchanged |
| Controller.RemoveErrorChangesNothing | src/modules/users/users.controller.ts:139-156 | every refused or failed removal leaves the table unchanged |
| Controller.NonAdminKeepsRoles | src/modules/users/users.controller.ts:107-113 | a non-ADMIN caller changes no other user's record, deletes nobody and changes no role |
| Controller.UpdateKeepsAdmins | src/modules/users/users.controller.ts:118-126 | after any update by any caller, every stored ADMIN is still stored and still an ADMIN |
| Controller.RemoveKeepsAdmins | src/modules/users/users.controller.ts:143-155 | no removal deletes an ADMIN, and no user other than the target is affected |
| Controller.AdminPromotes | src/modules/users/users.controller.ts:128 | an ADMIN promoting a USER gets the directory's update with exactly the payload sent, and the target becomes ADMIN |
| Controller.UsersController.Create | src/modules/users/users.controller.ts:45-56 | the result and the new rows are those of `HandleCreate` on the old rows |
| Controller.UsersController.FindAll | src/modules/users/users.controller.ts:58-75 | the page returned is that of `HandleFindAll` |
| Controller.UsersController.FindOne | src/modules/users/users.controller.ts:84-93 | the result is that of `HandleFindOne` |
| Controller.UsersController.Update | src/modules/users/users.controller.ts:102-130 | the result and the new rows are those of `HandleUpdate` on the old rows |
| Controller.UsersController.Remove | src/modules/users/users.controller.ts:139-156 | the result and the new rows are those of `HandleRemove` on the old rows |
| Sessions.LoginAdmitsOnlyItsToken | src/modules/auth/auth.service.ts:37-38 | after a login the gate admits the user with the new token and refuses every other token as a mismatch |
| Sessions.CredentialsSurviveTokenWrite | src/modules/users/users.service.ts:58-66 | a token write changes no credential check's outcome or user |
| Sessions.LoginSeries | src/modules/auth/auth.service.ts:29-47 | one login after another by the same credentials, each with its own signer: the tokens issued in order and the final table, never more tokens than logins |
| Sessions.SecondLoginSupersedesFirst | src/modules/auth/guards/token-validation.guard.ts:35-37 | after two logins by one user with different tokens, the first fails as a mismatch and the second passes |
| Sessions.LoginSeriesKeepsLastToken | src/modules/auth/auth.service.ts:29-47 | valid credentials stay valid through any number of logins, and the table ends holding the last token issued |
| Sessions.OnlyLatestLoginPasses | src/modules/auth/guards/token-validation.guard.ts:31-40 | after any series of logins only the latest token passes, and any other fails as a mismatch when the latest is not empty |
| Sessions.LogoutRejectsEveryRequest | src/modules/auth/guards/token-validation.guard.ts:31-33 | after logout no request of that user passes, whatever header it carries |
| Sessions.LogoutRevokesSession | src/modules/auth/guards/token-validation.guard.ts:31-33 | after logout a well-formed token of that user fails as logged out |
| Sessions.OtherSessionsUnaffected | src/modules/auth/guards/token-validation.guard.ts:26 | writing one user's token leaves every other user's gate decision unchanged |
| Sessions.OtherLoginKeepsSession | src/modules/auth/auth.service.ts:29-47 | a login by another user leaves my gate decision unchanged |
| Sessions.SeedAdminCannotBeDeleted | src/modules/users/users.controller.ts:143-153 | the seeded ADMIN cannot be deleted, by itself or by another ADMIN, and nothing is written |
| Sessions.EndToEnd | src/modules/users/users.controller.ts:45-156 | seeded ADMIN creates a USER; two logins; first token stale, second admitted; the user is deleted; the ADMIN's self-deletion is refused |

## Left out

- JWT signature and expiry checking (jwt.strategy.ts): the model starts after that first stage, with the user it resolved given to the gate as `requestUser`. The strategy's own `findOne` is not modelled.
- bcrypt and `jwtService.sign`: modelled as uninterpreted function parameters, with nothing assumed about collisions; the cost factor 10 is not modelled.
- SQL `LIKE` wildcards and collation: the name and email filters are plain substring containment, so `%` and `_` inside a filter are not wildcards here.
- Collation of email equality: the model compares emails as exact strings, in `Repository.FindByEmail` and in the unique index `UniqueEmails`. The database compares them under the column's collation, which the migration leaves at the server default and which is usually case-insensitive. So `A@x.com` and `a@x.com` conflict at create and match at login in the database, but not in the model. The same holds for ids: `Repository.FindById` compares exactly, while `WHERE id = ?` uses the column collation.
- Auth.IssueToken, Auth.RevokeToken, Auth.CheckCredentials and BaseService.Remove: a rejected promise from a collaborator is not modelled. bcrypt's `hash` and `compare`, `jwtService.sign` and the database calls in login, logout and delete (`updateAccessToken`, the re-read `findOne`, `delete`) are total functions here, so their errors, which the service then propagates, have no counterpart.
- Ordering by `created_at DESC`: modelled as the reverse of insertion order, which equals creation order for rows the directory creates.
- The database's `ON UPDATE` refresh of `updated_at`: not modelled; an update keeps both timestamps.
- `BaseService.findAll` (base.service.ts:8-10): no caller in the core uses it.
- src/modules/users/repositories/user.repository.ts duplicates `updateAccessToken` and is not part of this model.
- RolesGuard and the `@Roles(ADMIN)` decorator: modelled only as the precondition `caller.role == ADMIN` on create, findAll and remove.
- Concurrency: requests are modelled as a sequential interleaving, so two logins racing at the store are two logins in some order.
- An update with an empty payload: the database still refreshes `updated_at` (base.entity.ts:13), which is not modelled, so the model changes nothing and returns the row as it was.
- The guard's "not found in database" branch (token-validation.guard.ts:27-29) cannot run, because `findOne` already throws NotFound, so it has no counterpart.
- Uuid generation: `newId` is a parameter and is required to be fresh, as a generated uuid is.
- Users.UpdateKeepsValid: requires a non-empty email in the payload. An empty email skips the conflict check and would be written as it is, which the validator's `@IsEmail` rules out.
- auth.controller.ts, users.module.ts, the logger, the database module and the remaining DTOs: transport glue, I/O and shape declarations. Their fields are used only as datatype shapes.
