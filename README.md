# node-star user management, modelled in Dafny

This project models the request handlers at the core of node-star, a user-management
REST backend:

- registration, login, forgot-password and reset-password;
- the administrator's listing query, with its filters, pagination and export gate;
- the administrator's single-record operations;
- the profile self-service handlers;
- the bearer-token middleware, the ACL middleware and the static permission table;
- the validation-error fold and the terminal error handler.

The database is a `Store.UserStore` object. It holds a map from id to `User` record and
the next auto-increment id. Its `Valid()` invariant covers three things: each record is
stored under its own id, emails are unique, and every id is below the counter. Every
handler that writes is a method on that store. Each such method states its whole
outcome: the reply, and the new map in terms of the old one. From that, the invariants
the handlers keep follow:

- email uniqueness;
- reset token and expiry being set and cleared together;
- every stored role being a configured one.

Pure parts are functions with lemmas about them:

- the query defaults, the where-clause, skip/take and the page count;
- the header parsing and the ACL decision;
- the permission table;
- the error fold.

Collaborators enter as parameters (`Config.Env` and explicit arguments):

- bcrypt: `hash` is uninterpreted, and `compare` is "the digest is the hash of the plain text";
- Joi's email syntax check;
- `jwt.sign` and `jwt.verify`;
- the configured default role and the role list;
- `uuid` (a `freshToken` argument);
- the clock (`now`, in milliseconds);
- the permission service's answer.

Joi is modelled as far as the handlers use it (module `Joi`). Its details come in schema
order, and the unknown keys come last, with Joi's default messages.

A handler's result is a `Http.Reply`: a response it writes itself, or the error it passes
to `next`. `ErrorHandler.HandleError` turns such an error into the final response.

Behaviours of the code worth knowing, all of them modelled as written:

- `register` sends back the whole stored record, password digest included
  (src/controllers/authController.js:35). So do `getUserById`, `createUser`,
  `updateUser`, `setActiveStatus` and the administrator's `changePassword`.
- `login` answers only `{ token }` (src/controllers/authController.js:77), with no
  profile projection.
- `register` does not consult any registration-enabled flag. `allowRegistration` in
  src/config/config.js is never read.
- `sortBy` is passed to the database unchecked. A name that is not a column is refused
  there, and the caller gets a 500.
- `updateProfile` and the profile `changePassword` discard the result of their
  validation.
- The terminal handler sends an unexpected error's own message to the caller
  (src/utils/errorHandler.js:18).

## Model

| member | source | states |
|---|---|---|
| Strings.Split | src/middleware/auth.js:7 | `split(' ')` yields at least one piece, and no piece contains the separator |
| Strings.Utf16Length | src/controllers/authController.js:15 | JavaScript's `length`: between the number of characters and twice it, and equal to it exactly when no character lies outside the Basic Multilingual Plane |
| Strings.Utf16Append | src/controllers/authController.js:15 | the UTF-16 length of a concatenation is the sum of the lengths |
| Common.Lookup | src/controllers/authController.js:23 | a body member is found exactly when some member has that key, and its value is that of the last member with the key, as JSON.parse keeps it |
| Joi.OnlyMessage | src/controllers/userController.js:127 | the message for a value outside `.valid(...)` reads `must be [v]` for a single allowed value and `must be one of [..]` otherwise |
| Joi.ValidateAccepts | src/utils/validation.js:2 | Joi reports nothing exactly when every declared key conforms to its type, rules and allowed values, and no undeclared key is present |
| Joi.AcceptedField | src/utils/validation.js:2 | in an accepted body, each declared key's value conforms |
| Joi.AcceptedString | src/utils/validation.js:2 | in an accepted body, a required string key is present, and a present one is a non-empty string passing all of its rules |
| Joi.AcceptedAllowed | src/utils/validation.js:2 | in an accepted body, a present key with an allowed-values list is a string from that list |
| Joi.MinLengthCountsCodeUnits | src/controllers/authController.js:15 | `min(6)` compares JavaScript's UTF-16 length: three emoji (three characters, six code units) pass, five letters do not, six do |
| Joi.UndeclaredRejected | src/utils/validation.js:2 | a member the schema does not name makes the body rejected |
| Validation.ErrorMapKeys | src/utils/validation.js:4-8 | the error object's keys are exactly the details' `context.key` values |
| Validation.ErrorMapLastWins | src/utils/validation.js:4-6 | for a repeated key, the message of the last detail with it is kept |
| Validation.ErrorMapOrigin | src/utils/validation.js:5 | every message in the object is the message of some detail with that key |
| Validation.CollectErrors | src/utils/validation.js:4-7 | the detail-by-detail loop builds exactly the fold `ErrorMap` |
| Validation.ValidateRequest | src/utils/validation.js:1-11 | null exactly when Joi reports no detail, otherwise the folded key-to-message object |
| ErrorHandler.FallbackStatus | src/utils/errorHandler.js:17 | `statusCode` when truthy, otherwise 500; never 0 |
| ErrorHandler.FallbackMessage | src/utils/errorHandler.js:18 | the error's message when non-empty, otherwise 'Internal Server Error' |
| ErrorHandler.HandleError | src/utils/errorHandler.js:4-21 | one `{errors}` response: an HttpError keeps its status and message, a Joi error gives 400 with the last-wins key map, anything else gives the fallback status and message |
| Permissions.FiveNames | src/config/permissions.js:1-7 | the table defines exactly five permission names |
| Permissions.UsersRead | src/config/permissions.js:2 | 'users.read' is held by exactly admin and user |
| Permissions.UsersWriteDelete | src/config/permissions.js:3-4 | 'users.write' and 'users.delete' are held by admin only |
| Permissions.AuthLogin | src/config/permissions.js:5 | 'auth.login' is held by guest, user and admin |
| Permissions.AuthRegister | src/config/permissions.js:6 | 'auth.register' is held by guest only, not admin |
| Permissions.ExportHasNoEntry | src/config/permissions.js:1-7 | 'users.export' has no entry, so no role holds it |
| Acl.Authorize | src/middleware/acl.js:4-21 | fail closed: `next()` exactly when there is a user with a role and the service answers true; every error is a 403 or a 500 |
| Acl.NoRoleNotConsulted | src/middleware/acl.js:6-8 | without a user or a role, the answer is 403 'User role not found', whatever the service would say |
| Acl.DeniedOrFailed | src/middleware/acl.js:11-20 | a false answer gives 403 'Insufficient permissions', and an exception gives 500 'Error checking permissions' |
| Acl.TableBacked | src/middleware/acl.js:11-17 | backed by the permission table, a request passes exactly when the table grants the role; a name without an entry passes nobody |
| AuthMiddleware.BearerToken | src/middleware/auth.js:7-10 | a token is exactly the second space-separated piece of a present header, when there is one and it is non-empty; it holds no space |
| AuthMiddleware.StoredClaim | src/middleware/auth.js:12-14 | the id is the claim the header's token verifies to and a stored record's key; a token verifying to a stored id always yields it |
| AuthMiddleware.Authenticate | src/middleware/auth.js:6-22 | every refusal is the same 401 'Unauthorized'; a request passes exactly when its token verifies to a stored id, and then carries that stored record |
| AuthMiddleware.AnyScheme | src/middleware/auth.js:7 | the scheme word is never checked |
| AuthMiddleware.ExtraPiecesIgnored | src/middleware/auth.js:7 | pieces after the second are ignored |
| AuthMiddleware.NoSpaceNoToken | src/middleware/auth.js:7-10 | an absent header, or one without a space, has no token |
| AuthMiddleware.DoubleSpaceNoToken | src/middleware/auth.js:7-9 | a double space leaves an empty second piece, which counts as missing |
| AuthMiddleware.SpacedHeader | src/middleware/auth.js:7-9 | a header with a space has a second piece, and the token is that piece exactly when it is non-empty |
| AuthMiddleware.TrailingSpaceNoToken | src/middleware/auth.js:7-9 | a header ending in its only space (`Bearer `) leaves an empty second piece: no token |
| AuthMiddleware.NoTokenNotConsulted | src/middleware/auth.js:8-10 | without a token, the answer is 401 whatever the token service and the store hold |
| Records.ProfileHidesSecrets | src/controllers/profileController.js:11-19 | the profile projection carries no password, reset field or lastLogin |
| Records.SummaryHidesSecrets | src/controllers/userController.js:41-48 | the listing row carries no password or reset field |
| Store.Thrown | src/controllers/userController.js:149 | an uncaught database error reaches the error handler with no status code and a non-empty message |
| Store.UserStore.FindUniqueByEmail | src/controllers/authController.js:58 | finds the record holding the email, or none exactly when no record holds it |
| Store.UserStore.FindUniqueById | src/controllers/profileController.js:82 | finds the record with the id, or none exactly when there is none |
| Store.UserStore.FindFirstResetHolder | src/controllers/authController.js:134-139 | finds a record whose token matches and whose expiry is strictly after now, or none exactly when there is none |
| Store.UserStore.Create | src/controllers/userController.js:138-143 | P2002 on a taken email, with nothing changed; otherwise the record is inserted under the counter's value, which was no stored id, and the counter goes up by one; uniqueness is kept (assuming a refused insert uses up no counter value; see Left out) |
| Store.InsertKeepsInvariants | src/controllers/authController.js:27-34 | inserting a fresh record keeps every record's reset token and expiry paired, and keeps roles within the configured list when the new role is in it |
| Store.UserStore.Update | src/controllers/userController.js:167-172 | P2025 for a missing id, P2002 for an email another record holds, otherwise only that record changes, to the patched one; the id counter is unchanged |
| Store.UserStore.Delete | src/controllers/userController.js:186 | P2025 for a missing id, otherwise exactly that record is removed; the id counter is unchanged, so the id is not reissued |
| Store.DeleteThenCreate | src/controllers/userController.js:186 | a record inserted after a delete never gets the deleted record's id, nor any id stored before |
| AuthController.RegisterAccepts | src/controllers/authController.js:12-23 | an accepted body has a non-empty name, a valid email, a password of at least six UTF-16 code units (JavaScript's `length`) and no `role` member |
| AuthController.RegisterRefuses | src/controllers/authController.js:12-21 | a missing name, an invalid email or a password under six UTF-16 code units is a 400 |
| AuthController.Register | src/controllers/authController.js:11-42 | 400 with Joi's messages and no change; 400 `{email:'Email already exists'}` and no change; or 201 with the inserted record, whose role is the configured default and whose password is the digest; the id counter goes up only on the 201 (assuming a refused insert uses up no counter value; see Left out) |
| AuthController.Login | src/controllers/authController.js:44-81 | the same 401 for an unknown email and a wrong password; 403 for an inactive account only with the right password; otherwise only that user's lastLogin changes and `{token}` is signed over its id |
| AuthController.ForgotPassword | src/controllers/authController.js:83-118 | 404 and no change for an unknown email; otherwise only the holder's token and expiry (now + 3,600,000 ms) change, replacing any earlier token |
| AuthController.ResetPassword | src/controllers/authController.js:120-159 | 400 'Invalid or expired token' and no change unless a record holds the token with an expiry strictly after now; then only that record changes: the new digest, with both reset fields cleared |
| AuthController.IssuedTokenWindow | src/controllers/authController.js:134-139 | an issued token opens a reset strictly before issue time plus one hour, and not at or after it |
| AuthController.ReissueSupersedes | src/controllers/authController.js:101-108 | a new token makes the earlier one fail for that record |
| AuthController.ConsumedTokenIsDead | src/controllers/authController.js:145-153 | after a reset, a token no other record holds matches no record at any time, so reusing it fails |
| AuthController.IssuedAndConsumedPaired | src/controllers/authController.js:101-153 | forgot-password sets token and expiry together, and reset-password clears them together |
| UserQuery.BuildQuery | src/controllers/userController.js:11-19 | page and limit default to 1 and 10 when absent, NaN or 0; skip is (page-1)*limit; desc only for 'desc'; the active filter only for 'true'/'false'; export only for 'true'; search is the parameter's text; the role list is the parameter split at commas, empty when absent or empty; sortBy is the parameter, 'id' when absent or empty |
| UserQuery.NoParameters | src/controllers/userController.js:11-19 | no parameters mean page 1 of 10, skip 0, sorted by id ascending, with no filter |
| UserQuery.EmptyWhereListsEveryone | src/controllers/userController.js:26-37 | an empty search with no role or active filter lists everyone |
| UserQuery.Filter | src/controllers/userController.js:26-37 | a row is kept exactly when it satisfies the where-clause |
| UserQuery.FilterAppend | src/controllers/userController.js:26-37 | filtering distributes over concatenation, so kept rows stay in the database's order with their multiplicity |
| UserQuery.FilterOne | src/controllers/userController.js:26-37 | one row is kept exactly when it satisfies the where-clause |
| UserQuery.Window | src/controllers/userController.js:50-51 | skip/take gives at most `take` rows, those starting `skip` rows in |
| UserQuery.TotalPages | src/controllers/userController.js:94 | the integer ceiling of total/limit |
| UserQuery.Summaries | src/controllers/userController.js:41-48 | one listing row per record, in order |
| UserQuery.GetAllUsers | src/controllers/userController.js:10-106 | export without permission is 403; export is every listed user; otherwise a page of the listed users with the count and ceiling from the same filter; an unknown sort column or negative page/limit is the database's refusal |
| UserQuery.PageIsListed | src/controllers/userController.js:40-53 | a page holds at most `limit` users, each satisfying the where-clause |
| UserQuery.PagesUpToPrefix | src/controllers/userController.js:13 | the first n pages, read in order, are the first n*limit listed users |
| UserQuery.PagesCoverListing | src/controllers/userController.js:91-101 | pages 1 to totalPages together give every listed user exactly once, in order |
| UserQuery.PagesBeyondAreEmpty | src/controllers/userController.js:91-101 | a page past totalPages is empty, and every page up to it is not |
| UserQuery.TwentyFiveByTen | src/controllers/userController.js:94 | 25 users with limit 10 give 3 pages, of 10, 10 and 5 |
| UserQuery.ExportRefusedBeforeQuery | src/controllers/userController.js:22-24 | a refused export does not depend on the table |
| UserQuery.GateAsWritten | src/controllers/userController.js:22 | the un-awaited value lets an export through whenever it is a promise |
| UserQuery.GateAwaited | src/controllers/userController.js:22 | the awaited gate lets an export through exactly on a true answer |
| UserQuery.UnawaitedGateExportsToAnyone | src/controllers/userController.js:22 | as written, a promise of a refusal still yields the whole filtered list |
| UserQuery.AwaitedGateRefuses | src/controllers/userController.js:22-24 | awaited, a refusal is the 403; the two gates differ only on a promise of a refusal |
| UserController.CreateAccepts | src/controllers/userController.js:123-134 | an accepted body has a configured role, a password of at least six UTF-16 code units, a valid email and a name |
| UserController.CreateRefuses | src/controllers/userController.js:123-134 | a role outside the configured list, or a password under six UTF-16 code units, is a 400 |
| UserController.UpdateAccepts | src/controllers/userController.js:154-164 | an accepted update writes only a configured role, only a valid email, and never a password |
| UserController.BodyPatchKeepsSecrets | src/controllers/userController.js:167-172 | the update keeps id, password, lastLogin, reset fields and createdAt |
| UserController.GetUserById | src/controllers/userController.js:108-120 | 200 with the record exactly when the id is stored; 404 'User not found' otherwise; a NaN id is the database's refusal |
| UserController.CreateUser | src/controllers/userController.js:122-151 | 400 with Joi's messages; a boolean word for `active` refused by the database; 400 'Email already exists'; or 201 with the inserted record; configured roles and uniqueness kept; the id counter goes up only on the 201 (assuming a refused insert uses up no counter value; see Left out) |
| UserController.UpdateUser | src/controllers/userController.js:153-182 | 400 with Joi's messages; the database's refusals reach `next`; a taken email is createError(400); otherwise only name, email, role and active of that record change |
| UserController.DeleteUser | src/controllers/userController.js:184-194 | 404 'User not found' through `next` for a missing id; otherwise exactly that record is removed; the id counter is unchanged |
| UserController.SetActiveStatus | src/controllers/userController.js:196-215 | 400 unless `active` is a boolean or a boolean word; a boolean word is refused by the database; a missing id reaches `next` uncaught; otherwise only that record's `active` changes |
| UserController.ChangePassword | src/controllers/userController.js:217-237 | 400 for a password under six UTF-16 code units; a missing id reaches `next` uncaught; otherwise only that record's password changes, to the digest of the new one |
| ProfileController.GetProfile | src/controllers/profileController.js:6-30 | 404 'User not found' exactly when the caller's record is gone; otherwise 200 with the profile projection of exactly that record |
| ProfileController.GetProfileHidesSecrets | src/controllers/profileController.js:9-20 | the answer is the same whatever the caller's password, reset fields and lastLogin |
| ProfileController.ProfilePatchOnlyNameAndEmail | src/controllers/profileController.js:42-49 | only name and email can change, each only when a truthy value is given |
| ProfileController.InvalidEmailStillWritten | src/controllers/profileController.js:33-49 | an email the schema refuses is still written, because validation is discarded |
| ProfileController.UpdateProfile | src/controllers/profileController.js:32-68 | a truthy non-string is the database's refusal; a missing record reaches `next`; an email held by another record is 400 'Email already exists'; otherwise only name and email change and the new profile is sent |
| ProfileController.ShortNewPasswordUnchecked | src/controllers/profileController.js:71-77 | a new password under six UTF-16 code units breaks the schema, which the handler never enforces |
| ProfileController.ChangeOwnPassword | src/controllers/profileController.js:70-103 | 404 for a missing record; 401 'Current password is incorrect' with no change unless the current password matches; a non-string password is bcrypt's error; otherwise only the password changes, to the digest of the new one |

## Findings

| source | as written | input that shows it | evidently intended | confidence | as-written member | corrected member |
|---|---|---|---|---|---|---|
| src/controllers/userController.js:22 | `!aclService.hasPermission(req.user, 'users.export')` without `await` | `GET /users?export=true` from a user the service refuses, with an asynchronous `hasPermission` | await the answer, as src/middleware/acl.js:11 does, and answer 403 on a refusal | low: the permission service is not part of this model, and the bug needs it to be asynchronous, as the await in acl.js suggests; not executed | UserQuery.UnawaitedGateExportsToAnyone | UserQuery.AwaitedGateRefuses |

## Left out

- Hashing: bcrypt's salt, cost factor, timing and 72-byte truncation are not modelled.
  `Env.hash` is uninterpreted, and comparison is equality with the digest.
- Tokens: jsonwebtoken's signature and expiry checks are not modelled. Signing is
  `Env.sign`, and verification is the `verify` parameter. Any failure, including a
  missing or non-numeric `userId` claim, is None.
- Reset token: `uuid` freshness is not assumed; the token is an argument.
- Reset e-mail: the link and the e-mail sending (src/controllers/authController.js:110-112)
  are output and are not modelled. That includes a failing send, which would give a 500
  after the token is stored.
- Export output: the workbook is not modelled. That covers its columns, the Yes/No and
  ISO-date rendering (src/controllers/userController.js:55-89) and the response headers.
  An export is the list of its rows.
- Store.UserStore.Create, AuthController.Register, UserController.CreateUser: the
  database engine is not named in the code. The model assumes an engine where an insert
  refused by the unique email index uses up no auto-increment value (as SQLite), so the
  counter is unchanged on P2002. PostgreSQL sequences and MySQL InnoDB use up a value,
  so on those engines the next 201 carries a higher id than the model gives. Ids are
  never reused either way. Email equality in `Store.EmailTaken` and
  `Store.UserStore.FindUniqueByEmail` is exact, as in PostgreSQL and SQLite. MySQL's
  default collation ignores case, so there "A@x.com" would be a P2002 against "a@x.com".
- UserQuery.BuildQuery: every query parameter is a single string or absent. Express parses
  a repeated or bracketed parameter (`?roles=a&roles=b`, `?roles[]=a`) into an array,
  which the model cannot represent. An array `roles` makes `req.query.roles.split(',')`
  (src/controllers/userController.js:15) throw a TypeError before the handler's `try`,
  so the handler's own `next(error)` is never reached and the promise it returns is
  rejected. An array `search` or `sortBy` reaches the database, which refuses it.
- UserQuery.GetAllUsers: the database's ordering for `orderBy` is not computed. The table
  arrives in the order the database returns for the requested key.
- UserQuery.GetAllUsers: a negative page or limit is treated as refused by the database.
  This includes a negative `take`, which the database may instead answer by reading
  backwards.
- updatedAt: it is set on insertion but not refreshed on update. The database schema,
  which would declare it `@updatedAt`, is not part of this model. For the same reason,
  the `active` column's default is taken to be true.
- Error messages: the database's and bcrypt's error texts are fixed stand-ins. See
  `Store.Thrown` and `ProfileController.IllegalArguments`. Only their being
  statusless errors matters to the response status.
- Database failures: only the unique-email violation, the missing record and a
  wrongly-typed argument are modelled. Other failures, such as a lost connection, are not.
- Joi: only the features the handlers use are modelled. Email syntax is a parameter.
  JSON numbers are integers, and nested objects and arrays are not modelled.
- Exceptions in the gate: an exception thrown by the permission service at the export
  gate (src/controllers/userController.js:22, outside the `try`) is not modelled.
- Concurrency: concurrent requests and races are not modelled. Each handler is one
  atomic step on the store.
- Files not part of this model: services/aclService, config/roles, config/jwt and
  config/db. They are the parameters above.
- Not modelled, because they are wiring and documentation: src/app.js, the route files,
  src/swagger.js and src/controllers/roleController.js.
