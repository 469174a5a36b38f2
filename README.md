# Refresh-token sessions of the jbudget server

This project models the session layer of the jbudget web application's
server: the `refresh_tokens` table and everything that changes it. A user
who registers or logs in gets a refresh token, which is stored as one row.
Presenting the token rotates it: the row is consumed and a new one is
stored. A correctly signed token that is no longer stored is taken as theft,
and every session of its user is revoked. Logout revokes one session and
logout-all revokes every session of the user. The listing shows the
caller's active sessions, newest first, without their tokens. A maintenance
script sweeps expired rows.

Layout, one module per concern:

- `refresh_token.dfy` (`RefreshTokenSchema`): the row type `Session`, with a
  non-null user, token and expiry, an optional device and a creation time.
  It also holds the table invariant: unique tokens, unique ids, and a fresh
  next id.
- `query.dfy` (`Query`): the ORM's `where` clauses as a datatype `Cond`,
  the selection `Where` they drive, and lemmas about counting and keys.
- `session_store.dfy` (`SessionStore`): the table as a class `Store` with
  the fields `rows` and `nextId`. Its methods are `create`, `findOne`,
  `findAll`, `count` and `destroy`, each specified by a function on the
  `Db` value.
- `lifecycle.dfy` (`Lifecycle`): each controller as a function from the
  table before a request to the response and the table after it, plus the
  session listing.
- `auth_controller.dfy` (`AuthController`): the controllers as methods that
  call the store step by step, in the source's order. Each is proved equal
  to its `Lifecycle` function.
- `lifecycle_properties.dfy` (`LifecycleProperties`): issuance only on
  success, the refresh branches, single use, confinement of bulk
  revocation, and idempotent logout.
- `cleanup_tokens.dfy` (`CleanupTokens`): the expiry sweep, its report, and
  its properties.

Abstractions: JWT verification of a refresh token is a total function
`verify: Token -> Option<UserId>`. It returns `None` for a bad signature or
an expired claim. Signing is a `TokenPair` parameter. User existence is
membership in a set of ids. The validator's verdict, the e-mail lookup and
the password check are inputs. Time is an integer number of milliseconds,
and each request reads the clock once as `now`. The `id` default (a fresh
UUID) is a counter `nextId`. The refresh token in a request body is a
string or absent, so the falsy test on it means "absent or the empty
string"; other JSON values are left out (see below). An absent or empty
`user-agent` header is recorded as no device.

## Model

| member | source | states |
|---|---|---|
| `Query.Where` | jbudget-webapp-sqlite/server/src/controllers/authController.js:261-265 | a `where` clause selects exactly the rows that satisfy it, and never more rows than the table holds |
| `Query.FindFirst` | jbudget-webapp-sqlite/server/src/controllers/authController.js:167-171 | `findOne` yields a stored row matching the clause, and yields nothing exactly when no row matches |
| `Query.WherePartition` | jbudget-webapp-sqlite/server/scripts/cleanup-tokens.js:33-43 | the rows a clause deletes plus the rows it keeps are the whole table, so the total after a delete is the total before less the count deleted |
| `Query.WhereKeepsKeys` | jbudget-webapp-sqlite/server/src/models/RefreshToken.js:5-22 | deleting rows never breaks the uniqueness of `token` or of `id` |
| `Query.AtMostOneWithToken` | jbudget-webapp-sqlite/server/src/models/RefreshToken.js:18-22 | under the unique index, at most one row holds a given token |
| `Query.SameIdSameRow` | jbudget-webapp-sqlite/server/src/models/RefreshToken.js:5-9 | `id` is a primary key: two rows with the same id are the same row |
| `Query.SameTokenSameRow` | jbudget-webapp-sqlite/server/src/models/RefreshToken.js:35 | the unique `token` index: two rows with the same token are the same row |
| `Query.DeleteOneCount` | jbudget-webapp-sqlite/server/src/controllers/authController.js:192 | destroying the found row by its primary key removes exactly one row, and exactly one from every count that row belongs to |
| `Query.WhereNarrow` | jbudget-webapp-sqlite/server/src/controllers/authController.js:243 | filtering first by a clause that every row of a later query satisfies does not change that query: a delete by user leaves another user's query result as it was |
| `SessionStore.InsertRow` | jbudget-webapp-sqlite/server/src/models/RefreshToken.js:5-30 | `create` succeeds exactly when the token is not yet stored. On success it appends one row with the given fields, a fresh id and `created_at` = now. A duplicate token leaves the table unchanged. The table invariant is kept |
| `SessionStore.DeleteWhere` | jbudget-webapp-sqlite/server/src/controllers/authController.js:243-244 | `destroy` keeps exactly the rows not matching the clause and returns how many it removed. It allocates nothing and keeps the table invariant |
| `SessionStore.Store.constructor` | jbudget-webapp-sqlite/server/src/models/RefreshToken.js:4-38 | an empty table satisfies the invariant |
| `SessionStore.Store.Create` | jbudget-webapp-sqlite/server/src/controllers/authController.js:30-35 | the table's `create` leaves the rows and the next id as `InsertRow` says and keeps the invariant |
| `SessionStore.Store.FindOne` | jbudget-webapp-sqlite/server/src/controllers/authController.js:167-169 | returns a stored row matching the clause, or nothing exactly when none matches |
| `SessionStore.Store.FindAll` | jbudget-webapp-sqlite/server/src/controllers/authController.js:261-265 | returns the matching rows |
| `SessionStore.Store.Count` | jbudget-webapp-sqlite/server/scripts/cleanup-tokens.js:23-27 | returns the number of matching rows |
| `SessionStore.Store.CountAll` | jbudget-webapp-sqlite/server/scripts/cleanup-tokens.js:43 | returns the number of rows |
| `SessionStore.Store.Destroy` | jbudget-webapp-sqlite/server/scripts/cleanup-tokens.js:33-37 | removes the matching rows in place, returns their number and keeps the invariant |
| `Lifecycle.DeviceOf` | jbudget-webapp-sqlite/server/src/controllers/authController.js:67 | the recorded device is never the empty string: an absent or empty user agent is no device, any other is kept as sent |
| `Lifecycle.CarriedDevice` | jbudget-webapp-sqlite/server/src/controllers/authController.js:199 | a rotation records the request's device when it names one, and otherwise keeps the consumed session's device |
| `Lifecycle.Save` | jbudget-webapp-sqlite/server/src/controllers/authController.js:24-36 | the insert succeeds exactly when the token is not yet stored; the new row is created now and expires seven days later; a refused insert changes nothing |
| `Lifecycle.Issue` | jbudget-webapp-sqlite/server/src/controllers/authController.js:63-84 | an authentication reports either success with the issued pair or a server error; success means every earlier row is kept and the user's new token was appended as the last row, and a server error leaves the table unchanged |
| `Lifecycle.Register` | jbudget-webapp-sqlite/server/src/controllers/authController.js:38-85 | a validation failure is answered exactly when input is invalid, and "e-mail in use" exactly when input is valid and the e-mail is taken; both leave the table unchanged, and registration never answers "invalid credentials" |
| `Lifecycle.Login` | jbudget-webapp-sqlite/server/src/controllers/authController.js:87-140 | a validation failure is answered exactly when input is invalid; an unknown e-mail and a wrong password get the same "invalid credentials" answer, given exactly in those two cases, and leave the table unchanged |
| `Lifecycle.Refresh` | jbudget-webapp-sqlite/server/src/controllers/authController.js:142-216 | "token required" is answered exactly when no token is given, and then nothing changes; success hands out the issued pair; every row afterwards was stored before, except on success the one new row holding the issued token, created now and expiring seven days later |
| `Lifecycle.Logout` | jbudget-webapp-sqlite/server/src/controllers/authController.js:218-238 | without a token nothing changes; with one, no row holds that token afterwards; logout never adds a row |
| `Lifecycle.LogoutAll` | jbudget-webapp-sqlite/server/src/controllers/authController.js:240-257 | no row of the user is left, every remaining row was stored before, and the returned count is the number of rows removed |
| `Lifecycle.Views` | jbudget-webapp-sqlite/server/src/controllers/authController.js:266 | one view per row, in order, carrying `id`, `device_info`, `expires_at` and `created_at`. `SessionView` has no token field |
| `Lifecycle.SortNewestFirst` | jbudget-webapp-sqlite/server/src/controllers/authController.js:267 | the ordered listing is a permutation of its input |
| `Lifecycle.InsertNewestKeepsOrder` | jbudget-webapp-sqlite/server/src/controllers/authController.js:267 | inserting one view into a listing ordered by `created_at` descending keeps it ordered |
| `Lifecycle.SortedNewestFirst` | jbudget-webapp-sqlite/server/src/controllers/authController.js:267 | the listing is ordered by `created_at` descending |
| `Lifecycle.ActiveSessions` | jbudget-webapp-sqlite/server/src/controllers/authController.js:261-268 | the listing is newest first and is a permutation of the views of the caller's rows expiring strictly after now |
| `Lifecycle.ListedAreOwnActive` | jbudget-webapp-sqlite/server/src/controllers/authController.js:262-265 | every listed session is the view of a row of the caller that expires after now |
| `Lifecycle.ActiveAreListed` | jbudget-webapp-sqlite/server/src/controllers/authController.js:262-265 | every row of the caller that expires after now is listed |
| `AuthController.SaveRefreshToken` | jbudget-webapp-sqlite/server/src/controllers/authController.js:24-36 | inserts the row expiring seven days after now, as `Lifecycle.Save` says; `SaveAddsOneRow` gives the effect |
| `AuthController.Register` | jbudget-webapp-sqlite/server/src/controllers/authController.js:38-85 | the handler's validation, duplicate e-mail, insert and failure paths, equal to `Lifecycle.Register` |
| `AuthController.Login` | jbudget-webapp-sqlite/server/src/controllers/authController.js:87-140 | the handler's validation, unknown e-mail, wrong password, insert and failure paths, equal to `Lifecycle.Login` |
| `AuthController.RefreshToken` | jbudget-webapp-sqlite/server/src/controllers/authController.js:142-216 | the verify, look-up, user check, delete-then-insert sequence, equal to `Lifecycle.Refresh` in response and resulting table |
| `AuthController.Logout` | jbudget-webapp-sqlite/server/src/controllers/authController.js:218-238 | always reports success; deletes by the token only when one was supplied |
| `AuthController.LogoutAll` | jbudget-webapp-sqlite/server/src/controllers/authController.js:240-257 | deletes the caller's rows and returns the number deleted |
| `AuthController.DeleteAccount` | jbudget-webapp-sqlite/server/src/controllers/authController.js:383-388 | its first step deletes every row of the user |
| `AuthController.GetSessions` | jbudget-webapp-sqlite/server/src/controllers/authController.js:259-268 | reads only, and returns the newest-first listing of `ActiveSessions` |
| `LifecycleProperties.PurgeIsConfinedToUser` | jbudget-webapp-sqlite/server/src/controllers/authController.js:174 | deleting by user removes exactly that user's rows and leaves every other user's session list as it was |
| `LifecycleProperties.SaveAddsOneRow` | jbudget-webapp-sqlite/server/src/controllers/authController.js:24-36 | with a token not yet stored, exactly one row is appended, with the given user, token and device, `created_at` = now and `expires_at` = now + 7 days. The user gains exactly one session |
| `LifecycleProperties.RegisterIssuesOnlyOnSuccess` | jbudget-webapp-sqlite/server/src/controllers/authController.js:40-68 | registration succeeds exactly when input is valid, the e-mail is free and the new token is not stored. Then it adds exactly one session for the new user. Every other path leaves the table unchanged |
| `LifecycleProperties.LoginIssuesOnlyOnSuccess` | jbudget-webapp-sqlite/server/src/controllers/authController.js:89-123 | login succeeds exactly when input is valid, the e-mail is known, the password matches and the new token is not stored. Then it adds exactly one session. Every other path leaves the table unchanged |
| `LifecycleProperties.RefreshWithoutTokenChangesNothing` | jbudget-webapp-sqlite/server/src/controllers/authController.js:146-151 | with no token the request fails and the table is unchanged |
| `LifecycleProperties.InvalidSignatureDropsOnlyThatToken` | jbudget-webapp-sqlite/server/src/controllers/authController.js:154-164 | a token that fails verification is refused. At most the one row holding exactly it is deleted, and nothing is issued |
| `LifecycleProperties.ReusedTokenRevokesAllOfUser` | jbudget-webapp-sqlite/server/src/controllers/authController.js:166-179 | a signed but unstored token deletes every row of its user and no other row, and issues nothing. The user lists no sessions, and every other user's list is unchanged |
| `LifecycleProperties.VanishedUserRevokesAllOfUser` | jbudget-webapp-sqlite/server/src/controllers/authController.js:181-189 | a stored token whose user no longer exists deletes all of that user's rows, fails and issues nothing |
| `LifecycleProperties.RotationReplacesConsumedToken` | jbudget-webapp-sqlite/server/src/controllers/authController.js:191-200 | a successful rotation deletes the consumed row, keeps every other row and adds one row for the token's user. The new row carries the request's user agent, or else the old device. The old token is absent afterwards. When the consumed row belongs to the token's user, that user's session count is unchanged |
| `LifecycleProperties.RotationKeepsSessionCount` | jbudget-webapp-sqlite/server/src/controllers/authController.js:191-200 | every insert stores a token signed for the user it is stored under, so a stored token that still verifies names its row's user (an expired one verifies to nothing); while that holds, a rotation keeps the user's session count unchanged, and it still holds afterwards |
| `LifecycleProperties.FailedRotationStillConsumes` | jbudget-webapp-sqlite/server/src/controllers/authController.js:191-200 | the consumed row is deleted before the insert. If the insert is refused, the request fails, no row is added, and exactly the consumed row is gone |
| `LifecycleProperties.RotatedTokenIsSingleUse` | jbudget-webapp-sqlite/server/src/controllers/authController.js:166-192 | presenting a rotated token again, its signature still valid, takes the revoked branch and leaves its user with no rows |
| `LifecycleProperties.RefreshSucceedsExactlyWhen` | jbudget-webapp-sqlite/server/src/controllers/authController.js:146-200 | rotation succeeds exactly when all of these hold: a token is given, it verifies, it is stored, its user exists, and no other row holds the new token |
| `LifecycleProperties.RefreshKeepsInvariants` | jbudget-webapp-sqlite/server/src/models/RefreshToken.js:10-26 | every refresh outcome keeps unique keys, keeps every row's user existing, and keeps every row's seven-day lifetime |
| `LifecycleProperties.LogoutIsIdempotent` | jbudget-webapp-sqlite/server/src/controllers/authController.js:222-225 | logging out twice with the same token equals logging out once |
| `LifecycleProperties.LogoutDeletesAtMostThatToken` | jbudget-webapp-sqlite/server/src/controllers/authController.js:220-225 | logout removes at most one row, the one holding the token, and nothing when no token is given |
| `LifecycleProperties.LogoutAllIsConfinedToUser` | jbudget-webapp-sqlite/server/src/controllers/authController.js:240-249 | logout-all deletes exactly the user's rows and returns their number. The user has no sessions left, and every other user's list is unchanged |
| `LifecycleProperties.AuthenticationKeepsOwners` | jbudget-webapp-sqlite/server/src/controllers/authController.js:60-123 | registration and login store a session only for a user that exists, so every row still names an existing user afterwards |
| `LifecycleProperties.DeleteAccountLeavesNoOrphans` | jbudget-webapp-sqlite/server/src/controllers/authController.js:388-391 | revoking the user's rows before deleting the user leaves no row referring to a missing user |
| `LifecycleProperties.ReissuedSameTokenStaysStored` | jbudget-webapp-sqlite/server/src/controllers/authController.js:192-200 | if the signer returns the very token being consumed, rotation still succeeds and that token is stored again |
| `CleanupTokens.Sweep` | jbudget-webapp-sqlite/server/scripts/cleanup-tokens.js:18-48 | the number deleted is the number counted as expired, the reported total is the table's size afterwards, active never exceeds total, and the sweep adds no row |
| `CleanupTokens.CleanupExpiredTokens` | jbudget-webapp-sqlite/server/scripts/cleanup-tokens.js:18-48 | count expired, delete only if any, then count total and active, equal to `Sweep` |
| `CleanupTokens.NothingExpiredLeft` | jbudget-webapp-sqlite/server/scripts/cleanup-tokens.js:32-37 | after the sweep no row with `expires_at < now` remains, and no row was added |
| `CleanupTokens.SweepDeletesExactlyExpired` | jbudget-webapp-sqlite/server/scripts/cleanup-tokens.js:33-37 | the sweep keeps exactly the rows with `expires_at >= now`, unchanged, and keeps the table invariant |
| `CleanupTokens.SweepCountsAgree` | jbudget-webapp-sqlite/server/scripts/cleanup-tokens.js:23-43 | the deleted count equals the pre-counted expired count, and the total after is the total before less the deleted count |
| `CleanupTokens.SweepWithNothingExpired` | jbudget-webapp-sqlite/server/scripts/cleanup-tokens.js:29-30 | with nothing expired, no deletion runs and the table is untouched |
| `CleanupTokens.SweepIsIdempotent` | jbudget-webapp-sqlite/server/scripts/cleanup-tokens.js:29-37 | a second sweep at the same `now` deletes nothing and changes nothing |
| `CleanupTokens.SweepActiveBoundary` | jbudget-webapp-sqlite/server/scripts/cleanup-tokens.js:43-48 | active ≤ total after the sweep. The difference is the rows expiring exactly at `now`, so active = total exactly when no row expires at `now` |

## Left out

- JWT signing and verification (`jwt.sign`, `jwt.verify`, the two secrets,
  the `15m` and `7d` claim lifetimes) belong to the jsonwebtoken library.
  Verification is the `verify` parameter and signing is the `TokenPair`
  parameter.
- RotatedTokenIsSingleUse: assumes the newly signed refresh token is not
  already stored. jsonwebtoken signs the same payload identically within one
  second. `ReissuedSameTokenStaysStored` shows that when the signer returns
  the consumed token itself, rotation succeeds and the token stays usable.
- InvalidSignatureDropsOnlyThatToken: holds for a string token only. The
  body's `refreshToken` is any JSON value and the route has no validator.
  An array is truthy, fails `jwt.verify`, and as a `where` value means
  "token in the list", so the delete on authController.js:156-159 removes
  every listed row. `false` and `0` count as missing. Non-string bodies are
  outside the model.
- LogoutDeletesAtMostThatToken: holds for a string token only. An array
  body makes the delete on authController.js:222-224 remove every listed
  row, so more than one row can go. Non-string bodies are outside the model.
- HTTP plumbing is not modelled: routing, the express-validator rules
  (only their verdict is an input), status codes, response bodies and the
  user JSON. Console logging, `process.exit` and `sequelize.close` in the
  sweep script are left out too.
- The user model is outside the model: `User.create`, `findOne` by e-mail,
  `findByPk` and `validatePassword`. Their results are inputs, and user
  existence is a set of ids. `getMe`, `updateProfile` and `updatePassword`
  are profile code and are not modelled.
- `deleteAccount` after its first step is not modelled: the deletions of
  transactions, tags and the user.
- Storage failures other than the unique-index violation are not modelled,
  for example a lost connection (the source answers 500).
- The foreign key from `user_id` to `users.id` (RefreshToken.js:13-16) is
  enforced by the database; the model does not check it on insert.
  `OwnersExist` states it as a property instead, and
  `AuthenticationKeepsOwners`, `RefreshKeepsInvariants` and
  `DeleteAccountLeavesNoOrphans` prove it is kept.
- The `updated_at` timestamp column is not modelled; nothing reads it.
- Concurrency is not modelled, including the read-then-delete race of two
  rotations of the same token. Each request is one sequential step.
- Time is simplified. `setDate(getDate() + 7)` is calendar arithmetic and
  can differ from 7 × 24 hours across a daylight-saving change; the model
  uses a fixed lifetime in milliseconds. The separate `new Date()`
  readings of one request are a single `now`.
- Ties in `created_at` are returned in some order by the database. The model
  fixes one order and proves only newest-first order and a permutation.
- Two source defects are not modelled. First, `getMe`, `updateProfile`,
  `updatePassword` and `deleteAccount` are assigned inside the body of
  `getSessions` (authController.js:284-404). They stay undefined until
  `getSessions` has run, so routes/auth.js hands undefined handlers to the
  router. Second, RefreshToken.js:51-174 repeats the handlers after the
  model definition, using names that are not defined there.

## Behaviour of the code

Three behaviours of the code follow from the model, each proved:

- a duplicate token on insert is answered with 500 and not retried
  (authController.js:78-83, 209-214; `RegisterIssuesOnlyOnSuccess`,
  `RefreshSucceedsExactlyWhen`);
- a failed insert during rotation leaves the consumed row deleted
  (`FailedRotationStillConsumes`);
- the sweep deletes rows with `expires_at < now` but counts only
  `expires_at > now` as active, so a row expiring exactly at `now` is
  neither deleted nor active (`SweepActiveBoundary`).
