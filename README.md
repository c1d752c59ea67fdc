# Ghost Server Manager account store, modelled in Dafny

This project models the account and credential store of the Ghost Server
Manager (`Ghost-Server-Manager/src/auth/account_manager.ts`). The store keeps
one module-wide SQLite handle `db` over four tables:

- `users`: id, email, passwordHash, role;
- `auth_tokens`: session tokens with an expiration instant;
- `password_reset_tokens`: one-time reset tokens with an expiration instant;
- `auth_provider`: links from an account to an external identity provider (Discord).

Each exported function runs a short, fixed sequence of SQL statements: an
expiry sweep, single-row lookups, then an INSERT, UPDATE or DELETE.

Files:

- `wrappers.dfy` holds `Option`.
- `tables.dfy` (module `Tables`) holds:
  - the row types and `User.fromRow`;
  - the token lifetimes;
  - the SQL statements as functions on sequences of rows, with the lemmas that
    keep uniqueness constraints through them.
- `account_manager.dfy` (module `AccountManager`) holds:
  - the class `AccountStore`: the flag `open` stands for `db`, and the four
    tables and the two AUTOINCREMENT counters are fields;
  - one method per exported function;
  - the invariant `Valid()` and the lemmas about table states.
- `scenarios.dfy` (module `Scenarios`) holds sequences of calls in the order
  the HTTP routes make them, plus two that use the corrected reset. Each is
  proved from the store's contracts alone.

Inputs the code takes from its environment:

- The clock is the parameter `now`, in epoch milliseconds.
- The output of `randomBytes(30).toString('hex')` is the parameter `token`.
- bcrypt's `compare` is the store's constant `matches`.
- A freshly computed hash is a parameter `hash` that must satisfy
  `matches(password, hash)`.

`Valid()` is what every method keeps:

- user ids, user emails, reset-row ids and reset-token owners are unique;
- session tokens and reset tokens are unique;
- stored session and reset tokens have the shape `randomBytes(30).toString('hex')`
  produces, 60 lower-case hex digits;
- stored ids are below their counters.

At most one provider link per (user, provider) is a separate predicate,
`LinksUnique()`. The exported `registerAuthProvider` can break it; the login
flow never does.

In five places the code does something other than what its interface and
its callers lead one to expect. The model follows the code in each:

- Deleting an account might be expected to remove everything that belongs
  to it. The code deletes only the user row and its session tokens
  (`account_manager.ts` lines 249-252). Reset tokens and provider links stay
  behind.
- A reset request carries an email, so the reset might be expected to check
  that the token belongs to that email. `resetPassword` never reads `email`
  (lines 298-311). That is the finding below.
- A token might be expected to stop working at its expiration instant. The
  sweeps delete only rows with `expirationDate < now` (lines 239 and 314),
  so a token still works when `now` equals its expiration instant
  (`Tables.SweepBoundary`).
- Any call on a closed store might be expected to fail with a result, as most
  of them do. `deleteUser` (249-252) and `deleteAuthToken` (254-256) have no
  open check and throw. `finishDiscordOauth2Login` throws at `user.id`
  (line 74). The model renders each throw as a failed result with no change.
- Updating a provider link might be expected to revoke the old provider
  token first. The code starts `revokeAll()` without awaiting it (line 69)
  and overwrites the stored material straight away. The revocation is a
  network call and is not modelled.

## Model

| member | source | states |
|---|---|---|
| Tables.FromRow | Ghost-Server-Manager/src/auth/account_manager.ts:97-99 | The user keeps the row's id and email; its role is Admin exactly when the stored role text is "admin", and User for any other text. |
| Tables.FromRowRoundTrip | Ghost-Server-Manager/src/auth/account_manager.ts:81-99 | Storing a role by its enum text and reading the row back gives the same user. |
| Tables.Filter | Ghost-Server-Manager/src/auth/account_manager.ts:239 | A DELETE ... WHERE keeps exactly the rows that fail the condition, and never adds rows. |
| Tables.FindFirst | Ghost-Server-Manager/src/auth/account_manager.ts:226 | A one-row SELECT finds the first row in rowid order that meets the condition, and finds nothing exactly when no row meets it. |
| Tables.FilterKeepsDistinct | Ghost-Server-Manager/src/auth/account_manager.ts:239 | Deleting rows never breaks a uniqueness constraint. |
| Tables.FilterKeepsAll | Ghost-Server-Manager/src/auth/account_manager.ts:269-271 | A DELETE whose condition matches no row leaves the table unchanged, so the guarded and the unguarded delete agree. |
| Tables.AppendDistinct | Ghost-Server-Manager/src/auth/account_manager.ts:152-156 | An INSERT keeps a column unique exactly when the new value is not already in it. |
| Tables.UpdateKeepsDistinct | Ghost-Server-Manager/src/auth/account_manager.ts:307 | An UPDATE that does not touch a unique column keeps it unique. |
| Tables.DistinctOnly | Ghost-Server-Manager/src/auth/account_manager.ts:241 | On a unique column, the row a lookup finds is the only row with that value. |
| Tables.SweepAuthTokens | Ghost-Server-Manager/src/auth/account_manager.ts:239 | The sweep keeps exactly the session tokens with `now <= expirationDate`. It deletes only the ones that expired strictly before `now`. |
| Tables.SweepResetTokens | Ghost-Server-Manager/src/auth/account_manager.ts:313-315 | The same sweep on reset tokens. |
| Tables.DeleteTokensOf | Ghost-Server-Manager/src/auth/account_manager.ts:250 | Removes exactly the session tokens of the given user. |
| Tables.DeleteToken | Ghost-Server-Manager/src/auth/account_manager.ts:255 | Removes exactly the session-token rows with the given token. |
| Tables.DeleteUserRow | Ghost-Server-Manager/src/auth/account_manager.ts:251 | Removes exactly the user rows with the given id. |
| Tables.DeleteResetTokensOf | Ghost-Server-Manager/src/auth/account_manager.ts:271 | Removes exactly the reset tokens of the given user. |
| Tables.DeleteResetRow | Ghost-Server-Manager/src/auth/account_manager.ts:308 | Removes exactly the reset row with the given id. |
| Tables.SetPasswordHash | Ghost-Server-Manager/src/auth/account_manager.ts:307 | Every row of the given user id gets the new hash, and keeps its id, email and role. Rows of other users stay as they were. |
| Tables.SetAccessTokenJson | Ghost-Server-Manager/src/auth/account_manager.ts:179-182 | Every link of the (user, provider) pair gets the new material and keeps its key. Other links stay as they were. An existing link with the new material is afterwards present. |
| Tables.SweepTwice | Ghost-Server-Manager/src/auth/account_manager.ts:239 | Sweeping at `a` and then at `b` equals one sweep at the later instant. |
| Tables.SweepResetTwice | Ghost-Server-Manager/src/auth/account_manager.ts:313-315 | Sweeping reset tokens twice at one instant is one sweep. |
| Tables.SweepBoundary | Ghost-Server-Manager/src/auth/account_manager.ts:239 | A token that expires exactly at `now` survives the sweep; one that expired before `now` is removed. |
| AccountManager.PasswordlessCannotLogIn | Ghost-Server-Manager/src/auth/account_manager.ts:155 | When bcrypt accepts no password against "", an account created without a password cannot log in with any password. |
| AccountManager.ReplaceResetTokenKeepsValid | Ghost-Server-Manager/src/auth/account_manager.ts:269-275 | Deleting a user's reset token and inserting a fresh one keeps every uniqueness constraint, including one reset token per user. |
| AccountManager.ResetRequestSupersedes | Ghost-Server-Manager/src/auth/account_manager.ts:258-278 | After a reset request by an account, the new token authorizes its email. It is the only reset token that account holds. No other token authorizes that email any more. |
| AccountManager.ResolvesOnly | Ghost-Server-Manager/src/auth/account_manager.ts:241-246 | Under the invariant, a session token resolves to at most one user. |
| AccountManager.ResetAuthorizesOneEmail | Ghost-Server-Manager/src/auth/account_manager.ts:288-293 | Under the invariant, a reset token authorizes at most one email. |
| AccountManager.ResetPasswordKeepsValid | Ghost-Server-Manager/src/auth/account_manager.ts:307-308 | Setting one user's hash and deleting one reset row keeps the invariant. |
| AccountManager.ResetAuthorizesOnlyOwnToken | Ghost-Server-Manager/src/auth/account_manager.ts:288-293 | A reset token that authorizes an account's email is a live token owned by that account. |
| AccountManager.AccountStore.constructor | Ghost-Server-Manager/src/auth/account_manager.ts:13-15 | The process starts with `db` undefined over an existing database file whose tables meet the invariant. |
| AccountManager.AccountStore.OpenDatabase | Ghost-Server-Manager/src/auth/account_manager.ts:102-138 | Afterwards the store is open and no row changes; opening an open store is a no-op. |
| AccountManager.AccountStore.CloseDatabase | Ghost-Server-Manager/src/auth/account_manager.ts:140-144 | Afterwards the store is closed and no row changes; closing a closed store is a no-op. |
| AccountManager.AccountStore.SelectUserByEmail | Ghost-Server-Manager/src/auth/account_manager.ts:226 | Finds a user with the email exactly when one exists, and that user is the only one with it. |
| AccountManager.AccountStore.SelectUserById | Ghost-Server-Manager/src/auth/account_manager.ts:244 | Finds a user with the id exactly when one exists, and that user is the only one with it. |
| AccountManager.AccountStore.SelectAuthToken | Ghost-Server-Manager/src/auth/account_manager.ts:241 | Finds a session-token row exactly when one holds the token, and that row is the only one. |
| AccountManager.AccountStore.SelectResetToken | Ghost-Server-Manager/src/auth/account_manager.ts:288 | Finds a reset-token row exactly when one holds the token, and that row is the only one. |
| AccountManager.AccountStore.CreateUser | Ghost-Server-Manager/src/auth/account_manager.ts:146-159 | Returns none and changes nothing when the store is closed or the email is taken. Otherwise it appends exactly one user: a fresh id, that email, role "user", and the supplied hash ("" without a password). It returns that user. |
| AccountManager.AccountStore.GetUserByEmail | Ghost-Server-Manager/src/auth/account_manager.ts:220-230 | Returns a user exactly when the store is open and the email is stored, and that user is built from the row with the email. |
| AccountManager.AccountStore.DeleteUser | Ghost-Server-Manager/src/auth/account_manager.ts:249-252 | On an open store it removes the user's row and session tokens. Reset tokens and provider links stay. On a closed store it fails and changes nothing. |
| AccountManager.AccountStore.GenerateAuthToken | Ghost-Server-Manager/src/auth/account_manager.ts:206-218 | On an open store it appends exactly one session token (user, token, now + 300 days) and returns the token and that instant. It removes no row. On a closed store it returns none. |
| AccountManager.AccountStore.CheckCredentialsAndGenerateAuthToken | Ghost-Server-Manager/src/auth/account_manager.ts:184-203 | Returns none and changes nothing exactly when the store is closed, or no user has the email, or the password does not match that user's hash. Otherwise it issues a session token for that user, as GenerateAuthToken does. |
| AccountManager.AccountStore.GetUser | Ghost-Server-Manager/src/auth/account_manager.ts:232-247 | On an open store it sweeps expired session tokens. It returns a user exactly when a live token row with the token belongs to a stored user, and then that user. Malformed tokens never resolve. |
| AccountManager.AccountStore.DeleteAuthToken | Ghost-Server-Manager/src/auth/account_manager.ts:254-256 | On an open store it removes exactly the rows holding the token; revoking an absent token changes nothing. On a closed store it fails and changes nothing. |
| AccountManager.AccountStore.DeleteExpiredPasswordResetTokens | Ghost-Server-Manager/src/auth/account_manager.ts:313-315 | Deletes exactly the reset tokens that expired before `now`, and nothing else. |
| AccountManager.AccountStore.ReplaceResetToken | Ghost-Server-Manager/src/auth/account_manager.ts:269-275 | Deletes the user's reset token if there is one, then inserts the new token with a fresh id, valid for 5 hours. |
| AccountManager.AccountStore.GeneratePasswordResetToken | Ghost-Server-Manager/src/auth/account_manager.ts:258-278 | On a closed store it returns none and changes nothing. Otherwise it sweeps. For an unknown email it returns none and changes nothing more. For a known email it replaces that user's reset token by the new one, leaves other users' tokens alone, and returns the token. |
| AccountManager.AccountStore.ValidatePasswordResetCredentials | Ghost-Server-Manager/src/auth/account_manager.ts:280-296 | Returns true exactly when the store is open and a live reset token belongs to a stored user with exactly that email. It changes nothing beyond the sweep. |
| AccountManager.AccountStore.ResetPassword | Ghost-Server-Manager/src/auth/account_manager.ts:298-311 | Returns true exactly when the store is open and a live reset row holds the token. Then it sets that row's owner's hash and deletes that row. Otherwise it changes nothing beyond the sweep. The email is not consulted. |
| AccountManager.AccountStore.ConsumeResetToken | Ghost-Server-Manager/src/auth/account_manager.ts:306-308 | Sets the hash of the row's owner and deletes exactly that reset row. |
| AccountManager.AccountStore.ResetPasswordCheckingEmail | Ghost-Server-Manager/src/auth/account_manager.ts:280-311 | Returns true exactly when the store is open and the token authorizes the email. Only then does it change the owner's hash and consume the token. Otherwise it changes nothing beyond the sweep. |
| AccountManager.AccountStore.GetAuthProviderAccessTokenJson | Ghost-Server-Manager/src/auth/account_manager.ts:161-168 | Returns material exactly when the store is open and a link for the pair exists, and that material belongs to such a link. |
| AccountManager.AccountStore.RegisterAuthProvider | Ghost-Server-Manager/src/auth/account_manager.ts:170-177 | Appends a link exactly when the store is open and the user exists. Links stay unique exactly when none existed for the pair. |
| AccountManager.AccountStore.UpdateAuthProviderAccessTokenJson | Ghost-Server-Manager/src/auth/account_manager.ts:179-182 | On an open store it overwrites the material of the pair's links. Link uniqueness holds afterwards exactly when it held before. |
| AccountManager.AccountStore.LinkProvider | Ghost-Server-Manager/src/auth/account_manager.ts:64-72 | Afterwards the user has a link with the new material. All the pair's links carry it, other links are unchanged, no other table changes, and link uniqueness is preserved. |
| AccountManager.AccountStore.FinishDiscordLogin | Ghost-Server-Manager/src/auth/account_manager.ts:59-74 | For an unknown email it creates a passwordless account, at most one per email. It links or updates that account's Discord material and issues a session token for it. Link uniqueness is preserved. A closed store yields no token and no change. |
| Scenarios.RegisterTwice | Ghost-Server-Manager/src/auth/account_manager.ts:146-159 | Registering one email twice: the second call is refused and exactly one account has the email. |
| Scenarios.LoginResolveRevoke | Ghost-Server-Manager/src/auth/account_manager.ts:184-256 | Log in after registering; the token resolves to the new account; after revocation it resolves to nothing. |
| Scenarios.ResetRequestedTwice | Ghost-Server-Manager/src/auth/account_manager.ts:258-296 | After two reset requests only the second token validates, and it is the only reset token the account holds. |
| Scenarios.RequestAndReset | Ghost-Server-Manager/src/auth/account_manager.ts:258-311 | The flow the routes run: request, validate, then `resetPassword`. Each step succeeds, the account gets the new hash and the token is gone. |
| Scenarios.RequestAndCheckedReset | Ghost-Server-Manager/src/auth/account_manager.ts:258-296 | Corrected: the same flow ending in the checked reset has the same outcome for the account's own email. |
| Scenarios.ResetOnce | Ghost-Server-Manager/src/auth/account_manager.ts:298-311 | A reset token is redeemed once by `resetPassword`; the second redemption fails. |
| Scenarios.LoginAfterReset | Ghost-Server-Manager/src/auth/account_manager.ts:184-203 | After a reset through `resetPassword`, a password that does not match the new hash is refused and the new password logs in. |
| Scenarios.ResetIgnoresEmail | Ghost-Server-Manager/src/auth/account_manager.ts:298-311 | As written: a token that does not authorize an email still resets its owner's password when called with that email. |
| Scenarios.CheckedResetRefusesForeignEmail | Ghost-Server-Manager/src/auth/account_manager.ts:280-311 | Corrected: the same call is refused and no password hash changes. |
| Scenarios.DiscordLoginTwice | Ghost-Server-Manager/src/auth/account_manager.ts:59-74 | Two Discord logins for one email leave that account with exactly one Discord link, which carries the second login's material. |

## Left out

- bcrypt (`account_manager.ts` lines 196 and 317-319) is the constant relation `matches`. It is not computed. A method that stores a new hash takes it as a parameter that `matches` accepts for the password.
- `randomBytes`, `Date.now`, `addDays` and `addHours` are parameters. `addDays(now, 300)` is taken as 300 × 86 400 000 ms; calendar and daylight-saving effects are not modelled. Expiration dates are returned as epoch milliseconds, not as `Date` objects.
- AccountManager.AccountStore.GenerateAuthToken: requires the new token to have the random shape and to differ from every stored session token. The code never checks this; it relies on 240 random bits not repeating.
- AccountManager.AccountStore.CheckCredentialsAndGenerateAuthToken: requires a fresh token, for the same reason.
- AccountManager.AccountStore.GeneratePasswordResetToken: requires a fresh reset token, for the same reason.
- AccountManager.AccountStore.FinishDiscordLogin: requires a fresh session token, for the same reason. The user id it returns is ghost; the code returns only the token.
- AccountManager.AccountStore.FinishDiscordLogin: on a closed store, `user.id` at line 74 throws. The model returns none instead of raising.
- AccountManager.AccountStore.DeleteUser: on a closed store the code's promise rejects with a TypeError. The model returns `ok == false` with no change.
- AccountManager.AccountStore.DeleteAuthToken: on a closed store the code's promise rejects with a TypeError. The model returns `ok == false` with no change.
- AccountManager.AccountStore.ResetPassword: line 304 returns `undefined` and line 299 returns `false`. The model returns `false` for both.
- AccountManager.AccountStore.constructor: the database file's initial contents are a parameter that already meets the invariant.
- AccountManager.AccountStore.OpenDatabase: opening the file, the CREATE TABLE statements and the ALTER TABLE migration in its swallowed try/catch (lines 104-137) are not modelled. The tables are taken as already present.
- The OAuth2 code exchange, the Discord identity request, the URL builder and the fire-and-forget `revokeAll()` (lines 17-57 and 69) are network calls. Only the link-or-update step is modelled, and the access-token JSON is an opaque string.
- The SQL text built by string interpolation at lines 275 and 307 is an injection concern. Its effect when the values are plain is what is modelled.
- Logging calls are not modelled.
- The handlers run asynchronously. Each exported function is modelled as one atomic step; interleavings are not modelled.
- The ids of `auth_tokens` and `auth_provider` rows are never read by the code and are not modelled.
- `auth_router.ts` (routing, request-field checks, status codes, mail sending, container deletion) and `index.ts` (app wiring) are not part of this model. The scenarios follow the order in which the routes call the store. The exceptions are `Scenarios.RequestAndCheckedReset` and `Scenarios.CheckedResetRefusesForeignEmail`, which use the corrected reset.

## Findings

| source | as written | input that shows it | evidently intended | confidence | as-written member | corrected member |
|---|---|---|---|---|---|---|
| Ghost-Server-Manager/src/auth/account_manager.ts:298-311 | `resetPassword` takes an `email` but never reads it: any live reset token resets its owner's password, whatever email the caller names. | A live reset token T owned by the account `a@x.com`, and a call `resetPassword(T, "b@x.com", pw)` with `b@x.com` ≠ `a@x.com`. It returns true and replaces `a@x.com`'s hash, although `validatePasswordResetCredentials(T, "b@x.com")` is false. | Consume the token only when `validatePasswordResetCredentials(token, email)` holds, so a mismatched email fails and changes nothing. | not executed | Scenarios.ResetIgnoresEmail | AccountManager.AccountStore.ResetPasswordCheckingEmail |
