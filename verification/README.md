# Authentication decisions of a Rocket user service, in Dafny

This project models the authentication core of a small Rocket web service. Users
create an account with an argon2-hashed password and sign in. Sign-in returns a
short-lived HS256 access token (a JSON Web Token carrying `user_id`, `username`
and `exp`). It also sets a `refresh_token` cookie whose value is stored per user
in a `refresh_tokens` table. A protected route accepts only unexpired bearer
tokens. The refresh route accepts expired tokens too, compares the cookie with
the stored value, and issues a new access token.

Everything outside the service's own decisions is a parameter:
- argon2 is a record of functions (`Hash.Hasher`). The assumptions about it are
  stated as `Hash.Sound` (a produced hash is a parseable PHC string that the
  hashed password matches) and, for the rotation properties only, `Hash.Binding`
  (a hash matches no other password).
- JWT signing is `Jwt.Signer`, with `Jwt.Sound`: decoding under the same key
  gives back the signed claims.
- The clock (`now`), the RNG output (`fill`), argon2 salts, the rows that
  `read_user` returns and the errors of SQL statements are inputs of the
  handlers.
- `JWT_PRIVATE_KEY` and `JWT_EXPIRE_TIME` are a `Jwt.Config` value.
- The `refresh_tokens` table is modelled as its rows (`RefreshStore.Table`, which
  keeps the unique constraint on `user_id`). `RefreshStore.AsMap` gives the
  `map<int64, string>` view that readers see.
- The private cookie jar is a `map<string, Cookie>`.
- `unwrap`/`expect` panics are explicit values (`Base.Panicking`, `Http.Panicked`).

Modules follow the source files: `Hash` (src/crypto/hash.rs), `Jwt`
(src/crypto/jwt.rs), `CreateRefresh` (src/crypto/create_refresh.rs),
`RefreshStore` (src/db/create_refresh_entry.rs, src/db/get_refresh_entry.rs),
`Db` and `UserGuard` (src/db/user.rs), `Signin`, `RefreshRoute` and
`CreateAccount` (src/routes/accounts/). `Base`, `Text`, `Hex` and `Http` hold
the library behaviour these rely on. `Session` states properties that span
several routes.

The routes are modelled as the code is written, including the two places
where the code works against its own messages and comments (see "Findings"):
- The refresh route reissues a token when the cookie does NOT match the stored
  hash, and refuses when it does. Yet its refusal message reads "Refresh token
  is invalid", and its doc comment (src/routes/accounts/refresh_token.rs:50)
  asks for the valid refresh token in the cookie.
- The cookie carries the stored hash, not the plaintext secret.
- A hashing failure while creating a refresh token panics through `expect`.
  Only an RNG failure is returned as the `GetRandomFailed` error.
- A stored string that is not a PHC hash makes `verify` return an error (the
  `?` at src/crypto/hash.rs:36), and the routes answer 500. Every other
  failed verification is `Ok(false)`.

## Model

| member | source | states |
|---|---|---|
| `Hash.FromValueInverse` | src/crypto/hash.rs:9-31 | `from` stores a string without hashing it: `value()` of the wrapper is that string, and every wrapper is the wrapping of its own `value()` |
| `Hash.Value` | src/crypto/hash.rs:29-31 | `value()` returns the wrapped string itself: wrapping it again with `from` gives the same `PasswordHash` |
| `Hash.TryFrom` | src/crypto/hash.rs:18-25 | succeeds exactly when argon2 hashing succeeds; a hashing error is returned as that same `Err`; on success the value is a PHC string that the password verifies against (`Ok(true)`) |
| `Hash.Verify` | src/crypto/hash.rs:33-41 | `Err` exactly when the stored string does not parse as a PHC hash; `Ok(false)`, never `Err`, for a parseable hash the password does not match; `Ok(true)` exactly on a match |
| `Hash.HashThenVerify` | src/crypto/hash.rs:18-40 | a password verifies against a hash made from it, whatever salt was drawn |
| `Hash.HashRejectsOtherPassword` | src/crypto/hash.rs:33-40 | under collision resistance, a hash made from one password gives `Ok(false)` for every other password |
| `Jwt.CreateJwt` | src/crypto/jwt.rs:18-38 | panics exactly when `now + ttl` overflows i64; otherwise the token decodes under the key to claims with the given `user_id`, `username` and `exp = now + ttl` |
| `Jwt.DecodeJwt` | src/crypto/jwt.rs:40-63 | `Err` exactly when the token does not authenticate; otherwise it carries the authenticated claims, classified `Expired` exactly when `exp <= now` |
| `Jwt.ForgedNeverClassified` | src/crypto/jwt.rs:51-56 | a token that fails authentication is `Err` at every time, so expiry is never consulted for it |
| `Jwt.AuthenticNeverError` | src/crypto/jwt.rs:51-62 | expiry never causes `Err`: an authentic token is `Valid` before `exp` and `Expired` from `exp` on, the boundary `exp == now` included |
| `Jwt.IssueThenDecode` | src/crypto/jwt.rs:29-62 | a token issued at `now` decodes with the issued claims: `Valid` before `now + ttl`, `Expired` afterwards, never `Err` |
| `Hex.Encode` | src/crypto/create_refresh.rs:12 | hex encoding gives two lower-case hex digits per byte |
| `Hex.DecodeEncode` | src/crypto/create_refresh.rs:12 | the hex encoding of bytes decodes back to those bytes |
| `Hex.EncodeInjective` | src/crypto/create_refresh.rs:12 | different random byte strings give different hex secrets |
| `CreateRefresh.RefreshCookie` | src/crypto/create_refresh.rs:15-21 | the cookie is named `refresh_token`, HTTP-only, not secure-only, SameSite Lax, path `/refresh`, max-age 2592000 s (30 days) |
| `CreateRefresh.SecretShape` | src/crypto/create_refresh.rs:7-12 | the plaintext secret for 32 random bytes is 64 lower-case hex digits and determines those bytes |
| `CreateRefresh.CreateRefresh` | src/crypto/create_refresh.rs:5-24 | an RNG failure returns `Err(GetRandomFailed)` and nothing else; a hashing failure panics; when the buffer was filled and hashing succeeds the result is `Ok`, with the cookie value and the returned string both the hash, which verifies against the hex secret, and the secret itself is never returned |
| `CreateRefresh.CreateRefreshIntended` | src/crypto/create_refresh.rs:5-24 | corrected generator: the same failure cases; when the buffer was filled and hashing succeeds the result is `Ok`, the cookie carries the hex secret, and the returned hash verifies against the cookie value |
| `RefreshStore.UniqueMeansNoTwoRows` | src/db/create_refresh_entry.rs:23 | the table constraint holds exactly when no two rows share a `user_id` |
| `RefreshStore.Upsert` | src/db/create_refresh_entry.rs:19-31 | the insert-or-update keeps the one-row-per-user constraint, and the table then maps the user id to the new hash with every other user id unchanged |
| `RefreshStore.UpsertIdempotent` | src/db/create_refresh_entry.rs:21-25 | upserting the same row twice leaves the same table as upserting it once |
| `RefreshStore.CreateRefreshEntry` | src/db/create_refresh_entry.rs:18-34 | a failing statement returns its error and leaves the table as it was; otherwise `Ok(())`, and the table maps `user_id` to the new hash with all other entries unchanged |
| `RefreshStore.LastWriteWins` | src/db/create_refresh_entry.rs:21-25 | after two upserts for one user the lookup returns the second, and exactly one row holds that user id |
| `RefreshStore.CreateLeavesOthers` | src/db/create_refresh_entry.rs:21-25 | an upsert leaves the lookup of every other user id as it was, whether or not the statement fails |
| `RefreshStore.Select` | src/db/get_refresh_entry.rs:13-23 | every selected row has the requested user id; nothing is selected exactly when the user id is absent; the first selected row holds the stored hash |
| `RefreshStore.SelectAtMostOne` | src/db/get_refresh_entry.rs:16-19 | in a table that keeps its constraint, a user id selects at most one row |
| `RefreshStore.Limit` | src/db/get_refresh_entry.rs:18 | `LIMIT n` keeps a prefix of the selected rows, at most `n` of them, and all of them when fewer than `n` were selected |
| `RefreshStore.GetRefreshEntry` | src/db/get_refresh_entry.rs:12-27 | a failing statement returns its error; an absent user id gives `Err(RowNotFound)`; otherwise the single record, whose `user_id` is the argument and whose hash is the stored one |
| `RefreshStore.GetAfterCreate` | src/db/get_refresh_entry.rs:12-26 | a lookup after `create_refresh_entry(uid, h)` returns exactly that record |
| `Text.StripPrefix` | src/db/user.rs:37 | `strip_prefix` succeeds exactly when the header starts with the prefix, and the prefix followed by the result is the header |
| `Text.StripPrefixOfConcat` | src/db/user.rs:37 | stripping `"Bearer "` from `"Bearer " + token` gives back `token` |
| `UserGuard.FromRequest` | src/db/user.rs:33-53 | no header gives `Forward(Unauthorized)`; a header without the `"Bearer "` prefix, and only such a header, gives `Forward(BadRequest)`; a rejection is always `Unauthorized`; success means the token after the prefix decodes as `Valid` and the user carries its `user_id` and `username` |
| `UserGuard.BearerHeader` | src/db/user.rs:37-48 | for `"Bearer " + token`, the guard succeeds exactly for tokens that decode as `Valid`; an expired or forged token gives `Error(Unauthorized)` |
| `Http.AddPrivate` | src/routes/accounts/signin.rs:56 | adding a cookie sets it under its name and leaves every other cookie as it was |
| `Http.AuthTokenBody` | src/routes/accounts/signin.rs:65 | the body `AuthToken: "<token>"` carries the token so that a client reads back exactly that token |
| `Http.GetPrivate` | src/routes/accounts/refresh_token.rs:62 | `get_private` returns a cookie exactly when the jar holds one of that name, and then that cookie |
| `Http.GetAfterAdd` | src/routes/accounts/signin.rs:56 | after `add_private(cookie)`, `get_private` of its name returns that cookie, and every other name reads as before |
| `Signin.Signin` | src/routes/accounts/signin.rs:31-94 | the full decision table. A user-read error gives 500 with the generic message. Zero users give 404 `No account found by that username`. Two or more give 500 with the support message. A `verify` error gives 500 and `Ok(false)` gives 401 `Password is incorrect`. An RNG failure gives 500 and a refresh-hash failure panics. All of these leave the store and jar unchanged. Once a refresh token exists, its cookie is in the jar whatever follows. A failed upsert gives 500 and leaves the store unchanged. After a good upsert the store maps the user to the cookie's hash. Then the reply is 200 with a token for that user, or a panic if the expiry overflows. A 200 happens only with one account, a correct password and a stored refresh hash |
| `RefreshRoute.FromRequest` | src/routes/accounts/refresh_token.rs:23-47 | no header gives `Forward(Unauthorized)`, an unprefixed header gives `Forward(BadRequest)`, a rejection is `Unauthorized`, and success carries the claims of an authentic token |
| `RefreshRoute.BearerHeader` | src/routes/accounts/refresh_token.rs:26-42 | for `"Bearer " + token`, the guard accepts both `Valid` and `Expired` tokens with their claims, at every time, and turns a decode error into `Error(Unauthorized)` |
| `RefreshRoute.Reissue` | src/routes/accounts/refresh_token.rs:74-75 | the reply is 200 with a token for the guard's user and `exp = now + ttl`, or a panic when that overflows |
| `RefreshRoute.Refresh` | src/routes/accounts/refresh_token.rs:59-91 | `RowNotFound` or no record gives 404 `User doesn't exist`. Other store errors give 500. No cookie gives 401 `No valid refresh token`. A `verify` error gives 500. `Ok(true)` gives 401 `Refresh token is invalid`, and `Ok(false)` reissues a token for the guard's user |
| `RefreshRoute.RefreshAcceptsExactlyNonMatching` | src/routes/accounts/refresh_token.rs:68-76 | as written, with a record and a cookie present, refresh succeeds exactly when the stored hash does not match the cookie |
| `RefreshRoute.RefreshRefusesIssuedSecret` | src/routes/accounts/refresh_token.rs:70-72 | as written, a cookie holding the secret the user's stored hash was made from is refused with 401 `Refresh token is invalid`, whatever other rows the table and other cookies the jar hold |
| `RefreshRoute.RefreshIntended` | src/routes/accounts/refresh_token.rs:68-76 | corrected route: the same table, except that a match reissues and a mismatch gives 401 |
| `RefreshRoute.IntendedAcceptsExactlyMatching` | src/routes/accounts/refresh_token.rs:68-76 | the corrected route succeeds exactly when the stored hash matches the cookie |
| `CreateAccount.Create` | src/routes/accounts/create_account.rs:25-64 | either hashing failure gives 500 with no insert. Otherwise the inserted row has the username and the argon2 hash of the password, never the plaintext, and it verifies. A successful insert gives 201 `Account created successfully`. Database code `23505` gives 409 `User already exists`. Any other error gives 500 |
| `Text.IntToDecimal` | src/routes/accounts/create_account.rs:68 | `{}` of an integer starts with `-` exactly when it is negative, followed by a non-empty run of decimal digits with no leading zero, so 0 is exactly `0` |
| `Text.IntDecimalRoundTrip` | src/routes/accounts/create_account.rs:68 | the decimal rendering of an integer parses back to that integer |
| `CreateAccount.TestRoute` | src/routes/accounts/create_account.rs:66-69 | the greeting is `Hello there: <username>, UserID: ` followed by exactly the `{}` rendering of the user id (`Text.IntToDecimal`), from which the id is read back |
| `Session.SigninTokenAuthorizes` | src/routes/accounts/signin.rs:62-65 | the access token of a successful sign-in passes the `AuthUser` guard as the signed-in account before `now + ttl`, is refused from then on, and passes the `RefreshUser` guard at any time |
| `Session.SigninThenRefresh` | src/routes/accounts/refresh_token.rs:59-76 | after a sign-in the cookie equals the stored hash, and refreshing with it succeeds exactly when that hash does not match itself |
| `Session.IssueAndStoreIntended` | src/routes/accounts/signin.rs:54-61 | sign-in's issue-and-store step with the corrected generator maps the user to the new hash and sets a refresh cookie carrying the hex secret |
| `Session.SigninCookieRefusedByCorrectedRoute` | src/crypto/create_refresh.rs:15 | the cookie a successful sign-in sets is the stored hash itself, so the corrected route refuses it with 401 |
| `Session.OldCookieSurvivesRotation` | src/routes/accounts/refresh_token.rs:68-75 | as written, after two successful sign-ins of one account, the cookie the first sign-in set still obtains a new access token against the table the second left |
| `Session.IntendedRefreshAccepts` | src/crypto/create_refresh.rs:12-23 | with the corrected generator and route, the secret just issued and stored refreshes for its user |
| `Session.IntendedRotationRevokes` | src/crypto/create_refresh.rs:12-23 | with the corrected generator and route, once a second issuance replaced the stored hash, the first secret is refused with 401 |

## Left out

- Process bootstrap, the TLS provider, the database pool and log-file setup (src/main.rs, src/logs/log_errors.rs): plumbing with no decisions.
- The SQL of `read_user` and `write_user` (src/db/get_user.rs, src/db/create_user.rs): their results are handler inputs. These are a list of rows or an error, and an optional insert error.
- argon2, HMAC-SHA256 signing and the operating-system RNG: foreign code. They appear only through `Hash.Hasher`, `Jwt.Signer`, salts and `fill`, with the stated assumptions.
- Reading `JWT_PRIVATE_KEY` and `JWT_EXPIRE_TIME` and exiting on a missing or malformed value (src/crypto/jwt.rs:65-80): the values are a `Jwt.Config` parameter.
- The wall clock: `now` is a parameter.
- Rocket's async runtime, cookie encryption and HTTP marshalling. The jar holds what `get_private` would return, and a cookie that fails to decrypt is simply absent.
- How Rocket continues after a guard's `Forward`, and how it turns a handler panic into a response. Guards and handlers are modelled separately, and a panic is a `Panicked` response.
- Logging through `rocket::error!`: it has no effect on the outcome.
- Concurrent sign-ins: each handler is one sequential step. The upsert's last-write-wins is stated for sequential calls.
- Hash.Verify: no separate contract says that `verify` leaves the stored value alone. `PasswordHash` is an immutable value, so this holds by construction.
- RefreshRoute.Refresh: no contract says that the route neither writes the store nor sets a cookie. It returns only a response, so it cannot do either.
- Jwt.CreateJwt: `encode(..).unwrap()` is modelled as total. HS256 encoding of these claims does not fail, so only the `checked_add` panic is modelled.
- Jwt.DecodeJwt: the other default checks of `Validation::new(HS256)` (algorithm, presence of `exp`) are part of the abstract `decode`.
- Fresh salts giving different hash strings for the same password: salts are inputs, and nothing is assumed about hashes made under different salts.
- The panic message of `expect("asd")` (src/crypto/create_refresh.rs:13): Rust appends `: ` and the Debug form of the argon2 error; the model's panic carries only `asd`.
- The `user_id as isize` cast of `AuthUser` (src/db/user.rs:44): `AuthUser.userId` is an i64, which is exact on 64-bit targets; the truncation the cast performs on a 32-bit target is not modelled.
- `Hash.Binding` is an idealisation. Collisions are only unlikely, so the rotation lemmas hold under that assumption and not absolutely.

## Findings

| source | as written | input that shows it | evidently intended | confidence | as-written member | corrected member |
|---|---|---|---|---|---|---|
| src/routes/accounts/refresh_token.rs:70-72 | the route answers 401 `Refresh token is invalid` when `verify` returns `Ok(true)`, and reissues an access token when it returns `Ok(false)` | a request whose cookie value the stored hash does not match (any value never issued) gets 200 and a new token, and the secret the stored hash was made from gets 401 (`RefreshRoute.RefreshAcceptsExactlyNonMatching`, `RefreshRoute.RefreshRefusesIssuedSecret`); so a new sign-in does not revoke the old cookie, which still gets 200 (`Session.OldCookieSurvivesRotation`) | reissue exactly when the cookie matches the stored hash (`RefreshRoute.IntendedAcceptsExactlyMatching`) | high; not executed | `RefreshRoute.Refresh` | `RefreshRoute.RefreshIntended` |
| src/crypto/create_refresh.rs:15 | the cookie carries the stored hash and the hex secret is discarded, so the client holds the verifier itself and never the secret it verifies | sign in once; with the cookie just set, the corrected route answers 401 (`Session.SigninCookieRefusedByCorrectedRoute`) | the cookie carries the hex secret and only its hash is stored, so the current secret refreshes and a new sign-in revokes the previous one (`Session.IntendedRefreshAccepts`, `Session.IntendedRotationRevokes`) | medium; not executed | `CreateRefresh.CreateRefresh` | `CreateRefresh.CreateRefreshIntended` |
