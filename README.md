# medi-pill-check: sessions, lockout and medication records in Dafny

This project models the authentication core of the medi-pill-check HTTP
service and its medication records:

- registration, which stores the email lower-cased;
- login, with its Redis-backed lockout: failures are counted per
  lower-cased email in a 15-minute window, and the fifth failure sets a
  15-minute lock;
- the profile update that doubles as the password change: it stamps
  `PasswordChangedAt` and issues an access token carrying `iat`;
- the authentication middleware, with its stale-token rule;
- logout through a refresh-token denylist, and the refresh endpoint;
- the per-user medication endpoints.

The modules follow the program:

- `Cache`: Redis as a map from key to a value with an optional absolute expiry second. `Store` is the shared client.
- `Text`: `strings.ToLower` (ASCII letters), `HasPrefix` and `TrimPrefix`.
- `Jwt`: the claim sets the handlers build, and the parser's acceptance rule for the claims the handlers issue (signature matches; `exp`, if present, not yet reached; section 4.1.4 of RFC 7519).
- `Users`: the users table and its unique constraints.
- `Lockout`: `incrementLoginAttempt` and `resetLoginAttempt`, first as functions on the store, then as methods on the `Store`. The throttling invariant holds per email: a live counter is in 1..5, its window started at most 15 minutes ago, and a full counter is covered by a lock that lives at least as long.
- `Denylist`: the `blrt:<token>` records.
- `Medicine`: the `MedicineHandler` endpoints, over a `MedicationTable` class.
- `Handlers`: Login, Register, UpdateUser, Logout and RefreshToken, plus the medication handlers that `handlers.go` duplicates. Login, UpdateUser, Logout and RefreshToken are each specified by a function of the state they read (`LoginStep`, `UpdateUserStep`, `LogoutStep`, `RefreshToken`), and the methods of class `Handlers` are proved equal to those functions. Register is specified by its method's `ensures`. No handler calls `generateRefreshToken` (handlers.go:336-345); Login returns only `token` (handlers.go:89-91). So /refresh and /logout only ever see refresh tokens minted elsewhere, or access tokens (see `Sessions.RefreshAcceptsAccessToken`).
- `Middleware`: `AuthMiddleware`, written as a function that returns `Reject(message)` or `Accept(userId)`.
- `Sessions`: properties of whole sessions, across several requests.

External collaborators become parameters:

- bcrypt's comparison is the oracle `matches(hash, password)`, and a freshly computed hash is an argument.
- The `email` binding rule is `isEmail`.
- `jwt.Parse` with the configured secret is `parse`, which returns the decoded claims and whether the signature matched.
- The clock is an integer `now`, in seconds.

Three behaviours of the code may be unexpected. The model follows the code in each:

- Email uniqueness is case-sensitive. Register lower-cases the email, but UpdateUser stores a new email exactly as given, and its uniqueness check compares exact strings. `MixedCaseEmailUnreachable` shows the result: a user whose email is changed to a mixed-case spelling can no longer log in, because Login lower-cases the email it looks up.
- Login and refresh tokens carry no `iat`, so a password change never revokes them. `LoginTokenLifetime` holds against any later users table. Only tokens carrying `iat` are subject to the stale rule (`PasswordChangeRevokesOlderTokens`).
- UpdateUser acts on the user named by the path parameter, which need not be the authenticated user. The model takes that id as given.

## Model

| member | source | states |
|---|---|---|
| Text.ToLower | internal/handlers/handlers.go:46 | The result has the input's length and no upper-case letter. A character changes exactly when it is an upper-case ASCII letter, and then it becomes the same letter in lower case (code point + 32). |
| Text.LowerCharSame | internal/handlers/handlers.go:97 | Two characters lower-case to the same character exactly when they are equal up to ASCII case. |
| Text.ToLowerAt | internal/handlers/handlers.go:46 | Each character of the lower-cased string is the lower-case form of the input character at that place. |
| Text.ToLowerEqualIffSameIgnoringCase | internal/handlers/handlers.go:97-103 | Two strings lower-case to the same string exactly when they have the same length and agree character by character up to ASCII case. |
| Text.ToLowerIdempotent | internal/handlers/handlers.go:71 | Lower-casing twice equals lower-casing once, so an already normalised email maps to itself. |
| Text.ToLowerOfLower | internal/handlers/handlers.go:79 | A string without upper-case letters is its own lower-cased form. |
| Text.TrimPrefix | internal/middleware/middleware.go:22 | With the prefix present, prefix + result is the input. Without it, the result is the input unchanged. |
| Text.TrimPrefixOfConcat | internal/middleware/middleware.go:18-22 | Prefixing a string and then trimming the same prefix gives the string back, and the prefix test succeeds. |
| Text.PrefixInjective | internal/handlers/handlers.go:97-103 | Two prefixed keys are equal if and only if their suffixes are. |
| Cache.AfterIncr | internal/handlers/handlers.go:98 | INCR stores the reply's count. It keeps the expiry of a live key, creates a missing key without expiry, and leaves every other key's entry as it was. |
| Cache.AfterExpire | internal/handlers/handlers.go:100 | A live key gets expiry now + seconds. A key left live afterwards was live before and the lifetime was positive. No other key changes. |
| Cache.AfterSet | internal/handlers/handlers.go:104 | The value reads back from now until the lifetime ends (forever for a non-positive lifetime) and is gone at now + ttl. No other key changes. |
| Cache.AfterDel | internal/handlers/handlers.go:111-113 | After DEL the key reads as missing at every second. No other key changes. |
| Cache.LiveEarlier | internal/handlers/handlers.go:73 | A key live at some second was live at every earlier second. |
| Cache.Store.constructor | internal/database/redis.go:11-20 | The model starts from an empty store. The real client connects to an existing Redis server, which may already hold keys; no lemma depends on the store starting empty. |
| Cache.Store.Incr | internal/handlers/handlers.go:98 | Returns the INCR reply and applies `AfterIncr` to the shared store. |
| Cache.Store.Expire | internal/handlers/handlers.go:100 | Applies `AfterExpire` to the shared store. |
| Cache.Store.Set | internal/handlers/handlers.go:104 | Applies `AfterSet` to the shared store. |
| Cache.Store.Del | internal/handlers/handlers.go:111-113 | Applies `AfterDel` to the shared store. |
| Jwt.GenerateJwt | internal/handlers/handlers.go:313-321 | Claims `user_id` and `exp` = now + 3600, with no `iat` and no type. The parser accepts the token exactly at seconds before now + 3600. |
| Jwt.GenerateJwtWithIat | internal/handlers/handlers.go:324-333 | Claims `user_id`, `iat` and `exp` = iat + 3600. Accepted exactly before iat + 3600. |
| Jwt.GenerateRefreshToken | internal/handlers/handlers.go:336-345 | Claims `user_id`, type "refresh" and `exp` = now + 604800. Accepted exactly before now + 604800. |
| Users.FirstWithEmail | internal/handlers/handlers.go:79 | Returns the smallest id in range whose email matches exactly. None means no row in range has that email. |
| Users.FindByEmail | internal/handlers/handlers.go:79 | A found user is the stored row holding that email. Nothing is found if and only if no row holds it. |
| Users.FindByEmailUnique | internal/models/user.go:11-12 | Under the unique constraint, the lookup by email returns the one row holding it. |
| Lockout.CaseVariantsShareKeys | internal/handlers/handlers.go:97-112 | Emails that differ only in the case of ASCII letters have the same counter key and the same lock key. |
| Lockout.KeysFollowLowerCase | internal/handlers/handlers.go:97-103 | Two emails share the counter key, and the lock key, if and only if they are equal after lower-casing. A counter key is never a lock key. |
| Lockout.InvariantInitially | internal/handlers/handlers.go:95-106 | An empty store satisfies the throttling invariant. |
| Lockout.AttemptsBounded | internal/handlers/handlers.go:99-105 | Under the invariant the counter is in 0..5, and a count of 5 means the email is locked. |
| Lockout.InvariantAdvances | internal/handlers/handlers.go:100-104 | Letting time pass keeps the invariant. |
| Lockout.FailedAttemptStep | internal/handlers/handlers.go:95-106 | A failure from an unlocked state adds exactly one. The email is locked afterwards exactly when the count reaches 5. The first failure opens a window ending at now + 900, and later failures do not extend it. The lock entry is "1" until now + 900. The invariant is kept. |
| Lockout.ResetStep | internal/handlers/handlers.go:108-114 | After a reset the email has no counted failure and no lock, and the invariant holds. |
| Lockout.PressureDecays | internal/handlers/handlers.go:100-104 | Without requests, an email's pressure never grows: pressure is 5 while locked, otherwise the live count. |
| Lockout.OtherEmailUntouched | internal/handlers/handlers.go:97-113 | A failure or a reset for one email leaves the counter and lock entries of every email that differs after lower-casing exactly as they were. |
| Lockout.IncrementLoginAttempt | internal/handlers/handlers.go:95-106 | INCR, EXPIRE on a count of 1, and SET lock on a count of 5 or more, applied to the shared store, equal `AfterFailedAttempt`. |
| Lockout.ResetLoginAttempt | internal/handlers/handlers.go:108-114 | The two DELs on the shared store equal `AfterReset`. |
| Denylist.DenylistKeysSeparate | internal/handlers/handlers.go:350 | A `blrt:` key is never a counter or lock key of any email. |
| Denylist.BlacklistLifetime | internal/handlers/handlers.go:348-358 | A revoked token reads as denylisted from now until its `exp`, and not from `exp` on. An `exp` already past stores a record without expiry. |
| Denylist.BlacklistKeepsThrottling | internal/handlers/handlers.go:348-351 | Revoking a token changes no email's count or lock, and keeps each email's invariant. |
| Denylist.ThrottlingKeepsDenylist | internal/handlers/handlers.go:95-114 | Failures and resets leave every token's denylist status unchanged. |
| Denylist.BlacklistRefreshToken | internal/handlers/handlers.go:348-351 | The SET on the shared store equals `AfterBlacklist`: "1" with lifetime exp - now. |
| Medicine.Merge | internal/handlers/medicine.go:83-97 | The id and owner are kept. A field changes only to a non-zero (type) or non-empty (string) requested value, and such a value always wins. |
| Medicine.MergeIdempotent | internal/handlers/medicine.go:83-98 | Applying the same update twice equals applying it once. |
| Medicine.MergeEmptyIsIdentity | internal/handlers/medicine.go:83-97 | An update with every field zero or empty changes nothing. |
| Medicine.MergeSkipsCreateValidation | internal/handlers/medicine.go:72-97 | A record valid for Create can be updated to type 9 and schedule "yearly". Update does not re-check Create's domains. |
| Medicine.MedicationTable.constructor | internal/models/medication.go:9-20 | A new table is empty, well keyed, and hands out id 1 first. |
| Medicine.MedicineHandler.Create | internal/handlers/medicine.go:19-46 | An invalid body is rejected and nothing changes. A valid body inserts one record under the next id, owned by the authenticated user, with the requested fields. |
| Medicine.MedicineHandler.List | internal/handlers/medicine.go:48-53 | Returns every record of the user, only that user's records, each as stored, in ascending id. |
| Medicine.MedicineHandler.Get | internal/handlers/medicine.go:55-63 | Found if and only if the record exists and belongs to the user. What is found is the stored record. |
| Medicine.MedicineHandler.Update | internal/handlers/medicine.go:65-101 | A missing or foreign record gives not-found and saves nothing. Otherwise the merged record replaces it. Other users' records are unchanged. |
| Medicine.MedicineHandler.Delete | internal/handlers/medicine.go:103-108 | Removes the record only if the user owns it, and answers 204 either way. Other users' records are unchanged. |
| Handlers.LoginLockedFirst | internal/handlers/handlers.go:71-77 | A locked email gets 403 with the lock message, whatever the password, and the store is unchanged. |
| Handlers.LoginFailuresIndistinguishable | internal/handlers/handlers.go:79-88 | An unknown email and a wrong password give the same 401 "Invalid email or password" and the same single counted failure. |
| Handlers.LoginSuccess | internal/handlers/handlers.go:84-91 | A 200 means: the email was not locked, the user with the lower-cased email was found, and the password matched. The token is `GenerateJwt(id, now)`. Counter and lock are gone. |
| Handlers.LoginAdmits | internal/handlers/handlers.go:71-91 | The converse: a request that binds, for an unlocked email whose lower-cased form is stored, with a password the stored hash accepts, gets `LoginOk(GenerateJwt(id, now))`, and counter and lock are deleted. |
| Handlers.LoginKeepsInvariant | internal/handlers/handlers.go:62-114 | Every login keeps every email's throttling invariant. It raises the requesting email's pressure by at most one, and no other email's pressure at all. |
| Handlers.UpdateUserKeepsValid | internal/handlers/handlers.go:134-176 | UpdateUser keeps the table well keyed and the username and email unique. It changes at most the row for the path id, and persists nothing on not-found or a taken username or email. |
| Handlers.UpdateUserApplies | internal/handlers/handlers.go:149-166 | A new username or email is refused exactly when another user holds it. Otherwise a given username and email are written to the row and returned, and an empty one keeps the stored value. |
| Handlers.PasswordChangeStamps | internal/handlers/handlers.go:167-181 | A non-empty password stores the new hash, stamps PasswordChangedAt = now, and returns `GenerateJwtWithIat(id, now)`. An empty password returns no token and keeps hash and stamp. |
| Handlers.PasswordChangedAtMonotone | internal/handlers/handlers.go:167-176 | With a clock that does not run backwards, PasswordChangedAt never moves back. |
| Handlers.MixedCaseEmailUnreachable | internal/handlers/handlers.go:158-166 | An email with an upper-case letter is saved as given. Login's lower-cased lookup never finds that user. |
| Handlers.RefreshToken | internal/handlers/handlers.go:411-442 | Empty gives 400. A denylisted token is refused before parsing. A new access token for the claimed user is issued if and only if the token is not denylisted, is accepted, and has a numeric `user_id`. "Invalid refresh token" holds exactly for a non-denylisted token the parser refuses. "Invalid user in token" holds exactly for an accepted token without a numeric `user_id`. |
| Handlers.LogoutRefusals | internal/handlers/handlers.go:380-405 | An empty token gets 400 and a token the parser refuses gets 401, and in both cases the store is unchanged. Logout succeeds exactly for a token the parser accepts, and that token then reads as denylisted. |
| Handlers.LogoutRevokes | internal/handlers/handlers.go:380-405 | After a successful logout the token is denylisted at every second from now until its `exp` second, and for good when `exp` is missing or already past; from `exp` on it is not. No other key of the store changes, so every other token's denylist status and every email's counter and lock are the same at every second. |
| Handlers.Handlers.constructor | internal/handlers/handlers.go:19-29 | A new handler set holds its collaborators, and the model starts from an empty, valid users table. The real handlers use an existing database, which may already hold rows; no lemma depends on the table starting empty. |
| Handlers.Handlers.Register | internal/handlers/handlers.go:32-59 | A body that does not bind gives 400. A clash with a taken username or lower-cased email gives a conflict, and nothing is stored. Otherwise one user is inserted with the lower-cased email and no PasswordChangedAt. |
| Handlers.Handlers.Login | internal/handlers/handlers.go:62-93 | The reply and the new store equal `LoginStep`. |
| Handlers.Handlers.UpdateUser | internal/handlers/handlers.go:134-182 | The reply and the new users table equal `UpdateUserStep`, and the table stays valid. |
| Handlers.Handlers.Logout | internal/handlers/handlers.go:380-409 | The reply and the new store equal `LogoutStep`: 400 for an empty token, 401 for one the parser refuses, otherwise revoked until its `exp`. |
| Handlers.Handlers.CreateMedication | internal/handlers/handlers.go:194-218 | As `MedicineHandler.Create`, with no type field: type 0 is stored. |
| Handlers.Handlers.UpdateMedication | internal/handlers/handlers.go:237-268 | As `MedicineHandler.Update`, but the type is never changed. |
| Middleware.AuthenticateToken | internal/middleware/middleware.go:23-54 | Each message holds exactly under its condition: "Invalid token" when the parser refuses; "Invalid user in token" when there is no numeric `user_id`; the stale message when the stale rule applies. Otherwise the request is accepted with that user id. |
| Middleware.AuthMiddleware | internal/middleware/middleware.go:15-56 | "Token required" exactly when the header lacks the "Bearer " prefix. Otherwise the verdict is that of the token after the prefix. |
| Middleware.BearerTokenExtracted | internal/middleware/middleware.go:18-22 | The header "Bearer " + t is judged on exactly t. |
| Middleware.StaleIsStrict | internal/middleware/middleware.go:48 | A token whose iat equals the change second is not stale; one issued a second earlier is. |
| Middleware.StaleCheckSkipped | internal/middleware/middleware.go:44-54 | An accepted token with a numeric user id passes if it has no iat, its user does not load, or the user never changed the password. |
| Sessions.LoginTokenLifetime | internal/handlers/handlers.go:89-91 | A login token authenticates its user before now + 3600 and gets "Invalid token" from then on, against any later users table. |
| Sessions.PasswordChangeRevokesOlderTokens | internal/middleware/middleware.go:44-52 | After a password change, the new token authenticates for one hour. Any otherwise valid token of that user with an earlier iat is refused as stale. |
| Sessions.LogoutEndsRefresh | internal/handlers/handlers.go:380-442 | After Logout accepts a refresh token, RefreshToken never again issues an access token for it. |
| Sessions.LogoutIgnoresDenylist | internal/handlers/handlers.go:380-405 | Logout of an already revoked token succeeds again, whatever the store, and the token stays revoked. |
| Sessions.RefreshAcceptsAccessToken | internal/handlers/handlers.go:419-441 | A valid, non-denylisted access token also buys a new access token: the type claim is not checked. |
| Sessions.RefreshTokenLifetime | internal/handlers/handlers.go:336-345 | A non-denylisted refresh token is exchanged exactly before issue + 604800. |
| Sessions.LoginKeepsDenylist | internal/handlers/handlers.go:62-114 | Login changes no token's denylist status. |
| Sessions.OrderedTail | internal/handlers/handlers.go:62-114 | The rest of an ordered run is ordered from its first request's second, and ends at the same second. |
| Sessions.ReplayPressureBound | internal/handlers/handlers.go:62-114 | Over any run of logins arriving in order at any seconds, an email's pressure at the last request exceeds its pressure at the start by at most the number of requests. Its invariant holds at the end. |
| Sessions.LastingLookups | internal/handlers/handlers.go:100-104 | Counter and lock entries that last until a closing second read the same at every second before it. |
| Sessions.FailureWithinWindow | internal/handlers/handlers.go:95-106 | A wrong-credential login inside a window that closes at most 15 minutes after it opened raises the pressure by one, up to 5. The counter and the lock still last until the window closes. The failure that makes the fifth sets the lock entry to "1" until 15 minutes after it. |
| Sessions.ReplaySnoc | internal/handlers/handlers.go:62-93 | Replaying a run and then one more request equals replaying the longer run. |
| Sessions.ReplayFailures | internal/handlers/handlers.go:79-106 | A run of wrong-credential logins for one email, in order and all within 15 minutes of the run's start, raises its pressure by one each, capped at 5. |
| Sessions.FiveFailuresLock | internal/handlers/handlers.go:71-106 | From no counted failure, five wrong-credential logins in order within 15 minutes lock the email for 15 minutes from the fifth. A login for it in that time, in any case and with any password, gets 403 and changes nothing. |

## Left out

- Password hashing and comparison (bcrypt) are not modelled. The comparison is the oracle `matches`, and Register and UpdateUser receive the new hash as an argument.
- JWT encoding and HS256 signing (section 3.2 of RFC 7518) are not modelled. The parser is the oracle `parse`, and its "not yet expired" rule is written out in `Jwt.Verified`. The claims are read as float64 in Go; the model uses integers and leaves out the float conversions and the truncation of `uint(userID)`.
- Sub-second time is not modelled: every clock value is whole seconds.
- The "Invalid token claims" branches are not modelled. The parser always produces map claims, so they are unreachable.
- Redis errors are not modelled: the store is always available. The source ignores most of them. Logout is the exception: it answers 500 "Failed to blacklist token" when the SET fails, and that branch is not modelled.
- Each request is modelled as one atomic step on the store. In the source, Login reads the lock and later sends INCR, EXPIRE and SET as separate commands, so concurrent requests can interleave. Two concurrent failures at a count of 4 both pass the lock check and take the counter to 6, outside the 1..5 of `Lockout.AttemptsBounded`. A request interrupted between INCR and EXPIRE leaves a counter without expiry. Neither is captured.
- Cache.AfterSet: a non-positive lifetime stores the key without expiry. That is how the client library treats it; the library itself is not part of this model.
- Database errors are not modelled: "Failed to create user", the ignored errors of `Save`, "Failed to create medication" in both create handlers, and "Failed to delete medication". Register's test of the error text for a unique-constraint violation is modelled as the conflict it detects (`Conflicts`).
- JSON binding failures other than the stated field rules are not modelled. The email-format rule is the oracle `isEmail`. Bind errors that come after the record lookup, in UpdateUser and Update, are not modelled.
- Soft delete (`DeletedAt`), the `MainUser` column, and the created/updated timestamps are not modelled.
- Audit-log writes are fire-and-forget appends and are left out.
- ListUsers, GetUser and DeleteUser, the Health endpoint, configuration, CORS, routing and server start-up are not part of this model.
- The handlers.go copies of the medication List, Get and Delete are not modelled separately. They behave like `MedicineHandler.List`, `.Get` and `.Delete`, except that Delete reports database errors.
- Medicine.MedicineHandler.List: the SQL query has no ORDER BY. The model returns records in ascending id, one order the database may use.
- Text.ToLower: only ASCII letters are lower-cased. Go's `strings.ToLower` also maps other Unicode upper-case letters.
- Jwt.Verified: the parser's rule covers signature and `exp` only. golang-jwt also refuses a token whose `nbf` is still in the future. The handlers never issue `nbf`, so the rule is exact for the tokens they issue.
