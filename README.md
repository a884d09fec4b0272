# Login and refresh-token flow of the user-control API

This project models the session core of an ASP.NET Core user-control API in
Dafny:

- `UserController.Authenticate`, the login endpoint, checks an email and
  password. It answers with a signed access token and a new refresh token, and
  stores the refresh token in the `RefreshTokens` table.
- `UserController.AtualizarTokenAsync`, the refresh endpoint, takes a stored
  refresh token that has not expired. It answers with a new pair and stores one
  more row.
- `TokenService.GenerateToken` builds the access token. It carries three claims
  (name, email, one role), expires two hours after issue and is signed with the
  ASCII bytes of the configured secret.
- The JWT bearer validator in `Program.cs` is set up with the same key.
- The `[Authorize]` attributes on the controller decide who reaches each action.
- At start-up, the seeding loop makes sure the roles `manager` and `employee`
  exist.

Modules, one file each:

- `Identity` (identity.dfy) holds the users, the password oracle and the role
  lists that the Identity managers answer from.
- `TokenService` (token_service.dfy) holds the token payload, `GenerateToken`,
  the ASCII signing key and the bearer validation check.
- `RefreshTokens` (refresh_tokens.dfy) holds the table: a map from the token
  value, which is the primary key, to `(UserId, Expires)`.
- `Controller` (controller.dfy) holds the two actions:
  - as functions on values, `Login` and `Refresh`;
  - as the class `UserController`, whose methods update its `refreshTokens`
    field in place and are proved equal to those functions.
- `Startup` (startup.dfy) holds the validation parameters, the same-key
  property and the role-seeding loop.
- `Authorization` (authorization.dfy) holds the attribute of each action and
  the allow / 401 / 403 decision.
- `Sessions` (sessions.dfy) serves any sequence of requests against one table.
  It proves that the table only grows, by one fresh row per token pair. It also
  proves that, while the clock never goes back, no row outlives the latest
  request by more than seven days. It ends with a worked session of one user.

Conventions:

- Time is an integer number of seconds. `now` is a parameter of every request.
- The new GUID string is a parameter `guid`.
- The signing algorithm is a function parameter `sign`, which stands for
  HMAC-SHA256.
- The secret is a parameter.

The model keeps these behaviours of the code:

- An unknown email answers NotFound, while a wrong password answers NoContent,
  so a caller can tell whether an email is registered.
- A missing refresh token and an expired one both answer Unauthorized. The
  expiry test is strict (`Expires < now`), so a token is still accepted at the
  second it expires.
- A user without roles fails inside `roles.First()`. This is an exception, and
  the model answers `ServerError(NoRoleAssigned)` with nothing written.
- A successful refresh leaves the presented row in place. That row can be used
  again until it expires.
- The bearer validator accepts a token from five minutes before its issue time
  until five minutes after its expiry. This is the default clock skew of
  `TokenValidationParameters`, which `Program.cs` does not change.

## Model

| member | source | states |
|---|---|---|
| TokenService.CodeUnits | Services/TokenService.cs:16 | a character below U+10000 is one UTF-16 code unit equal to it; any other character is a high surrogate followed by a low surrogate that together give the character back |
| TokenService.Utf16 | Services/TokenService.cs:16 | a string's UTF-16 form is at least as long as the string, exactly as long iff no character lies outside the Basic Multilingual Plane, and then its units are the characters |
| TokenService.AsciiBytes | Services/TokenService.cs:16 | the key has one byte per UTF-16 code unit of the secret (two for a character outside the Basic Multilingual Plane); every byte is 7-bit; a byte equals its unit exactly when the unit is ASCII, and every other unit, each surrogate included, becomes '?' |
| TokenService.AsciiRoundTrip | Program.cs:54 | decoding the key gives the secret back if and only if the secret is all ASCII |
| TokenService.KeyIgnoresNonAscii | Program.cs:54 | two secrets that agree on their ASCII characters and have, position by position, non-ASCII characters of the same UTF-16 width elsewhere give the same key |
| TokenService.SigningKey | Services/TokenService.cs:16 | the key is as long as the secret's UTF-16 form; for a secret within the Basic Multilingual Plane it has one byte per character: the character's code where it is ASCII, '?' where it is not |
| TokenService.GenerateToken | Services/TokenService.cs:13-31 | a token exists iff user name and email are non-null (which null is reported otherwise); claims are exactly [Name, Email, Role] with the user's values and the given role; nbf = iat = now; expiry − iat is two hours; the signature is `sign` of the payload under the secret's ASCII key |
| TokenService.IssuedClaims | Services/TokenService.cs:19-24 | an issued token has exactly three claims and exactly one value per claim type: the user name, the email and the role argument |
| TokenService.ValidateToken | Program.cs:63-69 | success returns the token's claims; success holds iff the signature is `sign` under the configured key, issuer and audience checks are off, and (with lifetime checking on) nbf ≤ exp and nbf − skew ≤ now ≤ exp + skew; InvalidLifetime iff the signature is good, lifetime checking is on and nbf lies after exp; InvalidSignature iff the signature differs from `sign` under the configured key; Expired iff the signature is good, nbf ≤ exp, nbf − skew ≤ now and exp < now − skew |
| Startup.BearerParameters | Program.cs:54-69 | the bearer validator accepts a token iff it is signed under the ASCII key of the same secret the issuer uses, its nbf is not after its exp, and the time lies within its nbf/exp window widened by the default five minutes on each side |
| Startup.IssuedTokenAccepted | Program.cs:54-69 | a token issued with the secret passes the bearer validator configured with the same secret iff issue − 5 min ≤ now ≤ issue + 2 h + 5 min, yields its issued claims, and is refused as Expired after that |
| Startup.OtherSecretRejected | Program.cs:54 | with a signer that separates distinct keys of one length up to the 64-byte HMAC block, a validator whose secret has the issuer's UTF-16 length and differs from it in an ASCII code unit refuses the token as InvalidSignature at any time |
| RefreshTokens.Insert | Controllers/UserController.cs:138-139 | insertion succeeds iff the key is new; it then adds exactly that row, keeps every other row, and grows the table by one |
| RefreshTokens.Find | Controllers/UserController.cs:226 | the lookup finds a row iff the key is in the table, and returns that row |
| RefreshTokens.UsableWindow | Controllers/UserController.cs:228 | a token accepted at one time is accepted at exactly the later times up to and including its expiry |
| RefreshTokens.BoundedLater | Controllers/UserController.cs:135 | a table with no row expiring more than 7 days after `now` keeps that property at every later time |
| RefreshTokens.InsertBounded | Controllers/UserController.cs:131-139 | a new row expiring `now` + 7 days keeps the table bounded, and is accepted at its expiry second and refused one second later |
| Controller.IssuePair | Controllers/UserController.cs:126-147 | a pair is issued iff the user has a role, name and email are non-null and the GUID is not a key; the access token is `GenerateToken` with the first role; exactly the row {guid, user id, now + 7 days} is added; every failure is a server error with the table unchanged, and no role gives NoRoleAssigned |
| Controller.Login | Controllers/UserController.cs:109-148 | NotFound iff the email is unknown; NoContent iff the email is known and the password rejected; a known email with an accepted password gets exactly `IssuePair` for that user; the table is unchanged unless a pair is returned, and a pair implies the password was accepted |
| Controller.Refresh | Controllers/UserController.cs:224-262 | Unauthorized iff the value is missing or its row expired strictly before now; NotFound iff it is usable but the owner is gone; a usable value whose owner exists gets exactly `IssuePair` for that owner; the table is unchanged unless a pair is returned; a pair uses a new key and keeps the presented row unchanged; when users are found by their own id, the new row is {owner of the presented row, now + 7 days} |
| Controller.LoginSucceeds | Controllers/UserController.cs:109-148 | a known user with an accepted password, a role, a name and an email, and a fresh GUID, gets a pair: the access token passes the bearer validator of the same secret with claims name, email and first role, and the refresh value finds a row expiring after now |
| Controller.RefreshSucceeds | Controllers/UserController.cs:224-262 | a usable refresh value whose owner exists with a role, a name and an email, and a fresh GUID, gets a pair whose access token passes the bearer validator and whose refresh value finds a row expiring after now |
| Controller.OnlyFirstRoleClaimed | Controllers/UserController.cs:126-129 | an issued access token claims exactly one role, the user's first: no other role the user holds is claimed |
| Controller.LoginTokenLifetime | Controllers/UserController.cs:135 | the refresh token from a login is refused as Unauthorized exactly at times more than 7 days after the login, and that refusal writes nothing |
| Controller.PresentedTokenReusable | Controllers/UserController.cs:245-253 | after a successful refresh, the same presented value passes the lookup and expiry check again at any time up to its expiry |
| Controller.IssuePairKeepsBounded | Controllers/UserController.cs:131-139 | issuing a pair at `now` keeps every row expiring within 7 days of `now` |
| Controller.ActionsKeepBounded | Controllers/UserController.cs:109-262 | if the clock has not gone back, login and refresh both keep every row expiring within 7 days of the current request |
| Controller.UserController.constructor | Controllers/UserController.cs:23-31 | a controller built for a request works on the refresh-token table as persisted so far, with the given secret and signer |
| Controller.UserController.IssueTokens | Controllers/UserController.cs:126-147 | the shared tail updates the controller's table and answers exactly as `IssuePair` on the old table |
| Controller.UserController.Authenticate | Controllers/UserController.cs:109-148 | the early-return method answers and updates the table exactly as `Login` on the old table |
| Controller.UserController.AtualizarToken | Controllers/UserController.cs:224-262 | the early-return method answers and updates the table exactly as `Refresh` on the old table |
| Identity.RolesOf | Controllers/UserController.cs:126 | `GetRolesAsync` answers the user's stored role list, and the empty list for a user without roles (on which `First()` throws) |
| Authorization.PolicyOf | Controllers/UserController.cs:59-220 | exactly the delete, employee and manager actions name roles; exactly AlterName, ForgotPassword and Authenticated need only a signed-in user; every named role is one start-up seeding creates, and manager is admitted wherever roles are named |
| Authorization.Authorize | Controllers/UserController.cs:202-220 | open actions always allow; a 401 challenge happens iff the action needs a token and none is valid; an allowed protected action had a valid token, and for a role list one of the listed roles among its claims; a 403 happens only on a role list when no listed role is claimed |
| Authorization.RoleDecisions | Controllers/UserController.cs:214-219 | for a token issued with one role and still valid: the employee action admits exactly employee and manager; the manager action admits exactly manager, and otherwise forbids; a bare [Authorize] action allows |
| Authorization.ExpiredTokenChallenged | Controllers/UserController.cs:80 | once a token is more than 2 h + 5 min old, every protected action answers 401 whatever its role, and open actions still allow |
| Authorization.InvertedLifetimeChallenged | Program.cs:63-69 | a correctly signed token whose nbf lies after its exp is refused as InvalidLifetime at any time, so every protected action answers 401 and open actions still allow |
| Startup.EnsureRoles | Program.cs:82-88 | the loop leaves the role set as the old set plus all visited names, and calls create for exactly the sequence `Created` describes |
| Startup.CreatedExactlyMissing | Program.cs:84-86 | a name is created iff it is visited and was not already a role, and no name is created twice |
| Startup.NothingCreatedIffPresent | Program.cs:84-86 | seeding creates nothing iff every visited name already exists |
| Startup.SeedRoles | Program.cs:81-88 | after seeding, the roles are the old ones plus manager and employee; only those of the two that were missing are created |
| Startup.SeedTwice | Program.cs:81-88 | seeding twice gives the same role set as seeding once and creates nothing the second time; both roles are present and nothing outside them is added |
| Sessions.Serve | Controllers/UserController.cs:109-262 | one request of either kind either leaves the table unchanged or adds exactly one row under the returned refresh value, expiring 7 days after the request |
| Sessions.Run | Controllers/UserController.cs:138-139 | after any sequence of requests every earlier row is still there unchanged; the new keys are exactly the refresh values handed out; none was a key before; no value was handed out twice |
| Sessions.RunKeepsBounded | Controllers/UserController.cs:249 | with a clock that never goes back, after any sequence of requests no row expires more than 7 days after the last request |
| Sessions.RowsSurvive | Controllers/UserController.cs:252-253 | every refresh value handed out in a sequence is a key of the final table and was not a key of the initial one |
| Sessions.AliceLogin | Controllers/UserController.cs:109-148 | worked session: login yields claims alice / alice@example.com / employee, a 2-hour token and one 7-day row; an hour later employee is allowed and manager forbidden |
| Sessions.AliceRefreshWindow | Controllers/UserController.cs:224-262 | worked session: the login's refresh row is accepted at 7 days and Unauthorized, with nothing written, at 8 days |
| Sessions.AliceRejected | Controllers/UserController.cs:112-124 | worked session: a wrong password gives NoContent and an unknown email NotFound, writing nothing |

## Left out

- The compact JWT encoding (RFC 7519) and the HMAC-SHA256 computation are not
  modelled. A token is its payload plus a signature produced by the parameter
  `sign`.
- Startup.OtherSecretRejected: the key separation it assumes holds only for
  keys of one length of at most 64 bytes. HMAC-SHA256 pads shorter keys with
  zero bytes and hashes keys longer than 64 bytes, so secrets such as "abc"
  and "abc" followed by a NUL character sign alike. Secrets of different
  UTF-16 lengths, or longer than 64 code units, are not covered.
- Password hashing and `CheckPasswordSignInAsync` are a boolean oracle on
  (user, password). Lockout is off in the source (`false`), so it has no state.
- EF Core, SQLite, `SaveChangesAsync` and async/await are left out. The table
  is a map that is updated atomically, and no concurrent requests are modelled.
- Each request reads the clock once, as `now`. The source reads
  `DateTime.UtcNow` separately for the expiry check, for the token and for the
  new row. Those reads differ by microseconds, and time is in whole seconds.
- `Guid.NewGuid()` is the parameter `guid`. Its string format and uniqueness
  are not modelled. A GUID that is already a key is not assumed away: it is the
  server-error path `DuplicateRefreshToken`, with nothing written.
- A users table whose `FindByIdAsync(id)` returned a user with another id is
  allowed by the model; the same-owner property of `Controller.Refresh` is
  stated for directories where it does not (`Identity.ConsistentIds`).
- How Identity looks users up (email normalization, `FindByEmailAsync`
  uniqueness) is reduced to maps by email and by id. Role-name normalization is
  not modelled, and neither is the comma-splitting of `Roles = "employee,manager"`:
  the attribute is modelled as its list of role names.
- The checks the JWT library makes on the key size and algorithm are not
  modelled. `Settings.Secret` is not part of this model and is a parameter.
- The endpoints `Create`, `GetAllAsync`, `GetUserByIdAsync`,
  `DeletedUserByIdAsync`, `AlterName`, `ForgotPassword` and `ResetPassword` are
  single calls into `UserManager`/`RoleManager`. Only their authorization
  attributes are modelled, in `Authorization.PolicyOf`.
- Swagger, HTTPS redirection, the middleware pipeline and the mapping of
  responses to HTTP statuses are left out. Responses are the datatype
  `Controller.Response`.
- `Responses/TokenResponse.cs` is never used by the code, so it is not
  modelled.
- `GenerateToken` reads no state. In the model it is a function of
  (user, role, now, secret, sign), so its result is determined by those inputs;
  this needs no separate lemma.
