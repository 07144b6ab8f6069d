# Authentication and authorization core of an auth microservice, in Dafny

This project models the decision layer of a Rust auth microservice (axum,
with actix-web types in the v1 controllers, and sqlx). It covers five pieces:

- the `Role` enum and its `ROLE_*` wire strings;
- the role-based access check (`from_role`, `with_email`);
- recovery of the session cookie from a `Cookie` header (`extract_auth_cookie`);
- the guards and claim construction around password hashing, JWT issuance and
  verification, and the CSRF token generator;
- the row-count check used by the four UPDATE and DELETE calls of the user
  repository.

Library cryptography (Argon2 and its PHC strings, RFC 9106; JWT, RFC 7519;
SHA-256, FIPS 180-4), the random salt, the clock, the environment secrets and
the database query are all passed in as parameters. Function-typed parameters
stand for library calls. The properties are then proved for every choice of
those parameters.

Modules, one file each:

- `Wrappers`: `Option`, `Result`.
- `Machine`: `byte`, `u64`, `i64`, and the `as u64` cast.
- `Io`: the `std::io::Error` values the code builds.
- `Text`: `contains`, `split`, `trim`, `as_bytes` (UTF-8) and decimal rendering.
- `Hex`: lower-case base 16 as in section 8 of RFC 4648, with a decoder as its
  inverse.
- `Roles`, `AccessControl`, `SessionCookie`, `Crypto`, `Repository`: the core.

The model follows the code as written, including two behaviours a reader might
not expect:

- `with_email` compares the raw stored role strings with the granted strings.
  It does not parse them into `Role` values, and it does not skip unparseable
  ones.
- `extract_auth_cookie` takes the first `;`-segment that CONTAINS
  `Authorization`. This is not an exact cookie-name match.
  `SessionCookie.SubstringMatchAccepted` shows both a segment whose value
  mentions it (`foo=xAuthorizationy`) and one whose name embeds it
  (`xAuthorizationy=1`) being accepted.

`from_role`, `with_email` and `extract_auth_cookie` are loops in the source.
Here they are `while` loops in methods, each proved against a declarative
specification. `AccessControl.WithEmailAgreesWithFromRole` is a method too,
because it calls those two methods. Everything else is a function.

## Model

| member | source | states |
|---|---|---|
| `Roles.ToStr` | src/config/roles.rs:14-20 | every wire string starts with `ROLE_`; the three full strings are pinned by `Roles.WireStrings` |
| `Roles.Display` | src/config/roles.rs:23-32 | `Display`/`to_string` yields the same string as `to_str` for every role |
| `Roles.FromStr` | src/config/roles.rs:37-44 | a parsed role's wire string is exactly the input; on failure the error is `InvalidData` "Invalid Role" and no role has that wire string |
| `Roles.FromStrToStr` | src/config/roles.rs:37-41 | round trip: parsing `to_str(r)` gives `Ok(r)` for every role |
| `Roles.FromStrAcceptsExactlyWireStrings` | src/config/roles.rs:38-43 | `from_str(s)` succeeds iff `s` is the wire string of some role |
| `Roles.ToStrInjective` | src/config/roles.rs:14-20 | distinct roles have distinct wire strings |
| `Roles.WireStrings` | tests/specs/role.rs:4-32 | the three concrete wire strings; `INVALID_ROLE`, a leading space and lower case are all rejected |
| `AccessControl.FromRole` | src/services/access_control.rs:35-43 | `Authorized` iff some held role occurs in the granted list; otherwise `InvalidData` "Unauthorized" |
| `AccessControl.WithEmail` | src/services/access_control.rs:45-63 | failed lookup or NULL role column gives "User not found"; otherwise `Authorized` iff a stored role occurs in the granted list, else "Unauthorized" |
| `AccessControl.WithEmailAgreesWithFromRole` | src/services/access_control.rs:56-62 | once roles are found, `with_email` returns exactly what `from_role` returns on them |
| `AccessControl.NoRolesNoAccess` | src/services/access_control.rs:36-42 | an empty role list is never authorized |
| `AccessControl.HoldsGrantedRoleIffShared` | src/services/access_control.rs:36-40 | the decision is "the two lists share an element" (both directions) |
| `AccessControl.HoldsGrantedRoleOnlyElements` | src/services/access_control.rs:36-40 | order and duplicates in either list do not change the decision |
| `AccessControl.HoldsGrantedRoleMonotone` | src/services/access_control.rs:36-40 | adding held or granted roles never revokes access |
| `AccessControl.FromRoleTestCases` | tests/specs/access_control_test.rs:4-22 | `["ROLE_USER"]` against `["ROLE_USER"]` is granted; `["ROLE_INVALID"]` is not |
| `SessionCookie.ExtractAuthCookie` | src/controllers/v1/auth_controller.rs:231-260 | no header gives `NoHeader`; unreadable bytes give `NotVisibleAscii`; otherwise the result is the trimmed first `;`-segment containing `Authorization`, no earlier one contains it, or `NoAuthCookie` when none does; a success contains the marker, has no `;` and no edge whitespace |
| `SessionCookie.StatusCode` | src/controllers/v1/auth_controller.rs:235-259 | the unreadable-header error is the only 500 response; the other two are 401 |
| `SessionCookie.Message` | src/controllers/v1/auth_controller.rs:236-258 | every error has a non-empty JSON message: "Cookie is not set" (line 236), the header library's conversion error text (line 245), "Auth Cookie is not set" (line 258) |
| `SessionCookie.MessagesDistinguishErrors` | src/controllers/v1/auth_controller.rs:236-258 | no two errors share a message, so the two 401 responses differ in their bodies |
| `SessionCookie.HeaderText` | src/controllers/v1/auth_controller.rs:241-247 | the header converts to text iff every byte is visible ASCII or tab, one character per byte |
| `SessionCookie.TrimKeepsMarker` | src/controllers/v1/auth_controller.rs:251-252 | trimming a segment that contains `Authorization` keeps it |
| `SessionCookie.SubstringMatchAccepted` | src/controllers/v1/auth_controller.rs:251 | a segment that only embeds `Authorization` inside other text, in its value or in its name, still matches |
| `Text.Contains` | src/controllers/v1/auth_controller.rs:251 | `contains`, computed by scanning start positions from the left, is true iff the pattern occurs at some index |
| `Text.Split` | src/controllers/v1/auth_controller.rs:250 | `split(';')` gives at least one piece, no piece holds `;`, and joining the pieces with `;` gives back the text |
| `Text.SplitJoin` | src/controllers/v1/auth_controller.rs:250 | splitting is the inverse of joining separator-free pieces |
| `Text.Trim` | src/controllers/v1/auth_controller.rs:252 | `trim` returns a slice of its input from which only whitespace was cut at the two ends, and no whitespace is left at either end; trimmed text is unchanged |
| `Text.TrimKeepsOccurrence` | src/controllers/v1/auth_controller.rs:252 | trimming keeps any occurrence of a pattern that starts and ends with non-whitespace |
| `Text.Utf8` | src/services/crypto.rs:100 | `as_bytes` yields at least one and at most four bytes per character of the string, in total |
| `Text.Utf8Append` | src/services/crypto.rs:98-100 | the bytes of a concatenation are the concatenation of the bytes |
| `Text.Utf8Ascii` | src/services/crypto.rs:100 | ASCII text encodes as one byte per character, equal to the character's code |
| `Text.Utf8Injective` | src/services/crypto.rs:100 | distinct strings have distinct UTF-8 bytes |
| `Text.Decimal` | src/services/crypto.rs:98 | the decimal rendering starts with `-` iff the number is negative, and is digits only otherwise |
| `Text.DecimalInjective` | src/services/crypto.rs:98 | distinct timestamps render as distinct decimal strings |
| `Hex.Encode` | src/services/crypto.rs:102 | `hex::encode` yields two lower-case hex digits per byte |
| `Hex.DecodeEncode` | src/services/crypto.rs:102 | decoding recovers every encoded byte sequence |
| `Hex.EncodeInjective` | src/services/crypto.rs:102 | distinct digests give distinct hex strings |
| `Crypto.HashPassword` | src/services/crypto.rs:21-31 | empty password gives `PhcStringField`; otherwise the Argon2 result for the password's UTF-8 bytes and the given salt |
| `Crypto.HashEmptyPasswordUsesNoSalt` | src/services/crypto.rs:21-26 | for the empty password the result depends on neither salt nor hasher |
| `Crypto.CheckPassword` | src/services/crypto.rs:33-43 | empty password or hash gives `PhcStringField`; an unparseable hash gives the parser's error; a parsed hash gives `Ok(matches)` |
| `Crypto.CheckPasswordErrorsOnlyOnBadInput` | src/services/crypto.rs:33-43 | every error comes from the guard or the parser; a mismatch is never an error |
| `Crypto.IssuedClaims` | src/services/crypto.rs:60-63 | `sub` is the email and `exp` is `now + 1728000` (twenty days) for every in-range clock reading |
| `Crypto.GenerateJwt` | src/services/crypto.rs:53-76 | empty email gives `InvalidIssuer`; otherwise the issued claims are encoded under the default HS256 header with the secret's bytes |
| `Crypto.VerifyJwt` | src/services/crypto.rs:78-92 | empty token gives `InvalidToken`; otherwise success iff `decode` succeeds under the default validation, returning its claims, or else its error |
| `Crypto.VerifyEmptyTokenIgnoresSecret` | src/services/crypto.rs:78-84 | the empty token is refused whatever the secret and the decoder |
| `Crypto.IssueThenVerify` | tests/specs/jwt_test.rs:33-47 | with a decoder assumed to accept what the encoder produced, verifying an issued token gives claims whose `sub` is the email; only the wiring from `IssuedClaims` through `VerifyJwt` is checked |
| `Crypto.CsrfPreimage` | src/services/crypto.rs:98 | the hashed text ends with the secret, after a non-empty timestamp |
| `Crypto.GenerateCsrfToken` | src/services/crypto.rs:96-103 | error iff the secret is missing; otherwise 64 lower-case hex digits that decode to SHA-256 of the decimal timestamp followed by the secret |
| `Crypto.CsrfTokenDependsOnlyOnPreimage` | tests/specs/csrf_test.rs:27-33 | the same timestamp and secret (indeed the same hashed text) give the same token |
| `Crypto.CsrfPreimageSeparatesSeconds` | src/services/crypto.rs:98-100 | with a fixed secret, different seconds give different texts and different bytes to the hasher |
| `Machine.AsU64` | src/services/crypto.rs:62 | the `as u64` cast keeps values already in range and otherwise reduces modulo 2^64 |
| `Repository.IsRowAffected` | src/repository/mod.rs:19-25 | `Ok(())` iff the affected count equals the expected one, else `RowNotFound` and no other error |
| `Repository.ExactlyOneRow` | src/repository/user_repository.rs:74-108 | with expected count 1, zero rows and two or more rows are both `RowNotFound` |

## Left out

- Argon2, JWT signing and SHA-256 internals are function-typed parameters.
  Salt randomness, constant-time comparison and signature soundness are not
  modelled.
- Crypto.HashPassword: does not state that two hashes of one password differ,
  or that both verify. Both facts are properties of the Argon2 library.
- Crypto.CheckPassword: whether a given text such as `invalid_hash` parses is
  decided by the `parse` parameter, so the test on it is not reproduced.
- Crypto.VerifyJwt: does not state that a token signed with another secret is
  rejected, or that an expired token is rejected. Both are decided inside
  `decode`. `Validation::default()` is carried as a value and not interpreted.
- Crypto.IssuedClaims: `exp` is the wrapped sum cast to `u64` (release-mode
  arithmetic). The debug-build overflow panic is not modelled; it happens only
  for clock readings within twenty days of the `i64` maximum.
- Environment reads (`JWT_SECRET`, `CSRF_SECRET`) and the clocks (`Utc::now`,
  `Local::now`) are parameters. `generate_jwt` and `verify_jwt` read
  `JWT_SECRET` on each call, after the empty-input guard, and panic when it is
  unset. The model takes the secret as a present string, so this panic is not
  modelled.
- The test `tests/specs/csrf_test.rs:14-25` sleeps only 800 ms between its
  two calls, so both can fall in the same second and give equal tokens.
  `Crypto.CsrfPreimageSeparatesSeconds` covers only different seconds.
- `with_cookie`, called by the user handlers, is not defined in the code's
  `GrantAccess` trait, so there is no source to model. The cookie-to-decision
  chain is therefore not modelled either.
- The database query in `with_email` is a `store` function from email to
  lookup outcome. Its async execution and the different kinds of database
  failure (all collapsed to `Failed`) are not modelled.
- The HTTP responses of `extract_auth_cookie` are `CookieError` values, with
  their status (`StatusCode`) and body text (`Message`). The response
  building is not modelled. The text for `NotVisibleAscii` comes from the
  header library's error.
- HTTP handlers, login/logout, cookie attributes, the SQL repository methods,
  database setup, migrations, super-admin seeding and `main` are framework
  and I/O glue, and are not modelled.
