/** Password hashing, session tokens and anti-forgery tokens. The cryptography
    itself (Argon2 with PHC strings per RFC 9106, JWT per RFC 7519, SHA-256 per
    FIPS 180-4) lives in libraries: each library call is a function-typed
    parameter here, and so are the random salt, the clock and the secrets. What
    is modelled is the logic around those calls. */
module Crypto {
  import opened Wrappers
  import opened Machine
  import Text
  import Hex

  // ================================================================ hashing

  /** `password_hash::Error`, without the payloads of its variants. */
  datatype PasswordHashError =
    | Algorithm | B64Encoding | Crypto | OutputSize | ParamNameDuplicated
    | ParamNameInvalid | ParamValueInvalid | ParamsMaxExceeded | Password
    | PhcStringField | PhcStringTrailingData | SaltInvalid | Version

  /** A salt as `SaltString::generate(OsRng)` produces it: B64 text. */
  type Salt = string

  /** `Hash::hash_password`. `salt` is the fresh random salt and `argon2Hash`
      is `Argon2::default().hash_password` followed by `to_string`. An empty
      password is refused before either is used. */
  function HashPassword(password: string, salt: Salt,
                        argon2Hash: (seq<byte>, Salt) -> Result<string, PasswordHashError>)
    : (r: Result<string, PasswordHashError>)
    ensures password == "" ==> r == Err(PhcStringField)
    ensures password != "" ==> r == argon2Hash(Text.Utf8(password), salt)
  {
    if password == "" then Err(PhcStringField)
    else argon2Hash(Text.Utf8(password), salt)
  }

  /** For the empty password the outcome depends on neither the salt nor the
      hasher: no salt is drawn and nothing is hashed. */
  lemma HashEmptyPasswordUsesNoSalt(salt1: Salt, salt2: Salt,
                                    h1: (seq<byte>, Salt) -> Result<string, PasswordHashError>,
                                    h2: (seq<byte>, Salt) -> Result<string, PasswordHashError>)
    ensures HashPassword("", salt1, h1) == HashPassword("", salt2, h2) == Err(PhcStringField)
  {
  }

  /** `Hash::check_password`, generic in the parsed-hash type `H`. `parse` is
      `PasswordHash::new` and `argon2Verify` is `Argon2::default().verify_password`.
      Empty inputs are refused; a hash that does not parse is an error; once it
      parses, the answer is `Ok(matches)`, so a wrong password is `Ok(false)`. */
  function CheckPassword<H>(password: string, hash: string,
                            parse: string -> Result<H, PasswordHashError>,
                            argon2Verify: (seq<byte>, H) -> Result<(), PasswordHashError>)
    : (r: Result<bool, PasswordHashError>)
    ensures password == "" || hash == "" ==> r == Err(PhcStringField)
    ensures password != "" && hash != "" && parse(hash).Err? ==> r == Err(parse(hash).error)
    ensures password != "" && hash != "" && parse(hash).Ok? ==>
      r == Ok(argon2Verify(Text.Utf8(password), parse(hash).value).Ok?)
  {
    if password == "" || hash == "" then Err(PhcStringField)
    else
      match parse(hash)
      case Err(e) => Err(e)
      case Ok(parsed) => Ok(argon2Verify(Text.Utf8(password), parsed).Ok?)
  }

  /** The only errors `check_password` reports are the empty-input guard and a
      hash that does not parse: a failed verification is never an error. */
  lemma CheckPasswordErrorsOnlyOnBadInput<H>(password: string, hash: string,
                                             parse: string -> Result<H, PasswordHashError>,
                                             argon2Verify: (seq<byte>, H) -> Result<(), PasswordHashError>)
    requires CheckPassword(password, hash, parse, argon2Verify).Err?
    ensures password == "" || hash == "" || parse(hash).Err?
  {
  }

  // ================================================================ JWT

  /** `jsonwebtoken::Algorithm`. */
  datatype JwtAlgorithm = HS256 | HS384 | HS512 | ES256 | ES384 | RS256 | RS384 | RS512
                        | PS256 | PS384 | PS512 | EdDSA

  /** `jsonwebtoken::errors::ErrorKind`, without payloads. */
  datatype JwtError =
    | InvalidToken | InvalidSignature | InvalidEcdsaKey | InvalidRsaKey | RsaFailedSigning
    | InvalidAlgorithmName | InvalidKeyFormat | MissingRequiredClaim | ExpiredSignature
    | InvalidIssuer | InvalidAudience | InvalidSubject | ImmatureSignature | InvalidAlgorithm
    | MissingAlgorithm | Base64 | Json | Utf8 | Crypto

  /** The JOSE header fields that are set; every other field is absent. */
  datatype JwtHeader = JwtHeader(typ: Option<string>, alg: JwtAlgorithm)

  /** `Header::default()`: type "JWT", algorithm HS256 (section 3.2 of RFC 7518). */
  const DEFAULT_HEADER: JwtHeader := JwtHeader(Some("JWT"), HS256)

  /** The parts of `Validation::default()` that are not empty: only HS256 is
      accepted, the `exp` claim is required and checked, with 60 s of leeway. */
  datatype Validation = Validation(algorithms: seq<JwtAlgorithm>, requiredClaims: seq<string>,
                                   validateExp: bool, leeway: nat)

  const DEFAULT_VALIDATION: Validation := Validation([HS256], ["exp"], true, 60)

  /** The signed payload: subject (the user's email) and expiry (Unix seconds). */
  datatype Claims = Claims(sub: string, exp: u64)

  /** `TokenData<Claims>` as `decode` returns it. */
  datatype TokenData = TokenData(header: JwtHeader, claims: Claims)

  /** Session lifetime: 3600 * 24 * 20 seconds, twenty days. */
  const TOKEN_LIFETIME: int := 3600 * 24 * 20

  /** The claims issued for `email` at Unix time `now`. `exp` is
      `(now + TOKEN_LIFETIME) as u64` over an `i64` clock: for every clock value
      in range it is exactly twenty days later. */
  function IssuedClaims(email: string, now: i64): (c: Claims)
    ensures c.sub == email
    ensures 0 <= now && now + TOKEN_LIFETIME <= I64_MAX ==> c.exp == now + TOKEN_LIFETIME
  {
    Claims(email, AsU64(now + TOKEN_LIFETIME))
  }

  /** `Jwt::generate_jwt` with the clock reading `now` and the `JWT_SECRET`
      value `secret`; `encode` is `jsonwebtoken::encode`. */
  function GenerateJwt(email: string, now: i64, secret: string,
                       encode: (JwtHeader, Claims, seq<byte>) -> Result<string, JwtError>)
    : (r: Result<string, JwtError>)
    ensures email == "" ==> r == Err(InvalidIssuer)
    ensures email != "" ==>
      r == encode(DEFAULT_HEADER, IssuedClaims(email, now), Text.Utf8(secret))
  {
    if email == "" then Err(InvalidIssuer)
    else encode(DEFAULT_HEADER, IssuedClaims(email, now), Text.Utf8(secret))
  }

  /** `Jwt::verify_jwt` with the `JWT_SECRET` value `secret`; `decode` is
      `jsonwebtoken::decode::<Claims>`. Only the claims are returned. */
  function VerifyJwt(token: string, secret: string,
                     decode: (string, seq<byte>, Validation) -> Result<TokenData, JwtError>)
    : (r: Result<Claims, JwtError>)
    ensures token == "" ==> r == Err(InvalidToken)
    ensures token != "" ==>
      var d := decode(token, Text.Utf8(secret), DEFAULT_VALIDATION);
      && (r.Ok? <==> d.Ok?)
      && (r.Ok? ==> r.value == d.value.claims)
      && (r.Err? ==> r.error == d.error)
  {
    if token == "" then Err(InvalidToken)
    else
      match decode(token, Text.Utf8(secret), DEFAULT_VALIDATION)
      case Ok(data) => Ok(data.claims)
      case Err(e) => Err(e)
  }

  /** The empty token is refused without consulting the secret or the decoder. */
  lemma VerifyEmptyTokenIgnoresSecret(secret1: string, secret2: string,
                                      d1: (string, seq<byte>, Validation) -> Result<TokenData, JwtError>,
                                      d2: (string, seq<byte>, Validation) -> Result<TokenData, JwtError>)
    ensures VerifyJwt("", secret1, d1) == VerifyJwt("", secret2, d2) == Err(InvalidToken)
  {
  }

  /** Issuing then verifying with the same secret gives back the issued claims,
      provided the library's `decode` accepts what its `encode` produced (a
      non-empty token) for this secret, before expiry. The library's part is
      assumed in the requires, so this checks only the wiring around it: the
      `sub` built by `IssuedClaims` reaches the caller of `VerifyJwt` unchanged. */
  lemma IssueThenVerify(email: string, now: i64, secret: string,
                        encode: (JwtHeader, Claims, seq<byte>) -> Result<string, JwtError>,
                        decode: (string, seq<byte>, Validation) -> Result<TokenData, JwtError>,
                        token: string)
    requires email != ""
    requires encode(DEFAULT_HEADER, IssuedClaims(email, now), Text.Utf8(secret)) == Ok(token)
    requires token != ""
    requires decode(token, Text.Utf8(secret), DEFAULT_VALIDATION)
             == Ok(TokenData(DEFAULT_HEADER, IssuedClaims(email, now)))
    ensures GenerateJwt(email, now, secret, encode) == Ok(token)
    ensures VerifyJwt(token, secret, decode).Ok?
    ensures VerifyJwt(token, secret, decode).value.sub == email
  {
  }

  // ================================================================ CSRF

  /** A SHA-256 digest: 32 bytes. */
  type Digest = d: seq<byte> | |d| == 32 witness seq(32, _ => 0)

  /** `sha2::digest::block_buffer::Error`, which the source reuses to report a
      missing or non-Unicode `CSRF_SECRET`. */
  datatype BlockBufferError = BlockBufferError

  /** The text that is hashed: the decimal timestamp followed by the secret. */
  function CsrfPreimage(ts: i64, secret: string): (s: string)
    ensures |s| > |secret| && s[|s| - |secret|..] == secret
  {
    Text.Decimal(ts) + secret
  }

  /** `CSRFTokenService::generate_csrf_token` at clock reading `ts` (seconds);
      `secret` is the `CSRF_SECRET` value, `None` when it is unset or not
      Unicode, and `sha256` is one update-then-finalize pass of `Sha256`. */
  function GenerateCsrfToken(ts: i64, secret: Option<string>, sha256: seq<byte> -> Digest)
    : (r: Result<string, BlockBufferError>)
    ensures r.Err? <==> secret.None?
    ensures r.Ok? ==> |r.value| == 64
    ensures r.Ok? ==> forall k :: 0 <= k < |r.value| ==> Hex.IsLowerHexDigit(r.value[k])
    ensures r.Ok? ==> Hex.Decode(r.value) == Some(sha256(Text.Utf8(CsrfPreimage(ts, secret.value))))
  {
    match secret
    case None => Err(BlockBufferError)
    case Some(s) =>
      var digest := sha256(Text.Utf8(CsrfPreimage(ts, s)));
      Hex.DecodeEncode(digest);
      Ok(Hex.Encode(digest))
  }

  /** The token is a function of the hashed text alone: two calls whose
      timestamp and secret spell the same text give the same token, in
      particular two calls in the same second with the same secret. */
  lemma CsrfTokenDependsOnlyOnPreimage(ts1: i64, s1: string, ts2: i64, s2: string,
                                       sha256: seq<byte> -> Digest)
    requires CsrfPreimage(ts1, s1) == CsrfPreimage(ts2, s2)
    ensures GenerateCsrfToken(ts1, Some(s1), sha256) == GenerateCsrfToken(ts2, Some(s2), sha256)
  {
  }

  /** With the secret fixed, distinct seconds give distinct hashed texts and
      distinct bytes fed to the hasher, so tokens from different seconds
      differ unless SHA-256 collides. */
  lemma CsrfPreimageSeparatesSeconds(ts1: i64, ts2: i64, secret: string)
    requires ts1 != ts2
    ensures CsrfPreimage(ts1, secret) != CsrfPreimage(ts2, secret)
    ensures Text.Utf8(CsrfPreimage(ts1, secret)) != Text.Utf8(CsrfPreimage(ts2, secret))
  {
    if CsrfPreimage(ts1, secret) == CsrfPreimage(ts2, secret) {
      var p := CsrfPreimage(ts1, secret);
      assert Text.Decimal(ts1) == p[..|p| - |secret|] == Text.Decimal(ts2);
      Text.DecimalInjective(ts1, ts2);
    }
    if Text.Utf8(CsrfPreimage(ts1, secret)) == Text.Utf8(CsrfPreimage(ts2, secret)) {
      Text.Utf8Injective(CsrfPreimage(ts1, secret), CsrfPreimage(ts2, secret));
    }
  }
}
