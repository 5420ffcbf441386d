/** The token codec of utils/jwt.ts. Signing is abstract: a signed token
    records its claims, the key it was signed with, its issue second `iat`
    and its expiry second `exp`; anything else presented as a token is
    `Unsigned`. Times are milliseconds since the epoch, as `Date.now()`. */
module Jwt {
  import opened Base

  /** `expiresIn: '7d'` and `expiresIn: '30d'`, in seconds. */
  const AccessTtl: nat := 7 * 24 * 60 * 60
  const RefreshTtl: nat := 30 * 24 * 60 * 60
  /** The key used when `JWT_SECRET` is unset or empty. */
  const FallbackSecret: string := "fallback-secret"

  /** `JWTPayload`: access tokens carry a name, refresh tokens do not. */
  datatype Claims = Claims(userId: string, email: string, name: Option<string>)

  datatype Token =
    | Signed(claims: Claims, key: string, iat: int, exp: int)
    | Unsigned(raw: string)

  /** What `jwt.verify` returns or throws: the decoded claims, a
      `JsonWebTokenError`, or a `TokenExpiredError`. */
  datatype VerifyResult = Valid(claims: Claims) | InvalidToken | TokenExpired

  /** `process.env.JWT_SECRET || 'fallback-secret'`. */
  function SigningKey(jwtSecret: Option<string>): (key: string)
    ensures key != ""
    ensures Truthy(jwtSecret) ==> key == jwtSecret.value
    ensures !Truthy(jwtSecret) ==> key == FallbackSecret
  {
    if Truthy(jwtSecret) then jwtSecret.value else FallbackSecret
  }

  /** `Math.floor(Date.now() / 1000)`, the clock in whole seconds. */
  function Seconds(nowMs: int): int {
    nowMs / 1000
  }

  /** `jwt.verify(token, key)` at time `nowMs`: the signature is checked
      before the expiry, and a token is expired from its `exp` second on. */
  function VerifyToken(t: Token, key: string, nowMs: int): (r: VerifyResult)
    ensures r.Valid? <==> t.Signed? && t.key == key && Seconds(nowMs) < t.exp
    ensures r.Valid? ==> r.claims == t.claims
    ensures r == TokenExpired <==> t.Signed? && t.key == key && t.exp <= Seconds(nowMs)
  {
    match t
    case Unsigned(_) => InvalidToken
    case Signed(claims, k, _, exp) =>
      if k != key then InvalidToken
      else if Seconds(nowMs) >= exp then TokenExpired
      else Valid(claims)
  }

  function Sign(claims: Claims, key: string, nowMs: int, ttl: nat): Token {
    Signed(claims, key, Seconds(nowMs), Seconds(nowMs) + ttl)
  }

  /** `generateToken`: claims `{userId, email, name}`, valid for seven days. */
  function GenerateToken(userId: string, email: string, name: string, key: string, nowMs: int): (t: Token)
    ensures t.Signed? && t.key == key && t.iat == Seconds(nowMs)
    ensures t.claims == Claims(userId, email, Some(name))
    ensures t.exp == t.iat + AccessTtl
    ensures VerifyToken(t, key, nowMs) == Valid(t.claims)
  {
    Sign(Claims(userId, email, Some(name)), key, nowMs, AccessTtl)
  }

  /** `generateRefreshToken`: claims `{userId, email}`, valid for thirty days. */
  function GenerateRefreshToken(userId: string, email: string, key: string, nowMs: int): (t: Token)
    ensures t.Signed? && t.key == key && t.iat == Seconds(nowMs)
    ensures t.claims == Claims(userId, email, None)
    ensures t.exp == t.iat + RefreshTtl
    ensures VerifyToken(t, key, nowMs) == Valid(t.claims)
  {
    Sign(Claims(userId, email, None), key, nowMs, RefreshTtl)
  }

  /** An access token verifies under its own key with its own claims until
      seven days after the second it was issued in, and is expired from then on. */
  lemma AccessRoundTrip(userId: string, email: string, name: string, key: string, issuedMs: int, nowMs: int)
    ensures var t := GenerateToken(userId, email, name, key, issuedMs);
      VerifyToken(t, key, nowMs) ==
        if Seconds(nowMs) < Seconds(issuedMs) + AccessTtl then Valid(Claims(userId, email, Some(name)))
        else TokenExpired
  {
  }

  /** The same for refresh tokens, with thirty days. */
  lemma RefreshRoundTrip(userId: string, email: string, key: string, issuedMs: int, nowMs: int)
    ensures var t := GenerateRefreshToken(userId, email, key, issuedMs);
      VerifyToken(t, key, nowMs) ==
        if Seconds(nowMs) < Seconds(issuedMs) + RefreshTtl then Valid(Claims(userId, email, None))
        else TokenExpired
  {
  }

  /** Issued at the same instant, the refresh token outlives the access
      token, and between the two expiries only the refresh token verifies. */
  lemma RefreshOutlivesAccess(userId: string, email: string, name: string, key: string, issuedMs: int, nowMs: int)
    ensures GenerateRefreshToken(userId, email, key, issuedMs).exp
            > GenerateToken(userId, email, name, key, issuedMs).exp
    ensures GenerateToken(userId, email, name, key, issuedMs).exp <= Seconds(nowMs)
            < GenerateRefreshToken(userId, email, key, issuedMs).exp
            ==> VerifyToken(GenerateToken(userId, email, name, key, issuedMs), key, nowMs) == TokenExpired
                && VerifyToken(GenerateRefreshToken(userId, email, key, issuedMs), key, nowMs).Valid?
  {
  }

  /** A token signed under another key is an invalid token, never an expired
      one, whatever the time. */
  lemma WrongKeyIsInvalid(t: Token, key: string, nowMs: int)
    requires t.Signed? && t.key != key
    ensures VerifyToken(t, key, nowMs) == InvalidToken
  {
  }

  /** With `JWT_SECRET` unset or empty the key is the public literal, so a
      token anyone signs with "fallback-secret" verifies. */
  lemma FallbackKeyForgeable(claims: Claims, jwtSecret: Option<string>, issuedMs: int, nowMs: int)
    requires !Truthy(jwtSecret)
    requires Seconds(nowMs) < Seconds(issuedMs) + AccessTtl
    ensures VerifyToken(Sign(claims, "fallback-secret", issuedMs, AccessTtl), SigningKey(jwtSecret), nowMs) == Valid(claims)
  {
  }
}
