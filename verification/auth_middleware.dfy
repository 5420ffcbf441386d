/** The session guards of src/middleware/auth.ts as decision functions.
    Parsing a wire token into its signed content (`jwt.verify`'s decoding)
    and `User.findById` are parameters; the signature and expiry check is
    `Jwt.VerifyToken` under the key and clock the caller supplies. */
module AuthMiddleware {
  import opened Base
  import opened Text
  import Jwt
  import opened User

  /** The two places a token can arrive: the `token` cookie and the
      `Authorization` header. */
  datatype Request = Request(cookieToken: Option<string>, authorization: Option<string>)

  /** `User.findById`: a record, none, or a thrown error (a malformed id
      makes Mongoose throw a cast error). */
  datatype Lookup = Found(user: UserRecord) | NoUser | LookupFailed

  datatype GuardError =
    | MissingToken    // 401 "Access token is required"
    | BadToken        // 401 "Invalid token"
    | ExpiredToken    // 401 "Token expired"
    | UnknownUser     // 401 "User not found"
    | UnverifiedUser  // 401 "Please verify your email first"
    | AuthFailed      // 500 "Authentication failed"

  /** Every refusal is a 401 except a failed lookup, which the catch
      answers with 500. */
  function GuardStatus(e: GuardError): (status: int)
    ensures status == 500 <==> e == AuthFailed
    ensures status != 500 ==> status == 401
  {
    if e == AuthFailed then 500 else 401
  }

  /** Either the user is attached and `next` runs, or the request is
      answered with an error and `next` never runs. */
  datatype Verdict = Attach(user: UserRecord) | Reject(error: GuardError)

  /** `authorization?.split(' ')[1]`: present exactly when the header
      holds a space. */
  function BearerToken(authorization: Option<string>): (t: Option<string>)
    ensures t.Some? <==> authorization.Some? && ' ' in authorization.value
    ensures t.Some? ==> ' ' !in t.value
  {
    if authorization.Some? then SecondField(authorization.value) else None
  }

  /** `req.cookies.token || req.headers.authorization?.split(' ')[1]`,
      with a falsy result (absent or empty) as `None`. */
  function ExtractToken(req: Request): (t: Option<string>)
    ensures t.Some? <==> Truthy(req.cookieToken) || Truthy(BearerToken(req.authorization))
    ensures t.Some? ==> t.value != ""
    ensures Truthy(req.cookieToken) ==> t == req.cookieToken
    ensures !Truthy(req.cookieToken) && t.Some? ==> t == BearerToken(req.authorization)
  {
    if Truthy(req.cookieToken) then req.cookieToken
    else if Truthy(BearerToken(req.authorization)) then BearerToken(req.authorization)
    else None
  }

  /** What happens once a token string is in hand: verification first
      (its two error kinds map to 401s), then the lookup by the token's
      `userId`, then the verified flag. */
  function CheckToken(token: string, decode: string -> Jwt.Token, key: string, nowMs: int,
                      findById: string -> Lookup): (v: Verdict)
    ensures var r := Jwt.VerifyToken(decode(token), key, nowMs);
            && (r == Jwt.InvalidToken ==> v == Reject(BadToken))
            && (r == Jwt.TokenExpired ==> v == Reject(ExpiredToken))
            && (r.Valid? && findById(r.claims.userId) == NoUser ==> v == Reject(UnknownUser))
            && (r.Valid? && findById(r.claims.userId) == LookupFailed ==> v == Reject(AuthFailed))
            && (r.Valid? && findById(r.claims.userId).Found? && !findById(r.claims.userId).user.isVerified
                ==> v == Reject(UnverifiedUser))
            && (v.Attach? <==> r.Valid? && findById(r.claims.userId).Found?
                               && findById(r.claims.userId).user.isVerified)
            && (v.Attach? ==> v.user == findById(r.claims.userId).user)
    ensures v.Reject? ==> v.error != MissingToken
  {
    match Jwt.VerifyToken(decode(token), key, nowMs)
    case InvalidToken => Reject(BadToken)
    case TokenExpired => Reject(ExpiredToken)
    case Valid(claims) =>
      match findById(claims.userId)
      case LookupFailed => Reject(AuthFailed)
      case NoUser => Reject(UnknownUser)
      case Found(u) => if !u.isVerified then Reject(UnverifiedUser) else Attach(u)
  }

  /** `authenticateToken`: no token is a 401 before anything else is
      tried; otherwise the token is checked. An attached user is always a
      verified one. */
  function AuthenticateToken(req: Request, decode: string -> Jwt.Token, key: string, nowMs: int,
                             findById: string -> Lookup): (v: Verdict)
    ensures v == Reject(MissingToken) <==> ExtractToken(req).None?
    ensures ExtractToken(req).Some? ==> v == CheckToken(ExtractToken(req).value, decode, key, nowMs, findById)
    ensures v.Attach? ==> v.user.isVerified
  {
    match ExtractToken(req)
    case None => Reject(MissingToken)
    case Some(token) => CheckToken(token, decode, key, nowMs, findById)
  }

  /** `optionalAuth`: reads only the header; attaches a found, verified
      user and otherwise carries on without one. It never rejects. */
  function OptionalAuth(req: Request, decode: string -> Jwt.Token, key: string, nowMs: int,
                        findById: string -> Lookup): (u: Option<UserRecord>)
    ensures u.Some? ==> u.value.isVerified
    ensures !Truthy(BearerToken(req.authorization)) ==> u.None?
  {
    var token := BearerToken(req.authorization);
    if !Truthy(token) then None
    else
      match Jwt.VerifyToken(decode(token.value), key, nowMs)
      case Valid(claims) =>
        (match findById(claims.userId)
         case Found(user) => if user.isVerified then Some(user) else None
         case _ => None)
      case _ => None
  }

  // ---------------------------------------------------------------------
  // Properties

  /** A header `"Bearer " + t`, for a non-empty `t` without spaces, yields
      `t` as the token when no cookie is sent. */
  lemma BearerHeaderToken(t: string)
    requires t != "" && ' ' !in t
    ensures BearerToken(Some("Bearer " + t)) == Some(t)
    ensures ExtractToken(Request(None, Some("Bearer " + t))) == Some(t)
  {
    var header := "Bearer " + t;
    assert header == "Bearer" + [' '] + t;
    SplitJoin(["Bearer", t], ' ');
    assert Join(["Bearer", t], ' ') == header;
  }

  /** A truthy cookie decides the outcome; the header is then ignored. */
  lemma CookieTakesPrecedence(req: Request, header: Option<string>, decode: string -> Jwt.Token, key: string,
                              nowMs: int, findById: string -> Lookup)
    requires Truthy(req.cookieToken)
    ensures AuthenticateToken(req, decode, key, nowMs, findById)
            == AuthenticateToken(req.(authorization := header), decode, key, nowMs, findById)
  {
  }

  /** `optionalAuth` never looks at the cookie. */
  lemma OptionalAuthIgnoresCookie(req: Request, cookie: Option<string>, decode: string -> Jwt.Token, key: string,
                                  nowMs: int, findById: string -> Lookup)
    ensures OptionalAuth(req, decode, key, nowMs, findById)
            == OptionalAuth(req.(cookieToken := cookie), decode, key, nowMs, findById)
  {
  }

  /** `optionalAuth` attaches a user exactly when `authenticateToken`,
      shown the same request without its cookie, would attach that same
      user; every rejection of the strict guard becomes "no user". */
  lemma OptionalAuthIsLenientGuard(req: Request, decode: string -> Jwt.Token, key: string,
                                   nowMs: int, findById: string -> Lookup)
    ensures var strict := AuthenticateToken(req.(cookieToken := None), decode, key, nowMs, findById);
            && (OptionalAuth(req, decode, key, nowMs, findById).Some? <==> strict.Attach?)
            && (strict.Attach? ==> OptionalAuth(req, decode, key, nowMs, findById) == Some(strict.user))
  {
    var bare := req.(cookieToken := None);
    assert ExtractToken(bare) == (if Truthy(BearerToken(req.authorization)) then BearerToken(req.authorization) else None);
  }
}
