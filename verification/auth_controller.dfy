/** The handlers of src/controllers/authController.ts as transitions
    (store, request, environment) -> (reply, store'). Mail delivery, the
    Google code exchange, the clock, `Math.random`, ObjectId allocation and
    the bcrypt salt arrive in `Env` or as inputs. */
module AuthController {
  import opened Base
  import opened Text
  import Otp
  import Jwt
  import opened User

  /** `3 * 24 * 60 * 60 * 1000`: lifetime of the `token` cookie. */
  const CookieLifetimeMs: nat := 3 * 24 * 60 * 60 * 1000
  const GoogleDefaultName: string := "Google User"

  /** The `user` object of the success payloads. */
  datatype Summary = Summary(id: UserId, name: string, email: string, isVerified: bool)

  function SummaryOf(u: UserRecord): Summary {
    Summary(u.id, u.name, u.email, u.isVerified)
  }

  /** The `token` cookie (httpOnly, secure, SameSite=None, path "/"). */
  datatype Cookie = Cookie(token: Jwt.Token, expires: int)

  datatype AuthError =
    | UserExists             // "User already exists with this email"
    | InvalidOrExpiredOtp    // "Invalid or expired OTP"
    | NotFoundOrVerified     // "User not found or already verified"
    | UserNotFound           // "User not found"
    | EmailNotVerified       // "Please verify your email first"
    | InvalidCredentials     // "Invalid email or password"
    | InvalidGoogleToken     // "Invalid token"
    | GoogleEmailNotVerified // "Email not verified"
    | Internal               // any thrown error, caught and answered with 500

  /** The status each refusal is answered with: every error but a thrown
      one is the client's (4xx); credentials that do not open a session
      are 401, a missing or already verified user is 404. */
  function ErrorStatus(e: AuthError): (status: int)
    ensures 400 <= status < 500 <==> e != Internal
    ensures status == 500 <==> e == Internal
    ensures status == 401 <==> e in {EmailNotVerified, InvalidCredentials}
    ensures status == 404 <==> e in {NotFoundOrVerified, UserNotFound}
    ensures status == 400 <==> e in {UserExists, InvalidOrExpiredOtp, InvalidGoogleToken, GoogleEmailNotVerified}
  {
    match e
    case UserExists => 400
    case InvalidOrExpiredOtp => 400
    case NotFoundOrVerified => 404
    case UserNotFound => 404
    case EmailNotVerified => 401
    case InvalidCredentials => 401
    case InvalidGoogleToken => 400
    case GoogleEmailNotVerified => 400
    case Internal => 500
  }

  datatype Reply =
    | Registered(userId: UserId, email: string, name: string)
      /** The access token is generated but neither returned nor set as a cookie. */
    | OtpVerified(user: Summary, refreshToken: Jwt.Token)
    | OtpSent
    | SignedIn(user: Summary, refreshToken: Jwt.Token, cookie: Cookie)
    | Failed(error: AuthError)

  /** The HTTP status of a reply: 201 only for a registration, 200 for the
      other successes, the error's status for a refusal. */
  function Status(r: Reply): (status: int)
    ensures status >= 400 <==> r.Failed?
    ensures r.Failed? ==> status == ErrorStatus(r.error)
    ensures status == 201 <==> r.Registered?
    ensures status == 200 <==> r.OtpVerified? || r.OtpSent? || r.SignedIn?
  {
    match r
    case Registered(_, _, _) => 201
    case Failed(e) => ErrorStatus(e)
    case _ => 200
  }

  datatype Step = Step(reply: Reply, store: UserStore)

  /** What one request sees of the outside world: the clock (ms), the
      random draw behind `generateOTP`, the id MongoDB assigns to a created
      document, the bcrypt salt, whether the mail server accepted the
      message, and the `JWT_SECRET` setting. */
  datatype Env = Env(now: int, draw: int, freshId: UserId, salt: nat, mailDelivered: bool, jwtSecret: Option<string>)

  predicate ValidDraw(env: Env) {
    0 <= env.draw < Otp.OtpSpan
  }

  /** Access token, refresh token and cookie for a successful sign-in. */
  function SignIn(u: UserRecord, env: Env): (r: Reply)
    ensures r.SignedIn? && r.user == SummaryOf(u) && r.cookie.expires == env.now + CookieLifetimeMs
    ensures Jwt.VerifyToken(r.cookie.token, Jwt.SigningKey(env.jwtSecret), env.now)
            == Jwt.Valid(Jwt.Claims(u.id, u.email, Some(u.name)))
    ensures Jwt.VerifyToken(r.refreshToken, Jwt.SigningKey(env.jwtSecret), env.now)
            == Jwt.Valid(Jwt.Claims(u.id, u.email, None))
  {
    var key := Jwt.SigningKey(env.jwtSecret);
    var token := Jwt.GenerateToken(u.id, u.email, u.name, key, env.now);
    var refresh := Jwt.GenerateRefreshToken(u.id, u.email, key, env.now);
    SignedIn(SummaryOf(u), refresh, Cookie(token, env.now + CookieLifetimeMs))
  }

  // ---------------------------------------------------------------------
  // registerUser

  /** The inputs `User.create` accepts for a registration. */
  predicate RegistrationFits(name: string, email: string, password: string) {
    Trim(name) != "" && |Trim(name)| <= NameMaxLength
    && NormalizeEmail(email) != "" && MatchesEmailPattern(NormalizeEmail(email))
    && |password| >= PasswordMinLength
  }

  /** The record a registration creates. */
  ghost predicate IsNewRegistration(u: UserRecord, name: string, email: string, password: string, env: Env)
    requires ValidDraw(env)
  {
    && u.id == env.freshId && u.name == Trim(name) && u.email == NormalizeEmail(email)
    && !u.isVerified && !u.isGoogleUser && u.googleId.None?
    && u.otp == Some(Otp.GenerateOtp(env.draw)) && u.otpExpires == Some(env.now + Otp.OtpLifetimeMs)
    && (forall c :: ComparePassword(u, c) <==> c == password)
    && u.createdAt == env.now && u.updatedAt == env.now
  }

  /** The `User.create` call of `registerUser`: a fresh OTP with its
      ten-minute expiry, both flags false, the password hashed on save. */
  function NewAccount(name: string, email: string, password: string, env: Env): (r: SaveResult)
    requires ValidDraw(env)
    ensures r.Saved? <==> RegistrationFits(name, email, password)
    ensures r.Saved? ==> IsNewRegistration(r.user, name, email, password, env)
  {
    var code := Otp.GenerateOtp(env.draw);
    var doc := CreateDoc(
      NewUser(name, email, Some(password), None, Some(false), Some(false), Some(code), Some(env.now + Otp.OtpLifetimeMs)),
      env.freshId, env.now);
    SaveNew(doc, env.salt)
  }

  /** `registerUser`: an existing email is refused with 400 and nothing
      changes; otherwise the unverified record is created, and a failed
      OTP mail turns the reply into a 500 without removing the record. */
  function Register(store: UserStore, name: string, email: string, password: string, env: Env): (s: Step)
    requires ValidDraw(env)
    ensures NormalizeEmail(email) in store ==> s == Step(Failed(UserExists), store)
    ensures NormalizeEmail(email) !in store && !RegistrationFits(name, email, password)
            ==> s == Step(Failed(Internal), store)
    ensures NormalizeEmail(email) !in store && RegistrationFits(name, email, password) ==>
              var key := NormalizeEmail(email);
              && key in s.store && s.store == store[key := s.store[key]]
              && IsNewRegistration(s.store[key], name, email, password, env)
              && s.reply == (if env.mailDelivered then Registered(env.freshId, key, Trim(name)) else Failed(Internal))
  {
    var key := NormalizeEmail(email);
    if key in store then Step(Failed(UserExists), store)
    else
      match NewAccount(name, email, password, env)
      case Invalid(_) => Step(Failed(Internal), store)
      case Saved(u) =>
        var store' := store[key := u];
        if !env.mailDelivered then Step(Failed(Internal), store')
        else Step(Registered(u.id, u.email, u.name), store')
  }

  // ---------------------------------------------------------------------
  // verifyOTP

  /** `User.findOne({ email, otp, otpExpires: { $gt: now } })` finds a record. */
  predicate CodeAccepted(store: UserStore, email: string, otp: string, now: int) {
    var key := NormalizeEmail(email);
    key in store && store[key].otp == Some(otp)
    && store[key].otpExpires.Some? && store[key].otpExpires.value > now
  }

  /** `verifyOTP`: succeeds exactly when the record has this code and it
      has not expired; it then marks the record verified and clears the
      code and its expiry. On failure nothing changes. */
  function VerifyOtp(store: UserStore, email: string, otp: string, env: Env): (s: Step)
    ensures s.reply.OtpVerified? <==> CodeAccepted(store, email, otp, env.now)
    ensures !CodeAccepted(store, email, otp, env.now) ==> s == Step(Failed(InvalidOrExpiredOtp), store)
    ensures CodeAccepted(store, email, otp, env.now) ==>
              var key := NormalizeEmail(email);
              var u := store[key];
              && s.store == store[key := u.(isVerified := true, otp := None, otpExpires := None, updatedAt := env.now)]
              && s.reply.user == Summary(u.id, u.name, u.email, true)
              && Jwt.VerifyToken(s.reply.refreshToken, Jwt.SigningKey(env.jwtSecret), env.now)
                 == Jwt.Valid(Jwt.Claims(u.id, u.email, None))
  {
    if !CodeAccepted(store, email, otp, env.now) then Step(Failed(InvalidOrExpiredOtp), store)
    else
      var key := NormalizeEmail(email);
      var u := store[key].(isVerified := true, otp := None, otpExpires := None, updatedAt := env.now);
      var secret := Jwt.SigningKey(env.jwtSecret);
      var refresh := Jwt.GenerateRefreshToken(u.id, u.email, secret, env.now);
      Step(OtpVerified(SummaryOf(u), refresh), store[key := u])
  }

  // ---------------------------------------------------------------------
  // resendOTP

  /** `resendOTP`: 404 unless an unverified record has the email; otherwise
      the code and its expiry are replaced and every other field is kept. A
      failed mail answers 500 but the new code stays stored. */
  function ResendOtp(store: UserStore, email: string, env: Env): (s: Step)
    requires ValidDraw(env)
    ensures var key := NormalizeEmail(email);
            key !in store || store[key].isVerified ==> s == Step(Failed(NotFoundOrVerified), store)
    ensures var key := NormalizeEmail(email);
            key in store && !store[key].isVerified ==>
              && s.store == store[key := store[key].(otp := Some(Otp.GenerateOtp(env.draw)),
                                                    otpExpires := Some(env.now + Otp.OtpLifetimeMs),
                                                    updatedAt := env.now)]
              && s.reply == (if env.mailDelivered then OtpSent else Failed(Internal))
  {
    var key := NormalizeEmail(email);
    if key !in store || store[key].isVerified then Step(Failed(NotFoundOrVerified), store)
    else
      var code := Otp.GenerateOtp(env.draw);
      var u := store[key].(otp := Some(code), otpExpires := Some(env.now + Otp.OtpLifetimeMs), updatedAt := env.now);
      var store' := store[key := u];
      if !env.mailDelivered then Step(Failed(Internal), store')
      else Step(OtpSent, store')
  }

  // ---------------------------------------------------------------------
  // loginUser

  /** `loginUser`: checks, in this order, that the record exists (404), is
      verified (401) and accepts the password (401); only then are tokens
      issued and the cookie set. The store never changes. */
  function Login(store: UserStore, email: string, password: string, env: Env): (s: Step)
    ensures s.store == store
    ensures var key := NormalizeEmail(email);
            && (key !in store ==> s.reply == Failed(UserNotFound))
            && (key in store && !store[key].isVerified ==> s.reply == Failed(EmailNotVerified))
            && (key in store && store[key].isVerified && !ComparePassword(store[key], password)
                ==> s.reply == Failed(InvalidCredentials))
            && (s.reply.SignedIn? <==> key in store && store[key].isVerified && ComparePassword(store[key], password))
            && (s.reply.SignedIn? ==> s.reply == SignIn(store[key], env))
  {
    var key := NormalizeEmail(email);
    if key !in store then Step(Failed(UserNotFound), store)
    else
      var u := store[key];
      if !u.isVerified then Step(Failed(EmailNotVerified), store)
      else if !ComparePassword(u, password) then Step(Failed(InvalidCredentials), store)
      else Step(SignIn(u, env), store)
  }

  // ---------------------------------------------------------------------
  // googleAuth

  /** The verified ID token's payload: `sub`, `email`, `name`, `email_verified`. */
  datatype GooglePayload = GooglePayload(sub: string, email: string, name: Option<string>, emailVerified: bool)

  /** Outcome of the code exchange and `verifyIdToken`: a thrown error, a
      ticket without payload, or the payload. */
  datatype GoogleExchange = ExchangeFailed | NoPayload | Exchanged(payload: GooglePayload)

  /** `name || 'Google User'`. */
  function GoogleName(name: Option<string>): string {
    if Truthy(name) then name.value else GoogleDefaultName
  }

  /** The record a first Google sign-in creates. */
  function GoogleDoc(p: GooglePayload, env: Env): UserRecord {
    CreateDoc(NewUser(GoogleName(p.name), p.email, None, Some(p.sub), Some(true), Some(true), None, None),
              env.freshId, env.now)
  }

  /** `googleAuth` on the exchanged identity: an existing record that is not
      yet a Google account is linked (flagged, given the Google id and
      verified, password untouched); an existing Google account is used as
      it is; an unknown email gets a new verified Google record. */
  function GoogleAuth(store: UserStore, exchange: GoogleExchange, env: Env): (s: Step)
    ensures exchange.ExchangeFailed? ==> s == Step(Failed(Internal), store)
    ensures exchange.NoPayload? ==> s == Step(Failed(InvalidGoogleToken), store)
    ensures exchange.Exchanged? && !exchange.payload.emailVerified
            ==> s == Step(Failed(GoogleEmailNotVerified), store)
    ensures exchange.Exchanged? && exchange.payload.emailVerified ==>
              var p := exchange.payload;
              var key := NormalizeEmail(p.email);
              && (key in store && !store[key].isGoogleUser ==>
                    var u := store[key].(isGoogleUser := true, googleId := Some(p.sub), isVerified := true, updatedAt := env.now);
                    s == Step(SignIn(u, env), store[key := u]))
              && (key in store && store[key].isGoogleUser ==> s == Step(SignIn(store[key], env), store))
              && (key !in store && Validate(GoogleDoc(p, env)).None? ==>
                    s == Step(SignIn(GoogleDoc(p, env), env), store[key := GoogleDoc(p, env)]))
              && (key !in store && Validate(GoogleDoc(p, env)).Some? ==> s == Step(Failed(Internal), store))
  {
    match exchange
    case ExchangeFailed => Step(Failed(Internal), store)
    case NoPayload => Step(Failed(InvalidGoogleToken), store)
    case Exchanged(p) =>
      if !p.emailVerified then Step(Failed(GoogleEmailNotVerified), store)
      else
        var key := NormalizeEmail(p.email);
        if key in store then
          var u := store[key];
          if !u.isGoogleUser then
            var linked := u.(isGoogleUser := true, googleId := Some(p.sub), isVerified := true, updatedAt := env.now);
            Step(SignIn(linked, env), store[key := linked])
          else Step(SignIn(u, env), store)
        else
          match SaveNew(GoogleDoc(p, env), env.salt)
          case Invalid(_) => Step(Failed(Internal), store)
          case Saved(u) => Step(SignIn(u, env), store[key := u])
  }

  // ---------------------------------------------------------------------
  // getCurrentUser

  /** The payload of `getCurrentUser`. */
  datatype Profile = Profile(id: UserId, name: string, email: string, isVerified: bool, isGoogleUser: bool)

  /** `getCurrentUser`: the attached user's id, name, email and flags. The
      profile agrees with the record's `toJSON` on every field it shows, so
      it never carries more than the serialised user would. */
  function CurrentUser(u: UserRecord): (p: Profile)
    ensures var j := ToJson(u);
            && "_id" in j && j["_id"] == JStr(p.id)
            && "name" in j && j["name"] == JStr(p.name)
            && "email" in j && j["email"] == JStr(p.email)
            && "isVerified" in j && j["isVerified"] == JBool(p.isVerified)
            && "isGoogleUser" in j && j["isGoogleUser"] == JBool(p.isGoogleUser)
  {
    assert "_id" !in HiddenFields && "name" !in HiddenFields && "email" !in HiddenFields;
    assert "isVerified" !in HiddenFields && "isGoogleUser" !in HiddenFields;
    Profile(u.id, u.name, u.email, u.isVerified, u.isGoogleUser)
  }

  // ---------------------------------------------------------------------
  // Properties across calls

  /** A code confirms at most once: after a successful confirmation the
      same request fails, at any later time. */
  lemma VerifyOtpSingleUse(store: UserStore, email: string, otp: string, env: Env, later: Env)
    requires VerifyOtp(store, email, otp, env).reply.OtpVerified?
    ensures VerifyOtp(VerifyOtp(store, email, otp, env).store, email, otp, later)
            == Step(Failed(InvalidOrExpiredOtp), VerifyOtp(store, email, otp, env).store)
  {
  }

  /** A matching code presented at or after its expiry instant is refused. */
  lemma ExpiredCodeRejected(store: UserStore, email: string, otp: string, env: Env)
    requires NormalizeEmail(email) in store
    requires store[NormalizeEmail(email)].otpExpires.Some?
    requires env.now >= store[NormalizeEmail(email)].otpExpires.value
    ensures VerifyOtp(store, email, otp, env) == Step(Failed(InvalidOrExpiredOtp), store)
  {
  }

  /** Resending replaces the code: the previous code stops working (unless
      the draw repeats it) and the new one confirms for ten minutes. */
  lemma ResendReplacesCode(store: UserStore, email: string, oldCode: string, env: Env, later: Env)
    requires ValidDraw(env)
    requires NormalizeEmail(email) in store && !store[NormalizeEmail(email)].isVerified
    requires oldCode != Otp.GenerateOtp(env.draw)
    ensures VerifyOtp(ResendOtp(store, email, env).store, email, oldCode, later).reply == Failed(InvalidOrExpiredOtp)
    ensures later.now < env.now + Otp.OtpLifetimeMs ==>
              VerifyOtp(ResendOtp(store, email, env).store, email, Otp.GenerateOtp(env.draw), later).reply.OtpVerified?
  {
    NormalizeEmailIsNormalized(email);
  }

  /** A registration whose mail fails still leaves the unverified account
      behind: the reply is the 500 of a thrown error, yet the same email
      then registers as a duplicate, so only `resendOTP` can deliver a code. */
  lemma MailFailureKeepsAccount(store: UserStore, name: string, email: string, password: string, env: Env, retry: Env)
    requires ValidDraw(env) && ValidDraw(retry)
    requires NormalizeEmail(email) !in store && RegistrationFits(name, email, password)
    requires !env.mailDelivered
    ensures Register(store, name, email, password, env).reply == Failed(Internal)
    ensures var after := Register(store, name, email, password, env).store;
            && NormalizeEmail(email) in after && !after[NormalizeEmail(email)].isVerified
            && Register(after, name, email, password, retry) == Step(Failed(UserExists), after)
  {
    var after := Register(store, name, email, password, env).store;
    RegisteredIsUnverified(store, name, email, password, env);
    DuplicateRefused(after, name, email, password, retry);
  }

  lemma RegisteredIsUnverified(store: UserStore, name: string, email: string, password: string, env: Env)
    requires ValidDraw(env)
    requires NormalizeEmail(email) !in store && RegistrationFits(name, email, password)
    ensures var s := Register(store, name, email, password, env);
            && NormalizeEmail(email) in s.store && !s.store[NormalizeEmail(email)].isVerified
            && (!env.mailDelivered ==> s.reply == Failed(Internal))
  {
  }

  lemma DuplicateRefused(store: UserStore, name: string, email: string, password: string, env: Env)
    requires ValidDraw(env) && NormalizeEmail(email) in store
    ensures Register(store, name, email, password, env) == Step(Failed(UserExists), store)
  {
  }

  /** Password login never succeeds for a record without a stored password,
      whatever the candidate. */
  lemma PasswordlessNeverSignsIn(store: UserStore, email: string, password: string, env: Env)
    requires NormalizeEmail(email) in store && store[NormalizeEmail(email)].password.None?
    ensures !Login(store, email, password, env).reply.SignedIn?
  {
  }

  /** Linking a password account to Google keeps its password: the same
      password still signs in afterwards, now without needing the OTP. */
  lemma GoogleLinkKeepsPassword(store: UserStore, p: GooglePayload, password: string, env: Env, later: Env)
    requires p.emailVerified
    requires NormalizeEmail(p.email) in store
    requires !store[NormalizeEmail(p.email)].isGoogleUser
    requires ComparePassword(store[NormalizeEmail(p.email)], password)
    ensures var after := GoogleAuth(store, Exchanged(p), env).store;
            && after[NormalizeEmail(p.email)].password == store[NormalizeEmail(p.email)].password
            && after[NormalizeEmail(p.email)].isVerified
            && Login(after, p.email, password, later).reply.SignedIn?
  {
  }

  /** A second Google identity for an email that is already a Google account
      does not re-link it: the stored Google id stays the first one. */
  lemma GoogleNotRelinked(store: UserStore, p: GooglePayload, env: Env)
    requires p.emailVerified
    requires NormalizeEmail(p.email) in store && store[NormalizeEmail(p.email)].isGoogleUser
    ensures GoogleAuth(store, Exchanged(p), env).store == store
  {
  }

  /** The login cookie expires (three days) well before the access token it
      carries (seven days). */
  lemma CookieExpiresBeforeToken(u: UserRecord, env: Env)
    requires env.now >= 0
    ensures SignIn(u, env).cookie.expires / 1000 < SignIn(u, env).cookie.token.exp
  {
  }

  // ---------------------------------------------------------------------
  // Store invariant

  lemma RegisterPreservesInv(store: UserStore, name: string, email: string, password: string, env: Env)
    requires ValidDraw(env) && StoreInv(store) && FreshId(store, env.freshId)
    ensures StoreInv(Register(store, name, email, password, env).store)
  {
    var key := NormalizeEmail(email);
    if key !in store && RegistrationFits(name, email, password) {
      NormalizeEmailIsNormalized(email);
      var u := Register(store, name, email, password, env).store[key];
      assert u.password.Some? && u.password.value.Digest? by {
        assert ComparePassword(u, password);
      }
      assert WellFormed(u);
      PutPreservesInv(store, u);
    }
  }

  lemma VerifyOtpPreservesInv(store: UserStore, email: string, otp: string, env: Env)
    requires StoreInv(store)
    ensures StoreInv(VerifyOtp(store, email, otp, env).store)
  {
    if CodeAccepted(store, email, otp, env.now) {
      var key := NormalizeEmail(email);
      var u := store[key].(isVerified := true, otp := None, otpExpires := None, updatedAt := env.now);
      assert WellFormed(u);
      PutPreservesInv(store, u);
    }
  }

  lemma ResendOtpPreservesInv(store: UserStore, email: string, env: Env)
    requires ValidDraw(env) && StoreInv(store)
    ensures StoreInv(ResendOtp(store, email, env).store)
  {
    if NormalizeEmail(email) in store && !store[NormalizeEmail(email)].isVerified {
      ResendReissuedKeepsInv(store, email, env);
    } else {
      assert ResendOtp(store, email, env).store == store;
    }
  }

  lemma ResendReissuedKeepsInv(store: UserStore, email: string, env: Env)
    requires ValidDraw(env) && StoreInv(store)
    requires NormalizeEmail(email) in store && !store[NormalizeEmail(email)].isVerified
    ensures StoreInv(ResendOtp(store, email, env).store)
  {
    ReissuePreservesInv(store, NormalizeEmail(email), Otp.GenerateOtp(env.draw), env.now + Otp.OtpLifetimeMs, env.now,
                        ResendOtp(store, email, env).store);
  }

  /** Giving a stored record a new well-shaped code keeps the invariant;
      `after` is the store with that one record replaced. */
  lemma ReissuePreservesInv(store: UserStore, key: string, code: string, expires: int, now: int, after: UserStore)
    requires StoreInv(store) && key in store && Otp.IsOtpShaped(code)
    requires after == store[key := store[key].(otp := Some(code), otpExpires := Some(expires), updatedAt := now)]
    ensures StoreInv(after)
  {
    ReissueKeepsWellFormed(store[key], code, expires, now);
    ReplacePreservesInv(store, key, store[key].(otp := Some(code), otpExpires := Some(expires), updatedAt := now));
  }

  lemma ReissueKeepsWellFormed(r: UserRecord, code: string, expires: int, now: int)
    requires WellFormed(r) && Otp.IsOtpShaped(code)
    ensures WellFormed(r.(otp := Some(code), otpExpires := Some(expires), updatedAt := now))
  {
  }

  /** Google sign-in keeps the invariant: the link replaces a password
      account in place, and a new Google account is stored under its own
      normalized email with a fresh id. */
  lemma GoogleAuthPreservesInv(store: UserStore, exchange: GoogleExchange, env: Env)
    requires StoreInv(store) && FreshId(store, env.freshId)
    ensures StoreInv(GoogleAuth(store, exchange, env).store)
  {
    if exchange.Exchanged? && exchange.payload.emailVerified {
      var p := exchange.payload;
      var key := NormalizeEmail(p.email);
      if key in store && !store[key].isGoogleUser {
        GoogleLinkKeepsInv(store, key, p.sub, env.now, GoogleAuth(store, exchange, env).store);
      } else if key !in store {
        GoogleCreateKeepsInv(store, p, env, GoogleAuth(store, exchange, env).store);
      }
    }
  }

  /** Linking a stored password account to a Google identity; `after` is
      the store with that one record replaced. */
  lemma GoogleLinkKeepsInv(store: UserStore, key: string, sub: string, now: int, after: UserStore)
    requires StoreInv(store) && key in store
    requires after == store[key := store[key].(isGoogleUser := true, googleId := Some(sub), isVerified := true, updatedAt := now)]
    ensures StoreInv(after)
  {
    var linked := store[key].(isGoogleUser := true, googleId := Some(sub), isVerified := true, updatedAt := now);
    assert WellFormed(linked);
    ReplacePreservesInv(store, key, linked);
  }

  /** Creating a Google account for an unknown email; `after` is what
      `googleAuth` leaves in the store. */
  lemma GoogleCreateKeepsInv(store: UserStore, p: GooglePayload, env: Env, after: UserStore)
    requires StoreInv(store) && FreshId(store, env.freshId)
    requires NormalizeEmail(p.email) !in store
    requires after == (if Validate(GoogleDoc(p, env)).None? then store[NormalizeEmail(p.email) := GoogleDoc(p, env)] else store)
    ensures StoreInv(after)
  {
    var u := GoogleDoc(p, env);
    if Validate(u).None? {
      NormalizeEmailIsNormalized(p.email);
      assert u.email == NormalizeEmail(p.email);
      assert WellFormed(u);
      PutPreservesInv(store, u);
    }
  }
}
