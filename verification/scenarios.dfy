/** Properties that cross module lines: what the validators guarantee the
    handlers behind them, and what the tokens the auth handlers issue open
    at the session guard. */
module Scenarios {
  import opened Base
  import opened Text
  import Otp
  import Jwt
  import opened User
  import AuthController
  import AuthMiddleware
  import Validation
  import Notes
  import NotesController

  // ---------------------------------------------------------------------
  // Validators in front of handlers

  /** A registration that passed the chain fits the schema, so the schema
      error path of `registerUser` is unreachable behind it, given an email
      the schema's own pattern accepts once normalized. The name rule admits
      no presentation selector, so the chain and the schema count the name
      alike; the chain's password count never exceeds the schema's. */
  lemma ValidatedRegistrationFits(name: string, email: string, password: string, isEmail: string -> bool)
    requires Validation.ValidateUserRegistration(Some(name), Some(email), Some(password), isEmail).Next?
    requires NormalizeEmail(email) != "" && MatchesEmailPattern(NormalizeEmail(email))
    ensures AuthController.RegistrationFits(name, email, password)
  {
    Validation.NameAcceptedCountsAll(Some(name));
    assert Validation.Value(Some(password)) == password;
  }

  /** The schema measures a field by all its code points, where `isLength`
      leaves the presentation selectors out; this is the schema's bound,
      stated on the field as the client sent it. */
  predicate SchemaLengthFits(f: Option<string>, max: nat) {
    f.None? || |Trim(f.value)| <= max
  }

  /** For a field without presentation selectors the two counts agree, so
      what the chain accepts the schema accepts. */
  lemma SelectorFreeFits(f: Option<string>, max: nat)
    requires f.None? || Validation.TrimmedWithin(f.value, max)
    requires f.None? || Validation.SelectorFree(Trim(f.value))
    ensures SchemaLengthFits(f, max)
  {
  }

  /** Behind `validateNote` the note is created exactly when the schema's
      own count of the trimmed title and content is within its bounds;
      otherwise the handler answers 500 and nothing is stored. A created
      note's content is trimmed although the schema does not trim content. */
  lemma ValidatedNoteIsCreated(store: Notes.NoteStore, user: string, title: Option<string>, content: Option<string>,
                               freshId: Notes.NoteId, now: int)
    requires Validation.ValidateNote(title, content).Next? && user != ""
    ensures var s := NotesController.CreateNote(store, user, Validation.Sanitized(title),
                                                Validation.Sanitized(content), freshId, now);
            && (s.reply.Created? <==> SchemaLengthFits(title, Notes.TitleMaxLength)
                                      && SchemaLengthFits(content, Notes.ContentMaxLength))
            && (!s.reply.Created? ==> s == NotesController.NoteStep(NotesController.Failed(NotesController.Internal), store))
            && (s.reply.Created? ==> s.reply.note.content == Trim(Validation.Value(content))
                                     && IsTrimmed(s.reply.note.content))
  {
    assert title.Some? && content.Some?;
    var t := Validation.Sanitized(title);
    var c := Validation.Sanitized(content);
    SanitizedTitleFits(title);
    SanitizedContentFits(content);
    assert NotesController.FieldValue(t) == t.value == Trim(t.value);
    assert NotesController.FieldValue(c) == c.value;
    assert SchemaLengthFits(title, Notes.TitleMaxLength) <==> |t.value| <= Notes.TitleMaxLength;
    assert SchemaLengthFits(content, Notes.ContentMaxLength) <==> |c.value| <= Notes.ContentMaxLength;
  }

  /** The gap between the two counts is reachable. A trimmed text that
      `isLength` finds within the title bound but that has more code points
      than the schema allows (`Validation.SelectorPaddedTitlePasses` builds
      one from one hundred characters and U+FE0F) passes `validateNote` as
      title and content, and `createNote` answers it with a 500. */
  lemma SelectorPaddedNoteRefused(store: Notes.NoteStore, user: string, t: string, freshId: Notes.NoteId, now: int)
    requires Trim(t) == t && Validation.TrimmedWithin(t, Validation.TitleMaxLength) && |t| > Notes.TitleMaxLength
    ensures Validation.ValidateNote(Some(t), Some(t)).Next?
    ensures Validation.Sanitized(Some(t)) == Some(t)
    ensures NotesController.CreateNote(store, user, Some(t), Some(t), freshId, now)
            == NotesController.NoteStep(NotesController.Failed(NotesController.Internal), store)
  {
    PaddedPassesNote(t);
    TrimmedIsSanitized(t);
    OverlongNoteRefused(store, user, t, freshId, now);
  }

  /** The same text as the only field of an update of the caller's note:
      the chain passes it, sanitizing leaves it as it is, and the update is
      a 500. */
  lemma SelectorPaddedUpdateRefused(store: Notes.NoteStore, user: string, id: Notes.NoteId, t: string, now: int)
    requires Notes.FindOwned(store, id, user).Some?
    requires Trim(t) == t && Validation.TrimmedWithin(t, Validation.TitleMaxLength) && |t| > Notes.TitleMaxLength
    ensures Validation.ValidateNoteUpdate(Some(t), None).Next?
    ensures Validation.Sanitized(Some(t)) == Some(t)
    ensures NotesController.UpdateNote(store, user, id, Some(t), None, now)
            == NotesController.NoteStep(NotesController.Failed(NotesController.Internal), store)
  {
    PaddedPassesUpdate(t);
    TrimmedIsSanitized(t);
    NotesController.OverlongTitleRefused(store, user, id, Some(t), now);
  }

  lemma PaddedPassesNote(t: string)
    requires Validation.TrimmedWithin(t, Validation.TitleMaxLength)
    ensures Validation.ValidateNote(Some(t), Some(t)).Next?
  {
    assert Validation.Value(Some(t)) == t;
    Validation.TrimmedWithinWidens(t, Validation.TitleMaxLength, Validation.ContentMaxLength);
  }

  lemma PaddedPassesUpdate(t: string)
    requires Validation.TrimmedWithin(t, Validation.TitleMaxLength)
    ensures Validation.ValidateNoteUpdate(Some(t), None).Next?
  {
  }

  lemma TrimmedIsSanitized(t: string)
    requires Trim(t) == t
    ensures Validation.Sanitized(Some(t)) == Some(t)
  {
  }

  lemma OverlongNoteRefused(store: Notes.NoteStore, user: string, t: string, freshId: Notes.NoteId, now: int)
    requires Trim(t) == t && |t| > Notes.TitleMaxLength
    ensures NotesController.CreateNote(store, user, Some(t), Some(t), freshId, now)
            == NotesController.NoteStep(NotesController.Failed(NotesController.Internal), store)
  {
    assert |Trim(NotesController.FieldValue(Some(t)))| > Notes.TitleMaxLength;
  }

  /** Behind `validateNoteUpdate`, an update with a field present ends in
      one of three ways: applied, 404, or the 500 of a schema refusal; and
      when the schema's own count is within bounds it is never the 500. */
  lemma ValidatedUpdateApplies(store: Notes.NoteStore, user: string, id: Notes.NoteId,
                               title: Option<string>, content: Option<string>, now: int)
    requires Notes.NoteStoreInv(store)
    requires Validation.ValidateNoteUpdate(title, content).Next?
    requires title.Some? || content.Some?
    ensures var s := NotesController.UpdateNote(store, user, id, Validation.Sanitized(title),
                                                Validation.Sanitized(content), now);
            && (s.reply.Updated? || s == NotesController.NoteStep(NotesController.Failed(NotesController.NotFound), store)
                || s == NotesController.NoteStep(NotesController.Failed(NotesController.Internal), store))
            && (SchemaLengthFits(title, Notes.TitleMaxLength) && SchemaLengthFits(content, Notes.ContentMaxLength)
                ==> s.reply.Updated? || s == NotesController.NoteStep(NotesController.Failed(NotesController.NotFound), store))
  {
    var t := Validation.Sanitized(title);
    var c := Validation.Sanitized(content);
    assert title.None? || Validation.TrimmedWithin(title.value, Validation.TitleMaxLength);
    assert content.None? || Validation.TrimmedWithin(content.value, Validation.ContentMaxLength);
    SanitizedTitleFits(title);
    SanitizedContentFits(content);
    assert Truthy(t) || Truthy(c);
    if SchemaLengthFits(title, Notes.TitleMaxLength) && SchemaLengthFits(content, Notes.ContentMaxLength) {
      NotesController.InBoundsUpdateApplies(store, user, id, t, c, now);
    }
  }

  /** A title the update chain accepts is truthy and trimmed once
      sanitized, and within the schema's bound when the schema's own count
      is. */
  lemma SanitizedTitleFits(title: Option<string>)
    requires title.None? || Validation.TrimmedWithin(title.value, Validation.TitleMaxLength)
    ensures var t := Validation.Sanitized(title);
            && (t.None? || (1 <= |Trim(t.value)| && Trim(t.value) == t.value))
            && (title.Some? ==> Truthy(t))
            && (SchemaLengthFits(title, Notes.TitleMaxLength) ==> t.None? || |Trim(t.value)| <= Notes.TitleMaxLength)
  {
    if title.Some? {
      TrimIdempotent(title.value);
    }
  }

  /** The same for the content, which the schema does not trim. */
  lemma SanitizedContentFits(content: Option<string>)
    requires content.None? || Validation.TrimmedWithin(content.value, Validation.ContentMaxLength)
    ensures var c := Validation.Sanitized(content);
            && (c.None? || 1 <= |c.value|)
            && (content.Some? ==> Truthy(c))
            && (SchemaLengthFits(content, Notes.ContentMaxLength) ==> c.None? || |c.value| <= Notes.ContentMaxLength)
  {
  }

  // ---------------------------------------------------------------------
  // Tokens at the guard

  /** After a successful login, a request carrying the cookie is let
      through by the guard until the access token's seventh day, and the
      profile `getCurrentUser` returns says the user is verified. */
  lemma LoginCookieOpensGuard(store: UserStore, email: string, password: string, env: AuthController.Env,
                              wire: string, decode: string -> Jwt.Token, findById: string -> AuthMiddleware.Lookup,
                              later: int)
    requires AuthController.Login(store, email, password, env).reply.SignedIn?
    requires var reply := AuthController.Login(store, email, password, env).reply;
             wire != "" && decode(wire) == reply.cookie.token
    requires findById(store[NormalizeEmail(email)].id) == AuthMiddleware.Found(store[NormalizeEmail(email)])
    requires env.now <= later && Jwt.Seconds(later) < Jwt.Seconds(env.now) + Jwt.AccessTtl
    ensures var v := AuthMiddleware.AuthenticateToken(AuthMiddleware.Request(Some(wire), None), decode,
                                                      Jwt.SigningKey(env.jwtSecret), later, findById);
            && v == AuthMiddleware.Attach(store[NormalizeEmail(email)])
            && AuthController.CurrentUser(v.user).isVerified
  {
  }

  /** From the access token's expiry on, the same cookie is answered
      "Token expired". */
  lemma ExpiredCookieRejected(store: UserStore, email: string, password: string, env: AuthController.Env,
                              wire: string, decode: string -> Jwt.Token, findById: string -> AuthMiddleware.Lookup,
                              later: int)
    requires AuthController.Login(store, email, password, env).reply.SignedIn?
    requires var reply := AuthController.Login(store, email, password, env).reply;
             wire != "" && decode(wire) == reply.cookie.token
    requires Jwt.Seconds(later) >= Jwt.Seconds(env.now) + Jwt.AccessTtl
    ensures AuthMiddleware.AuthenticateToken(AuthMiddleware.Request(Some(wire), None), decode,
                                             Jwt.SigningKey(env.jwtSecret), later, findById)
            == AuthMiddleware.Reject(AuthMiddleware.ExpiredToken)
  {
  }

  /** `verifyOTP` hands the client only a refresh token, and the guard does
      not tell refresh tokens from access tokens: sent as a bearer token it
      opens the guard for thirty days. */
  lemma RefreshTokenOpensGuard(store: UserStore, email: string, otp: string, env: AuthController.Env,
                               wire: string, decode: string -> Jwt.Token, findById: string -> AuthMiddleware.Lookup,
                               later: int)
    requires AuthController.VerifyOtp(store, email, otp, env).reply.OtpVerified?
    requires var reply := AuthController.VerifyOtp(store, email, otp, env).reply;
             ' ' !in wire && wire != "" && decode(wire) == reply.refreshToken
    requires var s := AuthController.VerifyOtp(store, email, otp, env).store;
             findById(s[NormalizeEmail(email)].id) == AuthMiddleware.Found(s[NormalizeEmail(email)])
    requires env.now <= later && Jwt.Seconds(later) < Jwt.Seconds(env.now) + Jwt.RefreshTtl
    ensures var s := AuthController.VerifyOtp(store, email, otp, env).store;
            AuthMiddleware.AuthenticateToken(AuthMiddleware.Request(None, Some("Bearer " + wire)), decode,
                                             Jwt.SigningKey(env.jwtSecret), later, findById)
            == AuthMiddleware.Attach(s[NormalizeEmail(email)])
  {
    var s := AuthController.VerifyOtp(store, email, otp, env);
    var key := Jwt.SigningKey(env.jwtSecret);
    var u := s.store[NormalizeEmail(email)];
    assert s.reply.refreshToken == Jwt.GenerateRefreshToken(u.id, u.email, key, env.now);
    Jwt.RefreshRoundTrip(u.id, u.email, key, env.now, later);
    AuthMiddleware.BearerHeaderToken(wire);
  }
}
