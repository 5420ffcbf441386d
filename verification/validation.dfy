// The express-validator chains that guard the routes, as predicates over
// the request body. A body field is `None` when it is absent; the standard
// validators read an absent field as the empty string, while `.optional()`
// skips it. `.trim()` is a sanitizer: the trimmed value is what the handler
// behind the chain receives. Lengths are counted the way validator's
// `isLength` counts them: code points, leaving out the presentation
// selectors U+FE0E and U+FE0F.

module Validation {
  import opened Base
  import opened Text
  import Otp

  datatype FieldError = FieldError(field: string, message: string)

  /** What `handleValidationErrors` does with the collected errors. */
  datatype Gate = Next | Rejected(status: int, errors: seq<FieldError>)

  /** `handleValidationErrors`: any error stops the chain with a 400 that
      lists every error; no error lets the request through. */
  function HandleValidationErrors(errors: seq<FieldError>): (g: Gate)
    ensures g.Next? <==> |errors| == 0
    ensures g.Rejected? ==> g.status == 400 && g.errors == errors
  {
    if errors == [] then Next else Rejected(400, errors)
  }

  /** How a standard validator sees a body field. */
  function Value(f: Option<string>): string {
    if f.Some? then f.value else ""
  }

  /** A check in a chain: the error it adds when `ok` does not hold. */
  function Check(ok: bool, field: string, message: string): (errs: seq<FieldError>)
    ensures |errs| == 0 <==> ok
  {
    if ok then [] else [FieldError(field, message)]
  }

  // ---------------------------------------------------------------------
  // Single fields

  const NameMinLength := 2
  const NameMaxLength := 50
  const PasswordMinLength := 6
  const OtpLength := 6
  const TitleMaxLength := 100
  const ContentMaxLength := 5000

  /** U+FE0E and U+FE0F, the variation selectors `isLength` does not
      count. */
  predicate IsPresentationSelector(c: char) { c == '\U{FE0E}' || c == '\U{FE0F}' }

  predicate SelectorFree(s: string) {
    forall i :: 0 <= i < |s| ==> !IsPresentationSelector(s[i])
  }

  /** The length `isLength` compares with its bounds: the code points of
      `s` other than the presentation selectors. It is the plain length
      exactly when no selector occurs. */
  function VisibleLength(s: string): (n: nat)
    ensures n <= |s|
    ensures n == |s| <==> SelectorFree(s)
  {
    if s == [] then 0
    else
      var rest := VisibleLength(s[1..]);
      assert SelectorFree(s) <==> !IsPresentationSelector(s[0]) && SelectorFree(s[1..]) by {
        if !IsPresentationSelector(s[0]) && SelectorFree(s[1..]) {
          forall i | 0 < i < |s| ensures !IsPresentationSelector(s[i]) {
            assert s[i] == s[1..][i - 1];
          }
        }
      }
      (if IsPresentationSelector(s[0]) then 0 else 1) + rest
  }

  /** The measure adds up over concatenation. */
  lemma {:induction false} VisibleLengthAppend(a: string, b: string)
    ensures VisibleLength(a + b) == VisibleLength(a) + VisibleLength(b)
  {
    if a == [] {
      assert a + b == b;
    } else {
      var head := if IsPresentationSelector(a[0]) then 0 else 1;
      assert (a + b)[0] == a[0] && (a + b)[1..] == a[1..] + b;
      assert VisibleLength(a + b) == head + VisibleLength(a[1..] + b);
      assert VisibleLength(a) == head + VisibleLength(a[1..]);
      VisibleLengthAppend(a[1..], b);
    }
  }

  predicate IsNameChar(c: char) { IsAsciiLetter(c) || IsJsSpace(c) }

  /** The pattern `^[a-zA-Z\s]+$`; JavaScript's `\s` is the whitespace
      set `trim` removes. */
  predicate MatchesNamePattern(s: string) {
    |s| >= 1 && forall i :: 0 <= i < |s| ==> IsNameChar(s[i])
  }

  /** The name rule of registration, stated on the trimmed value. */
  predicate NameAccepted(name: Option<string>) {
    var t := Trim(Value(name));
    NameMinLength <= VisibleLength(t) <= NameMaxLength && forall i :: 0 <= i < |t| ==> IsNameChar(t[i])
  }

  /** An accepted name holds no presentation selector, so `isLength` and
      the schema count it alike. */
  lemma NameAcceptedCountsAll(name: Option<string>)
    requires NameAccepted(name)
    ensures NameMinLength <= |Trim(Value(name))| <= NameMaxLength
  {
    var t := Trim(Value(name));
    forall i | 0 <= i < |t|
      ensures !IsPresentationSelector(t[i])
    {
      NameCharIsVisible(t[i]);
    }
  }

  lemma NameCharIsVisible(c: char)
    requires IsNameChar(c)
    ensures !IsPresentationSelector(c)
  {
  }

  /** `body('name').trim().isLength({ min: 2, max: 50 }).matches(...)`;
      both checks run, so a short name with a digit reports two errors. */
  function NameErrors(name: Option<string>): (errs: seq<FieldError>)
    ensures |errs| == 0 <==> NameAccepted(name)
    ensures |errs| <= 2
  {
    var t := Trim(Value(name));
    Check(NameMinLength <= VisibleLength(t) <= NameMaxLength, "name", "Name must be between 2 and 50 characters")
    + Check(MatchesNamePattern(t), "name", "Name can only contain letters and spaces")
  }

  /** `body('email').isEmail()`; the library predicate is a parameter. */
  function EmailErrors(email: Option<string>, isEmail: string -> bool): (errs: seq<FieldError>)
    ensures |errs| == 0 <==> isEmail(Value(email))
  {
    Check(isEmail(Value(email)), "email", "Please provide a valid email address")
  }

  /** A 6-character numeric string, as `validateOTP` checks it. */
  predicate OtpAccepted(otp: Option<string>) {
    VisibleLength(Value(otp)) == OtpLength && IsNumeric(Value(otp))
  }

  function OtpErrors(otp: Option<string>): (errs: seq<FieldError>)
    ensures |errs| == 0 <==> OtpAccepted(otp)
  {
    Check(VisibleLength(Value(otp)) == OtpLength, "otp", "OTP must be exactly 6 digits")
    + Check(IsNumeric(Value(otp)), "otp", "OTP must contain only numbers")
  }

  /** `.trim().isLength({ min: 1, max })`. */
  predicate TrimmedWithin(v: string, max: nat) {
    1 <= VisibleLength(Trim(v)) <= max
  }

  /** A looser upper bound admits everything a tighter one does. */
  lemma TrimmedWithinWidens(v: string, tight: nat, loose: nat)
    requires TrimmedWithin(v, tight) && tight <= loose
    ensures TrimmedWithin(v, loose)
  {
  }

  // ---------------------------------------------------------------------
  // The chains

  /** `validateUserRegistration`. */
  function ValidateUserRegistration(name: Option<string>, email: Option<string>, password: Option<string>,
                                    isEmail: string -> bool): (g: Gate)
    ensures g.Next? <==> NameAccepted(name) && isEmail(Value(email)) && VisibleLength(Value(password)) >= PasswordMinLength
    ensures g.Rejected? ==> g.status == 400
  {
    HandleValidationErrors(
      NameErrors(name) + EmailErrors(email, isEmail)
      + Check(VisibleLength(Value(password)) >= PasswordMinLength, "password", "Password must be at least 6 characters long"))
  }

  /** `validateUserLogin`: the password need only be non-empty. */
  function ValidateUserLogin(email: Option<string>, password: Option<string>, isEmail: string -> bool): (g: Gate)
    ensures g.Next? <==> isEmail(Value(email)) && Value(password) != ""
    ensures g.Rejected? ==> g.status == 400
  {
    HandleValidationErrors(
      EmailErrors(email, isEmail) + Check(Value(password) != "", "password", "Password is required"))
  }

  /** `validateOTP`. */
  function ValidateOtp(email: Option<string>, otp: Option<string>, isEmail: string -> bool): (g: Gate)
    ensures g.Next? <==> isEmail(Value(email)) && OtpAccepted(otp)
    ensures g.Rejected? ==> g.status == 400
  {
    HandleValidationErrors(EmailErrors(email, isEmail) + OtpErrors(otp))
  }

  /** `validateResendOTP`. */
  function ValidateResendOtp(email: Option<string>, isEmail: string -> bool): (g: Gate)
    ensures g.Next? <==> isEmail(Value(email))
  {
    HandleValidationErrors(EmailErrors(email, isEmail))
  }

  /** `validateGoogleAuth`: a non-empty `token` field. */
  function ValidateGoogleAuth(token: Option<string>): (g: Gate)
    ensures g.Next? <==> Value(token) != ""
  {
    HandleValidationErrors(Check(Value(token) != "", "token", "Google token is required"))
  }

  const TitleMessage := "Title must be between 1 and 100 characters"
  const ContentMessage := "Content must be between 1 and 5000 characters"

  /** `validateNote`: both fields required, trimmed lengths bounded. */
  function ValidateNote(title: Option<string>, content: Option<string>): (g: Gate)
    ensures g.Next? <==> TrimmedWithin(Value(title), TitleMaxLength) && TrimmedWithin(Value(content), ContentMaxLength)
    ensures g.Rejected? ==> g.status == 400
  {
    HandleValidationErrors(
      Check(TrimmedWithin(Value(title), TitleMaxLength), "title", TitleMessage)
      + Check(TrimmedWithin(Value(content), ContentMaxLength), "content", ContentMessage))
  }

  /** An `.optional()` field: absent passes, present must satisfy `ok`. */
  function OptionalCheck(f: Option<string>, max: nat, field: string, message: string): (errs: seq<FieldError>)
    ensures |errs| == 0 <==> f.None? || TrimmedWithin(f.value, max)
  {
    if f.None? then [] else Check(TrimmedWithin(f.value, max), field, message)
  }

  /** `validateNoteUpdate`: absent fields pass, present ones obey the
      bounds of `validateNote`. */
  function ValidateNoteUpdate(title: Option<string>, content: Option<string>): (g: Gate)
    ensures g.Next? <==> (title.None? || TrimmedWithin(title.value, TitleMaxLength))
                         && (content.None? || TrimmedWithin(content.value, ContentMaxLength))
    ensures g.Rejected? ==> g.status == 400
  {
    HandleValidationErrors(
      OptionalCheck(title, TitleMaxLength, "title", TitleMessage)
      + OptionalCheck(content, ContentMaxLength, "content", ContentMessage))
  }

  /** The sanitized value a trimmed field hands to the handler: present
      exactly when the field is, with no whitespace at either end, and no
      longer than what the client sent. */
  function Sanitized(f: Option<string>): (r: Option<string>)
    ensures f.None? <==> r.None?
    ensures r.Some? ==> r.value == Trim(f.value)
    ensures r.Some? ==> IsTrimmed(r.value) && |r.value| <= |f.value|
  {
    if f.Some? then Some(Trim(f.value)) else None
  }

  // ---------------------------------------------------------------------
  // Properties

  /** Sanitizing is idempotent, so the schema's own `trim` setter behind
      the chain finds nothing left to cut. */
  lemma SanitizedIdempotent(f: Option<string>)
    ensures Sanitized(Sanitized(f)) == Sanitized(f)
    ensures Sanitized(f).Some? ==> Trim(Sanitized(f).value) == Sanitized(f).value
  {
    if f.Some? {
      TrimIdempotent(f.value);
    }
  }

  /** Every code `generateOTP` produces passes the OTP checks. */
  lemma GeneratedOtpPasses(draw: int)
    requires 0 <= draw < Otp.OtpSpan
    ensures OtpAccepted(Some(Otp.GenerateOtp(draw)))
  {
    var code := Otp.GenerateOtp(draw);
    DigitsAreNumeric(code);
    assert SelectorFree(code);
  }

  /** `isNumeric` admits a sign, so a signed five-digit string passes the
      OTP checks although no generated code looks like it. */
  lemma SignedCodePasses()
    ensures OtpAccepted(Some("+12345"))
    ensures !Otp.IsOtpShaped("+12345")
  {
    var t := "+12345"[1..];
    assert t == "12345";
    DigitsAreNumeric(t);
    assert SelectorFree("+12345");
  }

  /** Presentation selectors do not count: one hundred visible
      characters followed by U+FE0F pass `validateNote`'s title check
      although they make 101 code points. */
  lemma SelectorPaddedTitlePasses(a: string)
    requires |a| == TitleMaxLength && SelectorFree(a) && !IsJsSpace(a[0])
    ensures var t := a + ['\U{FE0F}'];
            && Trim(t) == t && |t| == TitleMaxLength + 1
            && TrimmedWithin(t, TitleMaxLength)
  {
    var t := a + ['\U{FE0F}'];
    VisibleLengthAppend(a, ['\U{FE0F}']);
    assert VisibleLength(['\U{FE0F}']) == 0;
    assert t[0] == a[0] && t[|t| - 1] == '\U{FE0F}';
    TrimmedIffFixpoint(t);
  }

  /** An update with both fields absent passes the update chain; it is the
      handler that turns it away. */
  lemma EmptyUpdatePassesChain()
    ensures ValidateNoteUpdate(None, None) == Next
  {
  }
}
