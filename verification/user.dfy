/** The user record of src/models/User.ts: its fields, the casts and
    validators the schema applies, the pre-save password hashing hook,
    `comparePassword` and `toJSON`. bcrypt is abstract: a digest records
    the plaintext it was computed from, and comparison is equality with it. */
module User {
  import opened Base
  import opened Text
  import Otp

  type UserId = string

  const NameMaxLength: nat := 50
  const PasswordMinLength: nat := 6
  /** `bcrypt.genSalt(12)`. */
  const BcryptRounds: nat := 12

  /** The `password` field: a plaintext that was assigned and not yet saved,
      or the bcrypt digest the pre-save hook stored. A loaded record only
      ever holds a digest, so "the password path is modified" is exactly
      "the field holds a plaintext". */
  datatype Secret = Plain(text: string) | Digest(rounds: nat, salt: nat, text: string)

  datatype UserRecord = UserRecord(
    id: UserId,
    name: string,
    email: string,
    password: Option<Secret>,
    isGoogleUser: bool,
    googleId: Option<string>,
    isVerified: bool,
    otp: Option<string>,
    otpExpires: Option<int>,
    createdAt: int,
    updatedAt: int)

  /** The collection, keyed by the normalized email the unique index is on. */
  type UserStore = map<string, UserRecord>

  /** The `lowercase` and `trim` setters of the email path; Mongoose applies
      them to query values as well as to stored values. */
  function NormalizeEmail(email: string): (e: string)
    ensures |e| <= |email|
  {
    ToLower(Trim(email))
  }

  lemma ToLowerKeepsSpace(s: string)
    ensures forall i :: 0 <= i < |s| ==> (IsJsSpace(ToLower(s)[i]) <==> IsJsSpace(s[i]))
  {
    var t := ToLower(s);
    forall i | 0 <= i < |s|
      ensures IsJsSpace(t[i]) <==> IsJsSpace(s[i])
    {
      if IsAsciiUpper(s[i]) {
        ToLowerChar(s, i);
      }
    }
  }

  lemma {:induction false} ToLowerChar(s: string, i: nat)
    requires i < |s|
    ensures ToLower(s)[i] == LowerChar(s[i])
    decreases i
  {
    if i > 0 {
      ToLowerChar(s[1..], i - 1);
    }
  }

  /** What the setters leave behind: no ASCII capital, no whitespace at
      either end. */
  predicate IsNormalizedEmail(e: string) {
    && (forall i :: 0 <= i < |e| ==> !IsAsciiUpper(e[i]))
    && IsTrimmed(e)
  }

  lemma NormalizeEmailIsNormalized(email: string)
    ensures IsNormalizedEmail(NormalizeEmail(email))
  {
    ToLowerKeepsSpace(Trim(email));
  }

  /** The normalized emails are exactly the fixpoints of the setters. */
  lemma NormalizedIffFixpoint(e: string)
    ensures IsNormalizedEmail(e) <==> NormalizeEmail(e) == e
  {
    if IsNormalizedEmail(e) {
      if e != [] {
        assert TrimStart(e) == e;
        assert TrimEnd(e) == e;
      }
      assert Trim(e) == e;
      ToLowerFixesLowered(e);
    } else {
      NormalizeEmailIsNormalized(e);
    }
  }

  /** Normalizing a normalized email changes nothing, so a stored email,
      used as a query value, finds its own record. */
  lemma NormalizeEmailIdempotent(email: string)
    ensures NormalizeEmail(NormalizeEmail(email)) == NormalizeEmail(email)
  {
    NormalizeEmailIsNormalized(email);
    NormalizedIffFixpoint(NormalizeEmail(email));
  }

  // ---------------------------------------------------------------------
  // The email pattern

  /** `\w` of a JavaScript pattern without the `u` flag. */
  predicate IsWordChar(c: char) { IsAsciiLetter(c) || IsDigit(c) || c == '_' }

  /** Word characters in runs joined by single hyphens: `\w+(-\w+)*`. */
  predicate IsHyphenWord(s: string) {
    && s != [] && s[0] != '-' && s[|s| - 1] != '-'
    && (forall i :: 0 <= i < |s| ==> IsWordChar(s[i]) || s[i] == '-')
    && (forall i :: 0 <= i < |s| - 1 ==> !(s[i] == '-' && s[i + 1] == '-'))
  }

  /** `\w+([.-]?\w+)*`: hyphen-words joined by single dots. */
  predicate IsDottedName(s: string) {
    var labels := Split(s, '.');
    forall k :: 0 <= k < |labels| ==> IsHyphenWord(labels[k])
  }

  /** A top-level label of `(\.\w{2,3})+`: two or three word characters. */
  predicate IsShortLabel(s: string) {
    2 <= |s| <= 3 && forall i :: 0 <= i < |s| ==> IsWordChar(s[i])
  }

  /** The `match` validator of the email path,
      `^\w+([.-]?\w+)*@\w+([.-]?\w+)*(\.\w{2,3})+$`, stated on the parts
      around the one `@`: a dotted local part, and a domain of at least two
      dot-separated labels whose last has two or three word characters. Any
      label before the last may itself be short, so ending the match after
      one short label is the most permissive choice. */
  predicate MatchesEmailPattern(e: string) {
    var halves := Split(e, '@');
    && |halves| == 2
    && IsDottedName(halves[0])
    && var labels := Split(halves[1], '.');
       && |labels| >= 2
       && (forall k :: 0 <= k < |labels| - 1 ==> IsHyphenWord(labels[k]))
       && IsShortLabel(labels[|labels| - 1])
  }

  /** An address the pattern accepts is made of word characters, dots,
      hyphens and the `@`; so `isEmail`'s plus-addresses are refused. */
  lemma EmailPatternCharacters(e: string, i: nat)
    requires MatchesEmailPattern(e) && i < |e|
    ensures IsWordChar(e[i]) || e[i] == '.' || e[i] == '-' || e[i] == '@'
  {
    if e[i] != '@' {
      var halves := Split(e, '@');
      SplitCovers(e, '@', i);
      var h :| 0 <= h < |halves| && e[i] in halves[h];
      var j :| 0 <= j < |halves[h]| && halves[h][j] == e[i];
      if h == 0 {
        LabelCharacters(halves[h], j);
      } else {
        DomainLabelsWordy(halves[h]);
        LabelCharacters(halves[h], j);
      }
    }
  }

  /** The labels of the domain part are hyphen-words or short labels. */
  lemma DomainLabelsWordy(d: string)
    requires var labels := Split(d, '.');
             && (forall k :: 0 <= k < |labels| - 1 ==> IsHyphenWord(labels[k]))
             && IsShortLabel(labels[|labels| - 1])
    ensures var labels := Split(d, '.');
            forall k :: 0 <= k < |labels| ==> IsHyphenWord(labels[k]) || IsShortLabel(labels[k])
  {
  }

  /** A character of a text whose dot-separated labels are all hyphen-words
      or short labels is a word character, a dot or a hyphen. */
  lemma LabelCharacters(s: string, j: nat)
    requires j < |s|
    requires var labels := Split(s, '.');
             forall k :: 0 <= k < |labels| ==> IsHyphenWord(labels[k]) || IsShortLabel(labels[k])
    ensures IsWordChar(s[j]) || s[j] == '.' || s[j] == '-'
  {
    if s[j] != '.' {
      var labels := Split(s, '.');
      SplitCovers(s, '.', j);
      var k :| 0 <= k < |labels| && s[j] in labels[k];
      var m :| 0 <= m < |labels[k]| && labels[k][m] == s[j];
      assert IsHyphenWord(labels[k]) || IsShortLabel(labels[k]);
    }
  }

  /** A hyphen-word, `@`, a hyphen-word host and a short top-level label
      make an address the pattern accepts. */
  lemma EmailPatternAccepts(local: string, host: string, tld: string)
    requires IsHyphenWord(local) && IsHyphenWord(host) && IsShortLabel(tld)
    ensures MatchesEmailPattern(local + ['@'] + host + ['.'] + tld)
  {
    var domain := host + ['.'] + tld;
    var e := local + ['@'] + host + ['.'] + tld;
    assert '@' !in local && '.' !in local;
    assert '@' !in host && '.' !in host && '@' !in tld && '.' !in tld;
    assert '@' !in domain by {
      forall i | 0 <= i < |domain| ensures domain[i] != '@' {
        if i < |host| { assert domain[i] == host[i]; }
        else if i > |host| { assert domain[i] == tld[i - |host| - 1]; }
      }
    }
    assert Join([local, domain], '@') == e;
    SplitJoin([local, domain], '@');
    assert Join([host, tld], '.') == domain;
    SplitJoin([host, tld], '.');
    assert Split(local, '.') == [local];
  }

  // ---------------------------------------------------------------------
  // Creating and saving documents

  /** The fields handed to `User.create`; `None` is a field left out. */
  datatype NewUser = NewUser(
    name: string,
    email: string,
    password: Option<string>,
    googleId: Option<string>,
    isGoogleUser: Option<bool>,
    isVerified: Option<bool>,
    otp: Option<string>,
    otpExpires: Option<int>)

  /** The document `User.create` builds before validation: the setters trim
      the name and normalize the email, absent booleans take their `false`
      defaults, and both timestamps are the creation instant. */
  function CreateDoc(f: NewUser, id: UserId, now: int): (u: UserRecord)
    ensures u.name == Trim(f.name) && u.email == NormalizeEmail(f.email)
    ensures f.isGoogleUser.None? ==> !u.isGoogleUser
    ensures f.isVerified.None? ==> !u.isVerified
    ensures f.password.Some? ==> u.password == Some(Plain(f.password.value))
    ensures u.id == id && u.createdAt == now && u.updatedAt == now
  {
    UserRecord(
      id, Trim(f.name), NormalizeEmail(f.email),
      if f.password.Some? then Some(Plain(f.password.value)) else None,
      if f.isGoogleUser.Some? then f.isGoogleUser.value else false,
      f.googleId,
      if f.isVerified.Some? then f.isVerified.value else false,
      f.otp, f.otpExpires, now, now)
  }

  datatype SchemaError = NameRequired | NameTooLong | EmailRequired | EmailMalformed | PasswordTooShort

  /** The schema validators: name and email required (an empty string fails
      `required`), name at most 50 characters, the email matching its
      pattern, and a password being saved at least 6 characters. Validation
      runs before the pre-save hook, so it sees the plaintext. */
  function Validate(u: UserRecord): (r: Option<SchemaError>)
    ensures r.None? <==> u.name != "" && |u.name| <= NameMaxLength && u.email != "" && MatchesEmailPattern(u.email)
                         && !(u.password.Some? && u.password.value.Plain? && |u.password.value.text| < PasswordMinLength)
  {
    if u.name == "" then Some(NameRequired)
    else if |u.name| > NameMaxLength then Some(NameTooLong)
    else if u.email == "" then Some(EmailRequired)
    else if !MatchesEmailPattern(u.email) then Some(EmailMalformed)
    else if u.password.Some? && u.password.value.Plain? && |u.password.value.text| < PasswordMinLength then Some(PasswordTooShort)
    else None
  }

  /** The pre-save hook: when the password was modified and is non-empty it
      is replaced by its bcrypt digest with a fresh salt; otherwise the
      document is saved as it is. */
  function PreSaveHash(u: UserRecord, salt: nat): (r: UserRecord)
    ensures r == u.(password := r.password)
    ensures !(u.password.Some? && u.password.value.Plain?) ==> r == u
    ensures u.password.Some? && u.password.value.Plain? && u.password.value.text != ""
            ==> r.password.Some? && r.password.value.Digest?
                && forall c :: ComparePassword(r, c) <==> c == u.password.value.text
  {
    match u.password
    case Some(Plain(t)) =>
      if t == "" then u else u.(password := Some(Digest(BcryptRounds, salt, t)))
    case _ => u
  }

  /** `comparePassword`: false when no password is stored; otherwise the
      bcrypt comparison, which accepts exactly the plaintext the digest was
      computed from. A string that is not a digest never matches. */
  function ComparePassword(u: UserRecord, candidate: string): (ok: bool)
    ensures u.password.None? ==> !ok
    ensures ok ==> u.password.Some? && u.password.value.Digest?
  {
    match u.password
    case Some(Digest(_, _, t)) => candidate == t
    case _ => false
  }

  datatype SaveResult = Saved(user: UserRecord) | Invalid(error: SchemaError)

  /** Saving a new document: validation, then the hashing hook. A refused
      save reports the first failing path; a stored document differs from
      the one given at most in its password, and a plaintext password is
      stored as a digest that exactly that plaintext matches. */
  function SaveNew(u: UserRecord, salt: nat): (r: SaveResult)
    ensures r.Saved? <==> Validate(u).None?
    ensures r.Invalid? ==> Validate(u) == Some(r.error)
    ensures r.Saved? ==> r.user == PreSaveHash(u, salt)
    ensures r.Saved? ==> r.user == u.(password := r.user.password)
    ensures r.Saved? && u.password.Some? && u.password.value.Plain?
            ==> r.user.password.Some? && r.user.password.value.Digest?
                && forall c :: ComparePassword(r.user, c) <==> c == u.password.value.text
    ensures r.Saved? && !(u.password.Some? && u.password.value.Plain?) ==> r.user == u
  {
    match Validate(u)
    case Some(e) => Invalid(e)
    case None => Saved(PreSaveHash(u, salt))
  }

  // ---------------------------------------------------------------------
  // Serialisation

  datatype JsonValue = JStr(s: string) | JBool(b: bool) | JNum(n: int) | JSecret(secret: Secret)

  /** The paths every document has. */
  function CoreFields(u: UserRecord): map<string, JsonValue> {
    map[
      "_id" := JStr(u.id), "name" := JStr(u.name), "email" := JStr(u.email),
      "isGoogleUser" := JBool(u.isGoogleUser), "isVerified" := JBool(u.isVerified),
      "createdAt" := JNum(u.createdAt), "updatedAt" := JNum(u.updatedAt)]
  }

  const OptionalPaths: set<string> := {"password", "googleId", "otp", "otpExpires"}

  /** The paths that are present only when set. */
  function OptionalFields(u: UserRecord): (m: map<string, JsonValue>)
    ensures m.Keys <= OptionalPaths
    ensures ("password" in m <==> u.password.Some?) && (u.password.Some? ==> m["password"] == JSecret(u.password.value))
    ensures ("googleId" in m <==> u.googleId.Some?) && (u.googleId.Some? ==> m["googleId"] == JStr(u.googleId.value))
    ensures ("otp" in m <==> u.otp.Some?) && (u.otp.Some? ==> m["otp"] == JStr(u.otp.value))
    ensures ("otpExpires" in m <==> u.otpExpires.Some?) && (u.otpExpires.Some? ==> m["otpExpires"] == JNum(u.otpExpires.value))
  {
    var withPassword := if u.password.Some? then map["password" := JSecret(u.password.value)] else map[];
    var withGoogle := if u.googleId.Some? then withPassword["googleId" := JStr(u.googleId.value)] else withPassword;
    var withOtp := if u.otp.Some? then withGoogle["otp" := JStr(u.otp.value)] else withGoogle;
    if u.otpExpires.Some? then withOtp["otpExpires" := JNum(u.otpExpires.value)] else withOtp
  }

  /** `toObject()`: every field that is set, under its schema path. The
      paths every document has are always there with the record's values,
      whichever optional fields are set; an optional path is there exactly
      when its field is set. */
  function ToObject(u: UserRecord): (o: map<string, JsonValue>)
    ensures "_id" in o && o["_id"] == JStr(u.id)
    ensures "name" in o && o["name"] == JStr(u.name)
    ensures "email" in o && o["email"] == JStr(u.email)
    ensures "isVerified" in o && o["isVerified"] == JBool(u.isVerified)
    ensures "isGoogleUser" in o && o["isGoogleUser"] == JBool(u.isGoogleUser)
    ensures ("password" in o <==> u.password.Some?) && (u.password.Some? ==> o["password"] == JSecret(u.password.value))
    ensures ("googleId" in o <==> u.googleId.Some?) && (u.googleId.Some? ==> o["googleId"] == JStr(u.googleId.value))
    ensures ("otp" in o <==> u.otp.Some?) && (u.otp.Some? ==> o["otp"] == JStr(u.otp.value))
    ensures ("otpExpires" in o <==> u.otpExpires.Some?) && (u.otpExpires.Some? ==> o["otpExpires"] == JNum(u.otpExpires.value))
  {
    var core := {"_id", "name", "email", "isVerified", "isGoogleUser"};
    assert core !! OptionalPaths;
    CoreFields(u) + OptionalFields(u)
  }

  const HiddenFields: set<string> := {"password", "otp", "otpExpires"}

  /** `toJSON`: the object without the password, the code and its expiry;
      every other field is kept with its value. */
  function ToJson(u: UserRecord): (j: map<string, JsonValue>)
    ensures j.Keys !! HiddenFields
    ensures j.Keys == ToObject(u).Keys - HiddenFields
    ensures forall k :: k in j ==> j[k] == ToObject(u)[k]
    ensures forall k :: k in j ==> !j[k].JSecret?
  {
    ToObject(u) - HiddenFields
  }

  // ---------------------------------------------------------------------
  // Store invariant

  /** What every stored record satisfies once the flows of the auth
      controller are the only writers. The email's pattern is a property of
      the store's keys (`EmailsMatchPattern`). */
  predicate WellFormed(u: UserRecord) {
    && u.email != "" && IsNormalizedEmail(u.email)
    && u.name != "" && |u.name| <= NameMaxLength
    && (u.password.Some? ==> u.password.value.Digest?)
    && (u.otp.Some? <==> u.otpExpires.Some?)
    && (u.otp.Some? ==> Otp.IsOtpShaped(u.otp.value))
    && (!u.isVerified ==> u.otp.Some?)
    && (u.isGoogleUser ==> u.googleId.Some?)
    && (u.password.Some? || u.isGoogleUser)
  }

  /** A well-formed record whose email has the schema's shape passes the
      schema's validation as it stands, so the flows that load a record,
      change it and save it again without checking first are never refused
      by the schema. */
  lemma WellFormedPassesValidation(u: UserRecord)
    requires WellFormed(u) && MatchesEmailPattern(u.email)
    ensures Validate(u).None?
    ensures forall salt: nat :: SaveNew(u, salt) == Saved(u)
  {
  }

  /** Every stored record passes the schema's validation. */
  lemma StoredRecordPassesValidation(store: UserStore, e: string)
    requires StoreInv(store) && e in store
    ensures Validate(store[e]).None?
    ensures forall salt: nat :: SaveNew(store[e], salt) == Saved(store[e])
  {
    assert MatchesEmailPattern(store[e].email);
    WellFormedPassesValidation(store[e]);
  }

  predicate StoreInv(store: UserStore) {
    RecordsWellFormed(store) && EmailsMatchPattern(store) && UniqueIds(store)
  }

  /** Every key, and so every stored email, has the schema's email shape.
      The trigger leaves the pattern folded until a proof asks about it. */
  predicate EmailsMatchPattern(store: UserStore) {
    forall e {:trigger MatchesEmailPattern(e)} :: e in store ==> MatchesEmailPattern(e)
  }

  /** Every record is well formed and stored under its own email. */
  predicate RecordsWellFormed(store: UserStore) {
    forall e :: e in store ==> store[e].email == e && WellFormed(store[e])
  }

  predicate UniqueIds(store: UserStore) {
    forall e1, e2 :: e1 in store && e2 in store && store[e1].id == store[e2].id ==> e1 == e2
  }

  /** Storing a well-formed record under its own email keeps the invariant,
      provided no other record has its id. */
  lemma PutPreservesInv(store: UserStore, u: UserRecord)
    requires StoreInv(store) && WellFormed(u) && MatchesEmailPattern(u.email)
    requires forall e :: e in store && e != u.email ==> store[e].id != u.id
    ensures StoreInv(store[u.email := u])
  {
    PutKeepsRecordsWellFormed(store, u);
    PutKeepsEmailsMatching(store, u);
    PutKeepsIdsUnique(store, u);
  }

  lemma PutKeepsEmailsMatching(store: UserStore, u: UserRecord)
    requires EmailsMatchPattern(store) && MatchesEmailPattern(u.email)
    ensures EmailsMatchPattern(store[u.email := u])
  {
  }

  lemma PutKeepsRecordsWellFormed(store: UserStore, u: UserRecord)
    requires RecordsWellFormed(store) && WellFormed(u)
    ensures RecordsWellFormed(store[u.email := u])
  {
  }

  lemma PutKeepsIdsUnique(store: UserStore, u: UserRecord)
    requires UniqueIds(store)
    requires forall e :: e in store && e != u.email ==> store[e].id != u.id
    ensures UniqueIds(store[u.email := u])
  {
    var s' := store[u.email := u];
    forall e1, e2 | e1 in s' && e2 in s' && s'[e1].id == s'[e2].id
      ensures e1 == e2
    {
      if e1 != u.email && e2 != u.email {
        assert s'[e1] == store[e1] && s'[e2] == store[e2];
      }
    }
  }

  /** Replacing a record in place (same key, same id) by a well-formed one
      keeps the invariant. */
  lemma ReplacePreservesInv(store: UserStore, key: string, u: UserRecord)
    requires StoreInv(store) && key in store
    requires WellFormed(u) && u.email == key && u.id == store[key].id
    ensures StoreInv(store[key := u])
  {
    OthersHaveOtherIds(store, key);
    assert MatchesEmailPattern(u.email);
    PutPreservesInv(store, u);
  }

  lemma OthersHaveOtherIds(store: UserStore, key: string)
    requires UniqueIds(store) && key in store
    ensures forall e :: e in store && e != key ==> store[e].id != store[key].id
  {
  }

  predicate FreshId(store: UserStore, id: UserId) {
    forall e :: e in store ==> store[e].id != id
  }
}
