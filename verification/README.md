# notesave-backend: identity, sessions and notes in Dafny

This project models the core of the notesave backend, an Express/Mongoose
service. Users register with a six-digit e-mail code, confirm it, and sign
in with a password or a Google identity. Signed-in users keep notes and
page through them. Each request handler is a pure function from
(store, request, environment) to (reply, new store). The environment holds
the clock, the random draw, the id MongoDB assigns, the bcrypt salt,
whether the mail server accepted a message, and the `JWT_SECRET` setting.
The model proves what the handlers promise about those stores.

Modules, one per file:

- `Base` (base.dfy): `Option` and JavaScript truthiness of an optional string.
- `Text` (text.dfy): the JavaScript built-ins the code relies on:
  - `trim`, with ECMAScript's whitespace set;
  - ASCII lower-casing;
  - `Number#toString` of naturals;
  - one-character `split`/`join`;
  - `parseInt` without a radix;
  - validator's `isNumeric`.
- `Otp` (otp.dfy): `generateOTP` over an integer draw.
- `Jwt` (jwt.dfy): signing and verification. Tokens are abstract signed
  records with `iat` and `exp` in seconds.
- `User` (user.dfy): the user document:
  - setters, schema validators and the email pattern;
  - the pre-save bcrypt hook, `comparePassword` and `toJSON`;
  - the collection invariant. The collection is a map keyed by the
    normalized email, which carries the unique index.
- `AuthController` (auth_controller.dfy): `registerUser`, `verifyOTP`,
  `resendOTP`, `loginUser`, `googleAuth` and the `getCurrentUser` payload.
- `AuthMiddleware` (auth_middleware.dfy): `authenticateToken` and
  `optionalAuth`. `User.findById` and the decoding of a wire token are
  parameters.
- `Validation` (validation.dfy): every express-validator chain and
  `handleValidationErrors`.
- `Notes` (note.dfy): the note document, the owner filter, the
  `createdAt`-descending sort, and lookups in the collection. The
  collection is a sequence in insertion order.
- `NotesController` (notes_controller.dfy): pagination and the note
  handlers.
- `Scenarios` (scenarios.dfy): properties that cross modules. They cover
  what a passing validator guarantees the handler behind it, and what the
  issued tokens open at the guard.

Behaviours of the code that the model keeps:

- `generateOTP` yields 100000..999999, so a code never has a leading zero
  (`Otp.GenerateOtpCoversShape`).
- A failed OTP mail during registration answers 500 but leaves the
  unverified account stored (`AuthController.MailFailureKeepsAccount`).
- `verifyOTP` creates an access token but never sends it. The client gets
  only the thirty-day refresh token, and the guard accepts that token like
  an access token (`Scenarios.RefreshTokenOpensGuard`).
- The login and Google cookies hold the access token and last three days.
  The Google cookie's comment says "1 day".

The note chains and the note schema measure text differently. validator's
`isLength` leaves out the presentation selectors U+FE0E and U+FE0F, while
the schema's `maxlength` counts every character. A title of one hundred
visible characters followed by U+FE0F therefore passes `validateNote` and
`validateNoteUpdate`, yet the schema refuses it and the handler answers
500 (`Scenarios.SelectorPaddedNoteRefused`,
`Scenarios.SelectorPaddedUpdateRefused`). Where neither field holds a
selector, the two counts agree (`Scenarios.SelectorFreeFits`).

`verifyOTP`, `resendOTP` and the Google link load a stored user, change
it and save it again with no check of their own. Mongoose validates the
document again on that save. The model does not repeat the check, because
a record that satisfies the collection invariant always passes it
(`User.StoredRecordPassesValidation`). The invariant keeps the email
pattern as a property of the collection's keys, which are the stored
emails, and the record-level facts in `User.WellFormed`;
`User.WellFormedPassesValidation` joins the two for any record, so a
changed record saved under its own key passes as well.

## Model

| member | source | states |
|---|---|---|
| `Text.Trim` | src/models/User.ts:24 | the `trim` setter yields a string that neither starts nor ends with whitespace and is no longer than its input |
| `Text.TrimmedIffFixpoint` | src/models/User.ts:24 | the strings `trim` leaves unchanged are exactly those without surrounding whitespace |
| `Text.TrimIsSlice` | src/middleware/validation.ts:33 | `trim` removes only whitespace, from both ends, and returns a contiguous slice of its input |
| `Text.TrimIdempotent` | src/middleware/validation.ts:85 | trimming an already trimmed value changes nothing, so the schema setter after the validator sanitizer is a no-op |
| `Text.ToLower` | src/models/User.ts:31 | the `lowercase` setter keeps the length, leaves no ASCII capital, and keeps every other character |
| `Text.ToLowerIdempotent` | src/models/User.ts:31 | lower-casing twice is lower-casing once |
| `Text.Decimal` | utils/email.ts:88 | `toString` of a natural is a digit string without a leading zero whose decimal value is the number |
| `Text.DecimalOfValue` | utils/email.ts:88 | rendering the value of a digit string without a leading zero gives the string back |
| `Text.ParseIntDecimal` | src/controllers/notesController.ts:11-12 | `parseInt` reads back every number JavaScript prints |
| `Text.ParseIntDigits` | src/controllers/notesController.ts:11-12 | `parseInt` of a digit string without a leading zero is its decimal value |
| `Text.ParseInt` | src/controllers/notesController.ts:11-12 | `parseInt` of whitespace alone, or of a string whose first visible character is neither a sign nor a digit, is NaN; only a leading minus gives a negative number |
| `Text.ParseIntNegative` | src/controllers/notesController.ts:11-12 | a minus sign before a digit string without a leading zero negates its value |
| `Text.JoinSplit` | src/middleware/auth.ts:22 | splitting on a character and joining again restores the string |
| `Text.SplitJoin` | src/middleware/auth.ts:22 | joining separator-free parts and splitting again restores the parts |
| `Text.SplitCovers` | src/models/User.ts:33-36 | every character of a string other than the separator lies in one of the split parts |
| `Text.SecondField` | src/middleware/auth.ts:22 | `split(' ')[1]` exists exactly when the header holds a space, and holds no space |
| `Text.DigitsAreNumeric` | src/middleware/validation.ts:76 | a non-empty digit string passes `isNumeric` |
| `Otp.GenerateOtp` | utils/email.ts:87-89 | each code is six digits without a leading zero, and its value is 100000 plus the draw |
| `Otp.GenerateOtpInjective` | utils/email.ts:87-89 | distinct draws give distinct codes |
| `Otp.GenerateOtpCoversShape` | utils/email.ts:87-89 | every six-digit code without a leading zero is generated by exactly the draw of its value minus 100000; no code has a leading zero |
| `Jwt.SigningKey` | utils/jwt.ts:28-33 | the key is `JWT_SECRET` when truthy and "fallback-secret" otherwise; it is never empty |
| `Jwt.VerifyToken` | utils/jwt.ts:28-33 | a token verifies exactly when signed under this key and the current second is before `exp`; a wrong key is "invalid" and never "expired" |
| `Jwt.GenerateToken` | utils/jwt.ts:11-26 | the access token carries id, email and name, expires seven days after its issue second, and verifies when issued |
| `Jwt.GenerateRefreshToken` | utils/jwt.ts:35-48 | the refresh token carries id and email but no name, expires after thirty days, and verifies when issued |
| `Jwt.AccessRoundTrip` | utils/jwt.ts:11-33 | an access token verifies to its own claims at every instant before its seventh day, and is expired from then on |
| `Jwt.RefreshRoundTrip` | utils/jwt.ts:28-48 | the same for a refresh token, with thirty days |
| `Jwt.RefreshOutlivesAccess` | utils/jwt.ts:11-48 | issued together, the refresh token expires later, and between the two expiries only the refresh token verifies |
| `Jwt.WrongKeyIsInvalid` | utils/jwt.ts:28-33 | a token signed under another key is rejected as invalid at any time |
| `Jwt.FallbackKeyForgeable` | utils/jwt.ts:18-24 | with `JWT_SECRET` unset or empty, a token anyone signs with the public literal verifies |
| `User.NormalizeEmail` | src/models/User.ts:27-37 | the email setters never lengthen the address |
| `User.NormalizeEmailIsNormalized` | src/models/User.ts:27-37 | a normalized email has no capital letter and no surrounding whitespace |
| `User.NormalizedIffFixpoint` | src/models/User.ts:27-37 | the normalized emails are exactly the fixpoints of the setters |
| `User.NormalizeEmailIdempotent` | src/models/User.ts:27-37 | normalizing twice is normalizing once, so a stored email used as a query finds its own record |
| `User.EmailPatternCharacters` | src/models/User.ts:33-36 | an address the email pattern accepts uses only word characters, dots, hyphens and `@`, so plus-addresses fail |
| `User.EmailPatternAccepts` | src/models/User.ts:33-36 | a hyphenated local part, `@`, a hyphenated host and a two- or three-character top-level label pass the pattern |
| `User.CreateDoc` | src/models/User.ts:20-65 | `User.create` trims the name, normalizes the email, defaults both flags to false, and stamps both timestamps with the creation instant |
| `User.Validate` | src/models/User.ts:21-42 | a document passes exactly when name and email are non-empty, the name has at most 50 characters, the email matches the pattern, and a plaintext being saved has at least 6 characters |
| `User.PreSaveHash` | src/models/User.ts:72-84 | only a modified, non-empty password is replaced by a digest, after which exactly the original plaintext compares equal; nothing else changes |
| `User.ComparePassword` | src/models/User.ts:87-92 | no stored password never matches, and a match needs a stored digest |
| `User.SaveNew` | src/models/User.ts:21-84 | a save succeeds exactly when validation passes; a refused save reports the first failing path; the stored document differs from the given one at most in its password; a plaintext password is stored as a digest that exactly that plaintext matches |
| `User.ToObject` | src/models/User.ts:95-101 | `toObject` always holds id, name, email and both flags with the record's values, and each optional path (password, `googleId`, code, expiry) exactly when that field is set, with its value |
| `User.ToJson` | src/models/User.ts:95-101 | `toJSON` drops exactly password, code and expiry, keeps every other field and value, and never serialises a secret |
| `User.PutPreservesInv` | src/models/User.ts:27-37 | storing a well-formed record under its own email, when that email matches the pattern and no other record has its id, keeps the collection invariant |
| `User.ReplacePreservesInv` | src/models/User.ts:27-37 | replacing a record in place with a well-formed one with the same id keeps the invariant |
| `User.WellFormedPassesValidation` | src/models/User.ts:21-42 | a well-formed record whose email matches the pattern passes the schema's validation and is saved unchanged |
| `User.StoredRecordPassesValidation` | src/models/User.ts:21-42 | every record of a collection satisfying the invariant passes the schema's validation and is saved unchanged, so the re-saves of `verifyOTP`, `resendOTP` and the Google link are never refused |
| `AuthController.ErrorStatus` | src/controllers/authController.ts:26-325 | every refusal but a thrown error is a 4xx; 401 exactly for an unverified email or wrong credentials, 404 exactly for a missing or already verified user, 500 exactly for a thrown error |
| `AuthController.Status` | src/controllers/authController.ts:26-325 | a reply is 400 or above exactly when it is a refusal, 201 exactly for a registration, and 200 for the other successes |
| `AuthController.SignIn` | src/controllers/authController.ts:195-208 | sign-in yields the user summary, a refresh token verifying to id and email, and a cookie holding a valid access token that expires three days later |
| `AuthController.NewAccount` | src/controllers/authController.ts:33-45 | the account is created exactly when the inputs fit the schema; it is unverified, not a Google account, holds the fresh code with a ten-minute expiry, and accepts exactly the given password |
| `AuthController.Register` | src/controllers/authController.ts:18-70 | an existing email gives 400 and no change; a misfit gives 500 and no change; otherwise only the new record is added, and the reply is 201 or, when the mail fails, 500 |
| `AuthController.VerifyOtp` | src/controllers/authController.ts:73-122 | succeeds exactly for the stored, unexpired code; then only that record changes (verified, code cleared, `updatedAt` set) and the refresh token verifies; otherwise 400 and no change |
| `AuthController.ResendOtp` | src/controllers/authController.ts:125-161 | a missing or verified account gives 404 and no change; otherwise only the code, its expiry and `updatedAt` are replaced, and a mail failure answers 500 with the new code kept |
| `AuthController.Login` | src/controllers/authController.ts:164-234 | the store never changes; the checks run in order (unknown 404, unverified 401, wrong password 401); sign-in happens exactly when all three pass |
| `AuthController.GoogleAuth` | src/controllers/authController.ts:239-330 | exchange failure 500, no payload 400, unverified email 400; otherwise a password account is linked and verified, an existing Google account is used as is, and an unknown email gets a new verified Google account |
| `AuthController.CurrentUser` | src/controllers/authController.ts:334-359 | every field of the `getCurrentUser` payload equals the same field of the record's `toJSON` |
| `AuthController.VerifyOtpSingleUse` | src/controllers/authController.ts:77-94 | after a successful confirmation, the same code is refused at any later time |
| `AuthController.ExpiredCodeRejected` | src/controllers/authController.ts:77-88 | a code presented at or after its expiry instant is refused with no change |
| `AuthController.ResendReplacesCode` | src/controllers/authController.ts:129-146 | after a resend, the previous code is refused and the new one confirms for ten minutes |
| `AuthController.MailFailureKeepsAccount` | src/controllers/authController.ts:18-70 | when the OTP mail fails, registration answers 500, yet the unverified account stays and a second registration is refused as a duplicate |
| `AuthController.RegisteredIsUnverified` | src/controllers/authController.ts:33-49 | a fresh registration stores an unverified record, and a mail failure gives the 500 of a thrown error |
| `AuthController.DuplicateRefused` | src/controllers/authController.ts:24-30 | registering a stored email is refused with no change |
| `AuthController.PasswordlessNeverSignsIn` | src/controllers/authController.ts:169-193 | a record without a password (a Google-created account) never signs in by password |
| `AuthController.GoogleLinkKeepsPassword` | src/controllers/authController.ts:278-285 | linking a password account to Google keeps its password, verifies it, and the same password then signs in |
| `AuthController.GoogleNotRelinked` | src/controllers/authController.ts:278-286 | a second Google identity for an existing Google account changes nothing |
| `AuthController.CookieExpiresBeforeToken` | src/controllers/authController.ts:195-208 | the cookie (three days) expires before the access token it carries (seven days) |
| `AuthController.RegisterPreservesInv` | src/controllers/authController.ts:18-70 | registration keeps the user-collection invariant |
| `AuthController.VerifyOtpPreservesInv` | src/controllers/authController.ts:73-122 | confirmation keeps the invariant |
| `AuthController.ResendOtpPreservesInv` | src/controllers/authController.ts:125-161 | resending keeps the invariant |
| `AuthController.GoogleAuthPreservesInv` | src/controllers/authController.ts:239-330 | Google sign-in keeps the invariant, both when it links a password account in place and when it creates a new account with a fresh id |
| `AuthController.ReissueKeepsWellFormed` | src/controllers/authController.ts:138-143 | giving a well-formed record a new well-shaped code keeps it well formed |
| `AuthMiddleware.GuardStatus` | src/middleware/auth.ts:26-79 | every refusal of the guard is a 401 except the failed lookup, which is the only 500 |
| `AuthMiddleware.BearerToken` | src/middleware/auth.ts:22 | the header yields a token exactly when it holds a space, and that token holds no space |
| `AuthMiddleware.ExtractToken` | src/middleware/auth.ts:22-31 | a truthy cookie wins; otherwise the bearer token if truthy; otherwise no token |
| `AuthMiddleware.CheckToken` | src/middleware/auth.ts:33-79 | a bad signature gives 401 "Invalid token", expiry 401 "Token expired", no user 401, an unverified user 401 "Please verify your email first", a failed lookup 500; the user is attached exactly when the token verifies and the found user is verified |
| `AuthMiddleware.AuthenticateToken` | src/middleware/auth.ts:15-80 | a missing token is refused before anything else, and an attached user is always verified |
| `AuthMiddleware.OptionalAuth` | src/middleware/auth.ts:82-105 | attaches only verified users, and without a bearer token attaches none |
| `AuthMiddleware.BearerHeaderToken` | src/middleware/auth.ts:22 | the header `Bearer <t>` yields `t` when no cookie is sent |
| `AuthMiddleware.CookieTakesPrecedence` | src/middleware/auth.ts:22 | with a truthy cookie, the Authorization header does not affect the outcome |
| `AuthMiddleware.OptionalAuthIgnoresCookie` | src/middleware/auth.ts:88-89 | `optionalAuth` never looks at the cookie |
| `AuthMiddleware.OptionalAuthIsLenientGuard` | src/middleware/auth.ts:82-105 | `optionalAuth` attaches a user exactly when the strict guard, shown the request without its cookie, attaches that same user |
| `Validation.VisibleLength` | src/middleware/validation.ts:86-102 | the length `isLength` measures is at most the number of characters, and equal to it exactly when no presentation selector is present |
| `Validation.VisibleLengthAppend` | src/middleware/validation.ts:86-102 | the measured length of a concatenation is the sum of the measured lengths |
| `Validation.TrimmedWithinWidens` | src/middleware/validation.ts:83-95 | a value within a length bound is within every larger bound |
| `Validation.HandleValidationErrors` | src/middleware/validation.ts:6-28 | the request passes exactly when no error was collected; otherwise 400 with every error |
| `Validation.NameErrors` | src/middleware/validation.ts:32-37 | a name passes exactly when its trimmed form has 2 to 50 characters, all letters or whitespace; both failures are reported |
| `Validation.NameAcceptedCountsAll` | src/middleware/validation.ts:32-37 | an accepted name holds no presentation selector, so its trimmed form has 2 to 50 characters by the schema's count too |
| `Validation.EmailErrors` | src/middleware/validation.ts:39-42 | an email passes exactly when `isEmail` accepts it |
| `Validation.OtpErrors` | src/middleware/validation.ts:73-77 | a code passes exactly when it has six characters and is numeric |
| `Validation.ValidateUserRegistration` | src/middleware/validation.ts:31-50 | registration passes exactly when name, email and a 6-character password pass, and fails with 400 otherwise |
| `Validation.ValidateUserLogin` | src/middleware/validation.ts:53-64 | login passes exactly when the email passes and the password is non-empty |
| `Validation.ValidateOtp` | src/middleware/validation.ts:67-80 | confirmation passes exactly when the email and the code pass |
| `Validation.ValidateResendOtp` | src/middleware/validation.ts:124-131 | resend passes exactly when the email passes |
| `Validation.ValidateGoogleAuth` | src/middleware/validation.ts:115-121 | Google sign-in passes exactly when `token` is non-empty |
| `Validation.ValidateNote` | src/middleware/validation.ts:83-95 | a new note passes exactly when the trimmed title measures 1 to 100 and the trimmed content 1 to 5000, presentation selectors left out of the count |
| `Validation.OptionalCheck` | src/middleware/validation.ts:98-109 | an optional field passes when absent, and when present exactly when its trimmed measured length is in bounds |
| `Validation.ValidateNoteUpdate` | src/middleware/validation.ts:98-112 | an update passes exactly when every present field is in bounds |
| `Validation.Sanitized` | src/middleware/validation.ts:85-91 | the handler receives the trimmed value of a present field, without surrounding whitespace and no longer than the input, and nothing for an absent one |
| `Validation.SanitizedIdempotent` | src/middleware/validation.ts:85-91 | sanitizing twice is sanitizing once, so the schema's trim setter behind the chain finds nothing to cut |
| `Validation.GeneratedOtpPasses` | src/middleware/validation.ts:73-77 | every generated code passes the OTP chain |
| `Validation.SignedCodePasses` | src/middleware/validation.ts:73-77 | "+12345" passes the OTP chain although no generated code looks like it |
| `Validation.EmptyUpdatePassesChain` | src/middleware/validation.ts:98-112 | an update with no fields passes the chain and is left to the handler |
| `Validation.SelectorPaddedTitlePasses` | src/middleware/validation.ts:86-87 | one hundred visible characters followed by U+FE0F make 101 characters that trimming keeps, and pass the title check |
| `Notes.ValidateNote` | src/models/Note.ts:13-28 | a note is valid exactly when title and content are non-empty, within 100 and 5000 characters, and it has an owner |
| `Notes.OwnedBy` | src/controllers/notesController.ts:16 | the owner filter keeps exactly the caller's notes |
| `Notes.InsertNewest` | src/models/Note.ts:34 | inserting into a newest-first sequence keeps it newest first |
| `Notes.InsertNewestPermutes` | src/models/Note.ts:34 | insertion adds the note and loses nothing |
| `Notes.SortNewest` | src/controllers/notesController.ts:17 | the sort is a permutation ordered by `createdAt`, newest first |
| `Notes.Listing` | src/controllers/notesController.ts:16-17 | the listing is newest first, holds exactly the caller's notes, and is a permutation of what the owner filter finds |
| `Notes.FindOwned` | src/controllers/notesController.ts:56 | the lookup finds a note with that id and owner, and finds none exactly when there is none |
| `Notes.RemoveId` | src/controllers/notesController.ts:172 | delete-by-id keeps exactly the notes with other ids |
| `Notes.ReplaceAt` | src/controllers/notesController.ts:138 | saving a note replaces it at its position and nothing else |
| `Notes.FindOwnedIsTheNote` | src/controllers/notesController.ts:56 | with unique ids, the lookup by id and owner finds that note exactly when the caller owns it |
| `Notes.ReplaceKeepsInv` | src/controllers/notesController.ts:135-138 | replacing a note with a well-formed one with the same id keeps the note-collection invariant |
| `Notes.RemoveIdKeepsInv` | src/controllers/notesController.ts:172 | deleting keeps the invariant |
| `NotesController.ErrorStatus` | src/controllers/notesController.ts:40-326 | 404 exactly for a missing note, 500 exactly for a thrown error, and 400 exactly for the three refused requests |
| `NotesController.QueryInt` | src/controllers/notesController.ts:11-12 | `parseInt(q) \|\| d` is never zero: the parsed value unless it is NaN or zero, else the default |
| `NotesController.QueryIntReadsPrinted` | src/controllers/notesController.ts:11-12 | a printed page number is read back; "0" and the empty string fall back to the default |
| `NotesController.CeilDiv` | src/controllers/notesController.ts:23 | `Math.ceil(a / b)` is bounded as an exact ceiling for both signs of the divisor |
| `NotesController.Paginate` | src/controllers/notesController.ts:13-37 | a negative skip is a 500; otherwise the page is the window of at most `abs(limit)` notes from the skip, and the block reports page, total, `totalPages`, `hasNext` and `hasPrev` as computed |
| `NotesController.PageOf` | src/controllers/notesController.ts:11-19 | the page fails exactly when the skip computed from the raw query values is negative; otherwise it is the window of the input at that skip, at most `abs(limit)` long, and reports the input's total |
| `NotesController.GetNotes` | src/controllers/notesController.ts:8-48 | a negative skip is a 500; otherwise the page is exactly the window of the caller's newest-first listing at `(page - 1) * limit`, at most `abs(limit)` notes, with the caller's total |
| `NotesController.Where` | src/controllers/notesController.ts:247-253 | the search filter keeps exactly the notes the pattern accepts |
| `NotesController.SearchNotes` | src/controllers/notesController.ts:229-294 | a falsy `q` gives 400 before anything else and a bad pattern 500; a negative skip is a 500; otherwise the page is exactly the window of the caller's matching notes, newest first, and the total counts all the caller's matching notes |
| `NotesController.GetNoteById` | src/controllers/notesController.ts:51-78 | the note is returned exactly when the caller owns a note with that id; otherwise 404 |
| `NotesController.CreateNote` | src/controllers/notesController.ts:81-107 | the note is created exactly when the trimmed title and the content fit the schema; it is appended with the trimmed title; otherwise 500 and no change |
| `NotesController.Assign` | src/controllers/notesController.ts:134-136 | an update assigns the present fields, keeps id, owner and `createdAt`, and moves `updatedAt` only when a value changed |
| `NotesController.AssignKeepsValid` | src/controllers/notesController.ts:134-138 | assigning in-bounds values to a valid note gives a valid note |
| `NotesController.InBoundsUpdateApplies` | src/controllers/notesController.ts:110-155 | an update with a truthy, in-bounds field is applied or answered 404; the schema never refuses it |
| `NotesController.SchemaRefusedUpdate` | src/controllers/notesController.ts:134-150 | when the assigned note fails the schema, the update is a 500 with no change |
| `NotesController.OverlongTitleRefused` | src/controllers/notesController.ts:134-150 | a title whose trimmed form has more than 100 characters makes the update of the caller's note a 500 |
| `NotesController.UpdateNote` | src/controllers/notesController.ts:110-155 | both fields falsy gives 400 before the lookup; a foreign or missing note gives 404; on success only that note changes |
| `NotesController.DeleteNote` | src/controllers/notesController.ts:158-188 | deletes exactly when the caller owns the id, removing the notes with that id; otherwise 404 and no change |
| `NotesController.KeepUnlisted` | src/controllers/notesController.ts:204-207 | `deleteMany` keeps exactly the notes not both listed and owned by the caller |
| `NotesController.DeleteMultipleNotes` | src/controllers/notesController.ts:191-226 | missing or empty ids give 400; otherwise exactly the listed notes the caller owns go, and the count is the number removed |
| `NotesController.HasNextIffMoreNotes` | src/controllers/notesController.ts:23-34 | with a positive limit, `hasNext` holds exactly when notes remain after the page |
| `NotesController.MulMonotone` | src/controllers/notesController.ts:13 | multiplying by a non-negative limit preserves order |
| `NotesController.PagesCoverListing` | src/controllers/notesController.ts:13-19 | every note of the listing appears on page `i / limit + 1` at offset `i % limit`, so no note is skipped |
| `NotesController.LastPageIsLast` | src/controllers/notesController.ts:23 | `totalPages` is the last page that holds notes |
| `NotesController.NegativeLimit` | src/controllers/notesController.ts:12-19 | a negative limit lists `abs(limit)` notes on page 1 with a non-positive page count, and every later page is a 500 |
| `NotesController.DefaultsListNewestTen` | src/controllers/notesController.ts:11-19 | without query values the caller gets the ten newest notes on page 1 |
| `NotesController.WhereAll` | src/controllers/notesController.ts:247-253 | a filter that accepts everything keeps everything |
| `NotesController.SearchEverythingIsGetNotes` | src/controllers/notesController.ts:229-265 | a search whose pattern matches every note answers what `getNotes` answers |
| `NotesController.ForeignNoteUntouchable` | src/controllers/notesController.ts:125-172 | another user's note cannot be read, updated or deleted: 404 (or 400) with no change |
| `NotesController.CreateNoteKeepsInv` | src/controllers/notesController.ts:81-107 | creating with a fresh id keeps the note-collection invariant |
| `NotesController.UpdateNoteKeepsInv` | src/controllers/notesController.ts:110-155 | updating keeps the invariant |
| `NotesController.DeleteNoteKeepsInv` | src/controllers/notesController.ts:158-188 | deleting keeps the invariant |
| `NotesController.DeleteNoteRemovesOne` | src/controllers/notesController.ts:163-172 | with unique ids, deleting an owned note removes exactly one note |
| `NotesController.RemoveIdRemovesOne` | src/controllers/notesController.ts:172 | with unique ids, removing a present id shortens the collection by one |
| `NotesController.RemoveIdKeepsAll` | src/controllers/notesController.ts:172 | removing an absent id changes nothing |
| `NotesController.OwnedIdsMember` | src/controllers/notesController.ts:204-207 | an id is among the caller's ids exactly when one of the caller's notes has it |
| `NotesController.DeletedCountIsOverlap` | src/controllers/notesController.ts:204-213 | with unique ids, `deletedCount` is the number of distinct requested ids naming the caller's notes |
| `NotesController.KeepUnlistedKeepsInv` | src/controllers/notesController.ts:204-207 | bulk deletion keeps the invariant |
| `NotesController.DeleteMultipleNotesKeepsInv` | src/controllers/notesController.ts:191-226 | the bulk-delete handler keeps the invariant |
| `Scenarios.ValidatedRegistrationFits` | src/middleware/validation.ts:31-50 | a registration that passed the chain, with an email the schema pattern accepts, never hits the schema error path; the accepted name holds no presentation selector |
| `Scenarios.ValidatedNoteIsCreated` | src/middleware/validation.ts:83-95 | behind `validateNote`, the note is created exactly when the schema's count of both trimmed fields is within bounds, and is otherwise a 500 with no change; stored content is trimmed |
| `Scenarios.SelectorFreeFits` | src/middleware/validation.ts:83-112 | for a field without presentation selectors, a length the chain accepts is one the schema accepts |
| `Scenarios.SelectorPaddedNoteRefused` | src/controllers/notesController.ts:81-107 | a trimmed text within 100 by `isLength` but longer than 100 characters passes `validateNote`, survives sanitizing, and `createNote` answers it with 500 |
| `Scenarios.SelectorPaddedUpdateRefused` | src/controllers/notesController.ts:110-155 | the same text as the only field of an update passes `validateNoteUpdate`, and updating the caller's note answers 500 |
| `Scenarios.ValidatedUpdateApplies` | src/middleware/validation.ts:98-112 | behind `validateNoteUpdate`, an update with a field is applied, answered 404, or refused by the schema with 500; when the schema's count fits, never the 500 |
| `Scenarios.SanitizedTitleFits` | src/middleware/validation.ts:99-103 | a title the update chain accepts reaches the handler non-empty, trimmed and truthy, and within the schema's bound whenever the schema's count fits |
| `Scenarios.SanitizedContentFits` | src/middleware/validation.ts:105-109 | content the update chain accepts reaches the handler non-empty and truthy, and within the schema's bound whenever the schema's count fits |
| `Scenarios.LoginCookieOpensGuard` | src/controllers/authController.ts:195-208 | the login cookie passes the guard until the access token's seventh day, and the profile says verified |
| `Scenarios.ExpiredCookieRejected` | src/controllers/authController.ts:195-208 | from the access token's expiry on, the same cookie is answered "Token expired" |
| `Scenarios.RefreshTokenOpensGuard` | src/controllers/authController.ts:97-112 | the refresh token from `verifyOTP`, sent as a bearer token, opens the guard for thirty days |

## Left out

- Mail delivery, the Google code exchange and `verifyIdToken`, MongoDB I/O,
  logging and the clock. Each is an input: `Env.mailDelivered`, a
  `GoogleExchange` value, a store value, or `Env.now`.
- Concurrency between requests. Every handler is one atomic transition, so
  races between the duplicate check and `User.create` are not modelled.
- bcrypt is abstract. A digest records its plaintext, and `compare` is
  equality with it. Its 72-byte input truncation is not modelled.
- JWT signing is abstract. A `Jwt.Token` records claims, key, `iat` and
  `exp`, and the wire encoding is a parameter of the guard. Header
  algorithms and `nbf` are out of scope.
- `Text.ToLower`: lower-cases ASCII only. Mongoose's `toLowerCase` also
  folds non-ASCII capitals.
- Length limits count characters (code points), as validator's `isLength`
  does when it counts a surrogate pair once. Mongoose's `maxlength` counts
  UTF-16 units, so the schema bounds differ from the model only for
  characters outside the Basic Multilingual Plane.
- `Validation.EmailErrors`: `isEmail` is a parameter, not validator's
  grammar. The `normalizeEmail()` sanitizer's provider-specific rewriting
  (dropping Gmail dots and `+` tags) is not modelled. Handlers see the
  email only through the schema's lower-case and trim setters.
- `NotesController.SearchNotes`: the case-insensitive pattern built from
  `q` is an abstract matcher, and a pattern that does not compile is
  `None`. Regex syntax is out of scope.
- `getNotesStats`, `logoutUser`, the routes, startup and the database
  connection are outside the modelled core.
- Malformed ObjectIds, which make Mongoose throw a cast error, are not
  modelled: a note id is any string. The user guard's `LookupFailed`
  stands for that error there.
- `Notes.SortNewest`: notes with equal `createdAt` keep collection order.
  MongoDB leaves their order unspecified.
- `NotesController.QueryInt`: `parseInt` is exact on unbounded integers.
  The double-precision rounding of very long digit strings is not
  modelled.
- `AuthController.ResendOtp`: `updatedAt` is set on every resend, which
  matches Mongoose only because a new code or expiry always modifies the
  document.
- `Validation.ValidateGoogleAuth`: the chain checks a `token` field, while
  `googleAuth` reads `code`. How the two are wired at the route is left
  out; the handler takes the exchange outcome directly.
- Body values that are not strings (numbers, arrays, objects) are not
  modelled. Fields are optional strings; `noteIds` is an optional
  sequence, and a non-array value is `None`.
- Schema `select: false`, the `__v` version key and `googleId`'s sparse
  index change nothing the handlers decide, so they are not modelled.
