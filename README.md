# Note app backend: OTP sign-in and owner-scoped notes, in Dafny

This project models the two controllers that hold the logic of a small
notes backend. The rest of the backend is HTTP routing, a hosted database
client and an SMTP mailer.

- **Auth** (`auth.dfy`, with `otp_code.dfy`). Passwordless sign-in over two
  tables: `users`, keyed by email, and `otps`, of rows
  `{id, user_id, otp, expires_at}` whose `id` is a serial.
  - Signup, signin, request-otp and resend-otp each issue a six-digit code
    that expires five minutes later.
  - Each issuance first runs a global sweep that deletes the rows with
    `expires_at < now`.
  - Resend first deletes every row of the user.
  - Verify-signin reads the user's row with the highest id. It checks, in
    this order: the fields are present, the user exists, a row exists, the
    row has not expired (`expires_at <= now` counts as expired), and the
    code is identical. On success it deletes that one row and returns a
    one-hour token carrying `{id, email}`.
- **Notes** (`notes.dfy`). A `notes` table of
  `{id, user_id, heading, content, created_at}`. Add needs a non-empty
  heading and content. List returns the caller's notes, newest first.
  Delete is scoped by note id AND owner id, and reports "not found" when no
  row matched.
- **Table** (`table.dfy`). The relational meaning of the store's query
  builder: `select ... eq ...` keeps the rows a predicate accepts,
  `delete ... eq ...` keeps the rows it rejects (`Where`). It also gives the
  laws the controllers' proofs use.

Each table is a field of type `seq` on a class (`Auth.AuthStore`,
`Notes.NotesStore`), in insertion order. The handlers are methods that
reassign those fields in the order the source performs its awaited calls.
`Valid()` keeps these invariants:
- serial ids strictly increase along each table and stay below the next
  serial;
- no two users share an email.

Inputs the source takes from its environment are parameters:
- `now`: the clock, in milliseconds;
- `offset`: the random draw, an integer with `0 <= offset < 900000`;
- `dobDate`: the result of parsing the date of birth (`None` when
  `new Date(dob)` is NaN);
- `caller`: the authenticated user id that the middleware attaches.

In the source a field missing from a request body is `undefined`. The model
writes it as the empty string, the only falsy string in JavaScript, so each
handler's presence check reads the same. Each code handed to the mailer is appended to
`outbox`, an output event. `resendOTP` is exported at
`controllers/authController.js:257`, but `routes/auth.js:3-18` does not
mount it. The model keeps the handler as written.

## Model

| member | source | states |
|---|---|---|
| `Table.Where` | controllers/notesController.js:33-36 | the filtered table holds exactly the rows of the input that the predicate accepts (both directions), and is no longer than the input |
| `OtpCode.DecimalString` | controllers/authController.js:6 | `toString` of a non-negative integer is a non-empty string of decimal digits, with no leading zero unless the number is 0 |
| `OtpCode.DecimalRoundTrip` | controllers/authController.js:6 | reading the decimal string back gives the original number |
| `OtpCode.DecimalLength` | controllers/authController.js:6 | a number with k+1 digits has a decimal string of length k+1 |
| `OtpCode.GenerateOtp` | controllers/authController.js:6 | for every draw offset below 900000, the code has exactly 6 digits, does not start with 0, and denotes 100000 + offset, a value in [100000, 999999] |
| `OtpCode.GenerateOtpInjective` | controllers/authController.js:6 | two draws give the same code exactly when the draws are equal |
| `Auth.HttpStatus` | controllers/authController.js:148-190 | every refusal is answered with 400 or 404, and with 404 exactly when the user is unknown |
| `Auth.NewOtp` | controllers/authController.js:58-68 | the inserted row belongs to the given user under the given serial, carries a six-digit code denoting 100000 + offset, and expires exactly 300000 ms (five minutes) after `now` |
| `Auth.Reissued` | controllers/authController.js:54-68 | after sweep and insert, the table holds exactly the old rows with `expires_at >= now` plus the new row, which is last; when the new serial is above every old id, the table stays ascending and the new row is its user's newest row |
| `Auth.SignToken` | controllers/authController.js:197-201 | the token's claims are the user's id and email, and it is valid for exactly one hour (3600000 ms) from `now` |
| `Auth.Verdict` | controllers/authController.js:147-191 | "missing fields" exactly when the email or code is empty; "user not found" exactly when both are given and no user has the email; a success names a stored user with that email and one of that user's stored rows whose code equals the submitted one and whose expiry is after `now` |
| `Auth.VerdictStatus` | controllers/authController.js:148-190 | a refused verification answers 404 exactly when the email and code are given and no user has the email, and 400 otherwise |
| `Auth.FindUser` | controllers/authController.js:152-162 | the lookup by email finds nothing exactly when no user has that email; when it finds a user, that user is in the table and has that email |
| `Auth.LatestOtp` | controllers/authController.js:165-177 | the query finds nothing exactly when the user has no code row; otherwise it returns a row of that user whose id is at least the id of every other row of that user |
| `Auth.VerdictOkIff` | controllers/authController.js:147-191 | verification succeeds if and only if: the email and code are given, the email is a user's, and the code equals the code of that user's newest row with `now < expires_at`; on success that newest row is the one consumed |
| `Auth.VerdictRefusalKinds` | controllers/authController.js:164-190 | once the fields are given and the user is found, the refusal is "no OTP found" exactly when the user has no row; "expired" exactly when the user's newest row has `expires_at <= now`; "invalid" exactly when that newest row is still alive but holds a different code |
| `Auth.OlderCodeNeverVerifies` | controllers/authController.js:164-177 | the code of an older row never verifies while the user's newest row has a different code, however long the older row still has to live |
| `Auth.ExpiryBoundary` | controllers/authController.js:183-186 | a newest row with `expires_at == now` is refused as expired, yet the sweep at that same `now` keeps it, because the sweep (line 13) deletes only `expires_at < now` |
| `Auth.ConsumedRowNeverVerifiesAgain` | controllers/authController.js:193-194 | once the consumed row is deleted by id, no later verification, with any email, code or time, can match that row again |
| `Auth.RepeatAfterLastRowFindsNone` | controllers/authController.js:173-175 | if the consumed row was the user's only row, submitting the code again after the deletion gives "no OTP found"; single use holds per row, not per user (see the next row) |
| `Auth.NextRowVerifiesAfterConsumption` | controllers/authController.js:164-194 | the delete at line 194 removes only the consumed row, so afterwards the user's next newest row is the one verification reads, and its code verifies while that row is unexpired |
| `Auth.OnlyNewCodeVerifies` | controllers/authController.js:279-302 | when the new row is the user's only row, a verification succeeds only with the new code and consumes the new row |
| `Auth.AuthStore.CleanupExpiredOtps` | controllers/authController.js:9-14 | deletes exactly the rows with `expires_at < now`, for every user; keeps all others, including rows that expire exactly at `now`; users unchanged |
| `Auth.AuthStore.IssueOtp` | controllers/authController.js:54-72 | the sweep runs, then one row `{next id, user, GenerateOtp(offset), now + 300000}` is appended, and the code is handed to the mailer for the email; users unchanged |
| `Auth.AuthStore.InsertUser` | controllers/authController.js:45-52 | appends one user under the next serial, and uniqueness of emails is kept |
| `Auth.AuthStore.DeleteById` | controllers/authController.js:193-194 | deletes exactly the given row, leaving every other row unchanged and in order |
| `Auth.AuthStore.Signup` | controllers/authController.js:19-86 | missing name, dob or email gives 400; an unparsable dob gives 400; an existing email gives "already exists" and inserts neither a user nor a code; otherwise appends the user `{next id, name, dob, email}` and issues one code for it; succeeds exactly when all checks pass |
| `Auth.AuthStore.Signin` | controllers/authController.js:91-138 | a missing email gives 400; an unknown email gives 404 and inserts no code; otherwise issues one code for the user; never changes `users` |
| `Auth.AuthStore.VerifySignin` | controllers/authController.js:143-217 | the result is the ordered decision on the tables before the call; a refusal is 404 exactly for an unknown user, 400 otherwise; every failure leaves both tables unchanged; success deletes exactly the consumed row rather than every row of the user, and returns a token with claims `{id, email}` valid for one hour |
| `Auth.AuthStore.RequestOtp` | controllers/authController.js:222-253 | reuses the first user with that email, or first appends an email-only user, then issues one code for that user; afterwards a user with that email exists |
| `Auth.AuthStore.ResendOtp` | controllers/authController.js:257-313 | a missing email gives 400; an unknown user gives 404, and in both cases nothing changes; otherwise deletes every row of the user, sweeps, and appends one new row, which is afterwards the user's only row and the one a verification reads |
| `Auth.SingleUseScenario` | controllers/authController.js:143-217 | a code requested at t0 verifies at t0 + 1 min and yields a token for the email that expires one hour after the verification; the same code submitted again gives "no OTP found" |
| `Auth.ExpiryScenario` | controllers/authController.js:183-186 | a code verified exactly five minutes after issuance is refused as expired; the failed attempt deletes nothing, and the sweep at that moment keeps the row |
| `Auth.ResendScenario` | controllers/authController.js:279-302 | after a resend with a different draw, the earlier code is refused as invalid although it has not expired, and the new code verifies |
| `Notes.HeadIsNewest` | controllers/notesController.js:37 | in a newest-first list, no row is newer than its head |
| `Notes.ConsNewestFirst` | controllers/notesController.js:37 | a row at least as new as every row of a newest-first list can be put in front of it, and the list stays newest first |
| `Notes.InsertNewestFirst` | controllers/notesController.js:37 | inserting a note into a newest-first list gives a newest-first list holding the old rows plus that note |
| `Notes.SortNewestFirst` | controllers/notesController.js:37 | the result is ordered by `created_at`, descending, and is a permutation of the input |
| `Notes.NotesStore.GetNotes` | controllers/notesController.js:31-45 | returns a note exactly when it is stored and owned by the caller, so no other user's note ever appears; each note appears as often as it is stored; the list is ordered newest first |
| `Notes.HttpStatus` | controllers/notesController.js:10-63 | every refusal is answered with 400 or 404, and with 404 exactly when the note was not found |
| `Notes.NotesStore.AddNote` | controllers/notesController.js:6-26 | it fails if and only if the heading or the content is empty, and the failure is a 400 (`Notes.HttpStatus`) that leaves the table unchanged; success appends exactly one note `{next id, caller, heading, content, now}`; every other user's list is unchanged |
| `Notes.NotesStore.DeleteNote` | controllers/notesController.js:50-69 | keeps every row except a note matching both the id and the caller; succeeds if and only if such a note existed, and then exactly that note is removed; otherwise "Note not found", a 404, with the table unchanged; no other user's note or list is affected |
| `Notes.OwnerScopingScenario` | controllers/notesController.js:54-63 | bob does not see alice's note; bob deleting the note's id gives "Note not found", and alice's list still holds the note |

## Left out

- Store and mail failures. Every `catch` turns an error from the database or
  the mailer into a 500 with the raw message. The model has no failure
  outcome for these calls.
- Unchecked store results. Four awaited store calls never look at their
  result, and the model treats each as always succeeding:
  - the sweep's delete (controllers/authController.js:10-13). If it fails,
    expired rows stay in `otps` and the handler goes on;
  - request-otp's user select (controllers/authController.js:226). If it
    fails, `users` is null, so the handler inserts another user with the
    same email, unless the store itself forbids duplicates. That breaks the
    email uniqueness that `Valid()` keeps;
  - request-otp's code insert (controllers/authController.js:242-244). If it
    fails, the mail still goes out with a code that no row holds. That code
    verifies only if it happens to equal the code of the user's current
    newest row;
  - verify-signin's delete of the consumed row
    (controllers/authController.js:194). If it fails, the token is still
    issued and the row stays, so the same code verifies again until it
    expires.
- `.single()` on zero deleted rows in deleteNote
  (controllers/notesController.js:60). That is the hosted client's
  behaviour, which is not part of this model. The model returns "Note not
  found" whenever no row was deleted.
- The database client, SMTP transport, Express wiring and the
  authentication middleware. The middleware's user id enters as the trusted
  `caller` parameter.
- Token cryptography. The token is its claims `{id, email}` plus the issue
  and expiry times. The signature and the secret are not modelled.
- Floating point in `Math.random() * 900000`. The draw is the integer
  offset. Every integer offset in range gives a code; which offsets
  JavaScript's doubles actually produce is not modelled.
- Date parsing of the date of birth. It enters as `dobDate`.
- Clock reads. A request reads the clock once, as `now`. The source reads
  it again for the sweep and for the expiry check, a few milliseconds apart.
- Request bodies whose fields are not strings. For example, an `otp` sent as
  a JSON number never equals the stored string under `!==`. The model's
  inputs are strings.
- Concurrency. Two verifications could read the same row before either
  deletes it, and signup could race request-otp on one email. The model runs
  one request at a time.
- Debug logging (controllers/authController.js:180-181). Response messages
  other than the error kind. Statuses other than the refusals' 400 and 404
  (201 on signup and on addNote, 500 on a thrown error) are not modelled.
- Note ids as URL text. deleteNote takes `id` from the URL path
  (controllers/notesController.js:52), as a string. A non-numeric id makes
  the store's query fail, which the handler answers with a 500 rather than
  "Note not found". In the model ids enter as numbers.
- Ids and `created_at` assigned by the store. They are modelled as serial
  counters and as the request's `now`.
- `Auth.AuthStore.RequestOtp`: has no email guard. When the body has no
  `email`, the source queries and inserts with an undefined email, so no
  user matches and each such request inserts a new user without an email.
  The model's missing field is the empty string, which is an ordinary key:
  the first such request inserts a user with email `""`, and later ones
  reuse that user.
- `Auth.FindUser`: it states that a match has the email, not that it is the
  first match. Under `Valid()` emails are unique, so there is only one match.
