# Abstract submission server: the validation and access decisions

The server (`server.js`) collects conference-abstract submissions through a
web form, stores them in SQLite, mails confirmations and lets a submitter
reopen the entry for editing until a deadline. Almost all of it is I/O. This
project models the part that decides things, as pure Dafny functions, and
proves what those decisions mean:

- `isValidEmail`: the regular expression `^[^\s@]+@[^\s@]+\.[^\s@]+$`,
  modelled by its anchored-match semantics (`Email.IsValidEmail`: some
  position holds the `@`, a later one the literal `.`, and the three runs
  between them are non-empty and free of whitespace and `@`).
- `validateMultipleEmails`: `split(',')`, `trim` of every piece, `every`
  piece valid (`Email.ValidateMultipleEmails`).
- `countWords`: `text.trim().split(/\s+/).length` (`WordCount.CountWords`),
  proved against an independent count of maximal non-whitespace runs
  (`WordCount.Words`).
- The checks of `POST /submit`: missing field, submitter address, author
  addresses, word count, in that order, first failure only
  (`Submission.FirstFailure`), and the row handed to the insert once they all
  pass (`Submission.Submit`). Every rejection is answered with status 400 and
  `Submission.Message` of the rejection.
- The gate of `GET /modify/:id`: storage error (500), no row (404), current
  time after the stored deadline (403), otherwise the edit form
  (`Modification.Modify`). The deadline test is JavaScript's `>` on two
  strings, modelled as lexicographic order (`Modification.StrLess`).

The JavaScript built-ins the validators rest on are modelled in `Text`:
`trim`, `split` with a one-character separator, and the whitespace class
shared by `trim` and `\s` (`Text.IsWs`, the ECMAScript WhiteSpace and
LineTerminator code points). The proofs use nothing about that class beyond
concrete examples (a space is whitespace). `Decimal` renders the word count
into the rejection message as `${n}` does.

Inputs that come from outside the code are parameters: the current time is a
string `now` (the server uses `new Date().toISOString()`), and the result of
the database lookup is a `Modification.Lookup` value.

Behaviour the code has and a plain reading of the form's purpose might not
expect, all modelled as the code has it:

- The deadline is compared as a string, not as a date. The stored deadline
  `"2024-12-15T23:59:59"` has no milliseconds and no zone, while `now` always
  has both, so every `now` in the deadline's last second (for instance
  `"2024-12-15T23:59:59.123Z"`) is already past it.
- An empty author-address list, a trailing comma and `",,"` are rejected,
  because `"".split(',')` is `[""]` and the empty piece is no address.
- Author addresses are trimmed before the check; the submitter address is
  not, so `" a@b.co"` passes as an author list and fails as a submitter.
- Empty or whitespace-only abstract text counts as one word, not zero.
- A field is missing only when it is absent or the empty string; a field of
  spaces passes the presence check.
- The domain needs a `.` that is neither its first nor its last character;
  a `,` is an ordinary address character for the regular expression.

## Model

| member | source | states |
|---|---|---|
| `Text.IsWs` | server.js:63 | the characters `trim` strips, the ECMAScript WhiteSpace and LineTerminator code points, which are also the `\s` class of server.js:57 and :69 |
| `Text.TrimStart` | server.js:63 | the leading-whitespace strip never lengthens the string |
| `Text.TrimEnd` | server.js:63 | the trailing-whitespace strip never lengthens the string |
| `Text.Trim` | server.js:63 | `trim` never lengthens the string |
| `Text.TrimStartSpec` | server.js:63 | the strip keeps a suffix, drops only whitespace and stops at a non-whitespace character |
| `Text.TrimEndSpec` | server.js:63 | the strip keeps a prefix, drops only whitespace and stops at a non-whitespace character |
| `Text.TrimSpec` | server.js:63 | the trimmed string has no whitespace at either end and is the input with a whitespace run removed on either side |
| `Text.TrimOfPadded` | server.js:63 | `trim` of `lead + m + trail`, with whitespace-only `lead` and `trail` and `m` not bounded by whitespace, is exactly `m` |
| `Text.TrimOfTrimmed` | server.js:63 | a string with no whitespace at either end is unchanged by `trim` |
| `Text.TrimIdempotent` | server.js:63 | trimming twice equals trimming once |
| `Text.TrimEmptyIffAllWs` | server.js:69 | `trim` gives the empty string iff the input is whitespace only |
| `Text.Split` | server.js:63 | `split(',')` always yields at least one piece, so `""` gives `[""]` |
| `Text.SplitPiecesLackSep` | server.js:63 | no piece of `split(sep)` contains the separator |
| `Text.SplitJoin` | server.js:63 | joining the pieces with the separator gives the input back |
| `Text.SplitWithoutSep` | server.js:63 | a string without the separator splits into itself alone |
| `Text.SplitAround` | server.js:63 | splitting `a + sep + b` yields the pieces of `a` followed by the pieces of `b` |
| `Email.IsValidEmail` | server.js:56-59 | `isValidEmail`: some `@` position and some later `.` position cut the whole string into three non-empty runs free of whitespace and `@` (its meaning is stated by `Email.EmailShape`) |
| `Email.EmailShape` | server.js:56-59 | for `s = local + "@" + domain` with no `@` in `local`, the regex matches iff `local` is non-empty, no part holds whitespace or another `@`, and `domain` has a `.` at an index from 1 to `\|domain\|-2` |
| `Email.EmailShapeOnlyIf` | server.js:57 | a match forces the `@` to be the first one and yields the local-part and domain conditions |
| `Email.EmailShapeIf` | server.js:57 | the local-part and domain conditions give a match |
| `Email.ValidEmailHasAtAndNoWs` | server.js:57 | a valid address contains an `@` and no whitespace anywhere |
| `Email.TrimEach` | server.js:63 | the mapped list has one trimmed piece per input piece, in order |
| `Email.ValidateMultipleEmails` | server.js:62-65 | `validateMultipleEmails`: every comma-separated piece, trimmed, is a valid address (its meaning is stated by the lemmas below) |
| `Email.MultipleEmailsAroundComma` | server.js:62-65 | `a + "," + b` is a valid list iff `a` and `b` both are |
| `Email.SingleAddress` | server.js:62-65 | without a comma the list is valid iff its trimmed text is a valid address |
| `Email.EmptyListRejected` | server.js:62-65 | the empty string is rejected as an author list |
| `Email.TrailingCommaRejected` | server.js:62-65 | any list ending in a comma is rejected |
| `Email.LeadingCommaRejected` | server.js:62-65 | any list starting with a comma is rejected |
| `Email.DoubledCommaRejected` | server.js:62-65 | any list holding `",,"` is rejected |
| `Email.AuthorListTrimsSubmitterDoesNot` | server.js:63 | whitespace before a valid comma-free address passes the author-list check and fails the untrimmed submitter check of server.js:108 |
| `Email.LeadingSpaceExample` | server.js:63 | `" a@b.co"` passes as an author list and fails as a submitter address |
| `WordCount.SplitWs` | server.js:69 | `split(/\s+/)` always yields at least one piece |
| `WordCount.SplitWsPiecesLackWs` | server.js:69 | no piece of `split(/\s+/)` holds whitespace |
| `WordCount.SplitWsLength` | server.js:69 | `split(/\s+/)` yields one piece more than there are whitespace runs |
| `WordCount.CountWords` | server.js:68-70 | the count is at least 1 |
| `WordCount.NoWordsIffAllWs` | server.js:68-70 | the run count is 0 iff the text is whitespace only |
| `WordCount.WordsOfPadded` | server.js:69 | whitespace added before or after the text adds no run |
| `WordCount.WordsOfTrim` | server.js:69 | trimming keeps the run count |
| `WordCount.CountWordsIsWords` | server.js:68-70 | `countWords` is the number of maximal non-whitespace runs when the text has a non-whitespace character, and 1 when it is empty or whitespace only |
| `WordCount.CountWordsIgnoresPadding` | server.js:69 | adding leading or trailing whitespace leaves `countWords` unchanged |
| `WordCount.CountWordsIgnoresGapWidth` | server.js:69 | lengthening a whitespace run inside the text leaves `countWords` unchanged |
| `Decimal.Render` | server.js:122 | `${n}` is a non-empty string of decimal digits with no leading zero |
| `Decimal.ValueOfRender` | server.js:122 | reading the rendered digits gives the number back |
| `Decimal.RenderInjective` | server.js:122 | different counts render differently |
| `Submission.Given` | server.js:90-103 | one `!x` test is false: the field is present and not the empty string |
| `Submission.AllGiven` | server.js:90-103 | none of the twelve `!x` tests is true |
| `Submission.FirstFailure` | server.js:90-123 | the handler reports nothing iff all four checks pass, and otherwise the first failing check in the order missing field, submitter address, author addresses, word count; a word-count rejection carries the actual count |
| `Submission.MissingIffAbsentOrEmpty` | server.js:90-105 | the missing-field rejection happens iff some field is absent or the empty string |
| `Submission.Message` | server.js:104-122 | the 400 body of each rejection, with the word count rendered as `${wordCount}` (server.js:104, 109, 114, 122) |
| `Submission.MessagesDistinct` | server.js:104-122 | the four 400 messages differ, and the word-count message determines the count |
| `Submission.Submit` | server.js:90-139 | a row is handed to the insert iff all four checks pass; the row holds the submitted values, the time `now` and the fixed deadline; otherwise the result is the first failure |
| `Submission.WordLimitBoundary` | server.js:117-123 | with the other checks passing, 350 words are accepted and 351 are rejected with the message "Current word count: 351." |
| `Modification.StrLess` | server.js:251 | JavaScript's string `<`: lexicographic by character, a proper prefix first (proved a strict total order by the lemmas below) |
| `Modification.StrLessIrreflexive` | server.js:251 | no string is before itself |
| `Modification.StrLessTransitive` | server.js:251 | string order is transitive |
| `Modification.StrLessTotal` | server.js:251 | two strings are equal or ordered exactly one way |
| `Modification.PrefixComesFirst` | server.js:251 | a string is before each of its proper extensions |
| `Modification.Modify` | server.js:240-263 | status 500 iff the lookup failed; 404 iff it did not fail and found no row; 403 iff a row was found and `now` is after its deadline as strings; the form shows the row's title |
| `Modification.Status` | server.js:243-252 | the status of each reply: 500, 404, 403, and 200 for the form |
| `Modification.RefusalText` | server.js:243-252 | the plain-text bodies of the three refusals (server.js:243, 247, 252); exactly the 200 reply, the HTML form, has none |
| `Modification.EditableIffNotPastDeadline` | server.js:250-253 | a found row is editable iff `now` equals its deadline or is before it as strings |
| `Modification.StaysClosed` | server.js:250-253 | once the deadline has passed it stays passed for every later `now` |
| `Modification.ExtendedDeadlineRejected` | server.js:250-253 | a `now` that extends the stored deadline string is rejected with 403 |
| `Modification.DeadlineExamples` | server.js:250-253 | against the fixed deadline of server.js:126, `"2024-12-15T23:59:59.123Z"` is rejected and `"2024-12-15T23:59:58.999Z"` is allowed |

## Left out

- SQLite: opening the database, creating the table, running the INSERT, the
  id it assigns (`lastID`) and the UPDATE of `POST /update/:id`
  (server.js:11-44, 130-146, 268-284). Their behaviour is the database's, not
  this code's; `Submission.Submit` stops at the row handed to the insert.
- The replies after the insert: status 500 when the insert fails and the 200
  reply with the `/modify/{id}` link (server.js:141-150, 232), since both
  depend on the database's result and id.
- `POST /update/:id` as a whole: it writes the new title without checking
  the deadline again, which this model cannot show without the database.
- The two emails and the mail transport with its credentials
  (server.js:153-229): network I/O whose results are only logged.
- Express routing, static files and body parsing (server.js:47-53), and the
  HTML of the edit form (server.js:256-263): `Modification.EditForm` carries
  only the title the form shows.
  The plain-text refusals of `GET /modify/:id` (server.js:243, 247, 252) are
  modelled by `Modification.RefusalText`. Request fields are modelled as
  optional strings; the array and object values the body parser can produce
  are not modelled.
- The clock and the locale: `new Date().toISOString()` and
  `toLocaleString()` (server.js:129, 178, 250). The current time is the
  parameter `now`.
- Strings are sequences of Unicode code points, while JavaScript strings are
  UTF-16 code units. `Modification.StrLess` therefore compares code points;
  it differs from JavaScript's `>` only when a character outside the Basic
  Multilingual Plane meets one from U+E000 to U+FFFF at the first difference.
- The regular-expression engine: `isValidEmail` is modelled by what the
  pattern matches, not by how the engine searches.
- Logging with `console.log` and `console.error`.
