# Email name parser: a Dafny model

This is an email-to-name utility. A user pastes email addresses into a web
form. The browser splits them into a list and posts it to the backend, which
trims each entry and keeps those that look like an email. For each kept
entry the backend guesses a first and last name from the local part.
Finally the browser offers the first-name and last-name columns for download
as one-entry-per-line CSV files.

The model has three modules:

- `JsString` (`jsstring.dfy`) holds the JavaScript string built-ins that the
  code relies on:
  - `trim`, with the ECMAScript WhiteSpace and LineTerminator set;
  - `split` on a single character class, where every separator splits and
    empty pieces are kept;
  - `split` on a run of separators (`/[...]+/`);
  - `join`;
  - `charAt`, `slice`, `toUpperCase` and `toLowerCase`;
  - `filter(e => e)`, which keeps the non-empty strings.
- `Server` (`server.dfy`) models `backend/server.js`:
  - `capitalize` and `parseEmail`;
  - the acceptance pattern `\S+@\S+\.\S+`, in two forms: as the regular
    expression reads, and as an index predicate. The two are proved
    equivalent.
  - the body of the `POST /api/process-emails` handler. It is modelled as a
    total function from the request's `emails` value to the `{ results }`
    answer or the 500 answer.
- `App` (`app.dfy`) models `frontend/src/App.js`:
  - the textarea tokenizer of line 11;
  - the projections of the results onto one column (lines 65 and 71);
  - the CSV text that `downloadCSV` builds (line 22);
  - the end-to-end facts that link the tokenizer, the request body it
    becomes and the CSV built from the answer.

Every part of this core is pure, an expression chain of
`split`/`map`/`filter`/`join`, so the model is made of functions and lemmas.

Some behaviour of the code that a reader might not expect:

- `capitalize` runs once on the joined last name, so `JANE_M_SMITH@x.co`
  gives the last name `M smith`, not `M Smith`; see `Server.JaneMSmith`.
- An `emails` value that is not an array makes the `.map` call throw, and
  the `catch` answers with status 500, not with a client error.
  `Server.ProcessEmailsFails` states this.
- `cors()` is called without options, so every origin is allowed, and the
  handler itself sets no cap on the number of entries in a request.

## Model

| member | source | states |
|---|---|---|
| `JsString.IsWs` | backend/server.js:27-28 | no `ensures`: a predicate listing the ECMA-262 WhiteSpace and LineTerminator code points that `trim` removes and `\S` excludes; `JsString.TrimEmpty`, `JsString.TrimIdentity` and `Server.PlausibleIffRegexTest` state what it decides |
| `JsString.Upper` | backend/server.js:12 | `toUpperCase` on one character leaves no lower-case letter, turns a lower-case letter into an upper-case one and keeps every other character |
| `JsString.Lower` | backend/server.js:12 | `toLowerCase` on one character leaves no upper-case letter, turns an upper-case letter into a lower-case one and keeps every other character |
| `JsString.CaseInverse` | backend/server.js:12 | the two case mappings undo each other on the letters they change |
| `JsString.ToUpper` | backend/server.js:12 | `toUpperCase` keeps the length and leaves no lower-case letter; each lower-case letter becomes the upper-case letter that lower-cases back to it, and every other character is kept |
| `JsString.ToLower` | backend/server.js:12 | `toLowerCase` keeps the length and leaves no upper-case letter; each upper-case letter becomes the lower-case letter that upper-cases back to it, and every other character is kept |
| `JsString.ToUpperIdempotent` | backend/server.js:12 | upper-casing twice is upper-casing once |
| `JsString.ToLowerIdempotent` | backend/server.js:12 | lower-casing twice is lower-casing once |
| `JsString.CaseRoundTrip` | backend/server.js:12 | upper-casing after lower-casing is plain upper-casing, and the other way round |
| `JsString.Trim` | backend/server.js:27 | the trimmed string is no longer than the input and neither starts nor ends with whitespace |
| `JsString.TrimSlice` | backend/server.js:27 | the trimmed string is a contiguous slice of the input, and everything outside it is whitespace |
| `JsString.TrimChars` | backend/server.js:27 | every character of the trimmed string occurs in the input |
| `JsString.TrimIdentity` | backend/server.js:27 | trimming leaves a string unchanged exactly when it is empty or has non-whitespace at both ends |
| `JsString.TrimIdempotent` | backend/server.js:27 | trimming twice is trimming once |
| `JsString.TrimEmpty` | frontend/src/App.js:11 | a string trims to "" exactly when every character is whitespace |
| `JsString.Split` | backend/server.js:16-17 | `split` on a character class always has at least one piece; `JsString.SplitFirst`, `JsString.SplitChars`, `JsString.SplitNoSeparator`, `JsString.SplitConcat` and `JsString.SplitAfterFirst` state which pieces |
| `JsString.SplitFirst` | backend/server.js:16-17 | the first piece of a split is the longest separator-free prefix, followed by a separator when it is shorter than the input |
| `JsString.SplitChars` | backend/server.js:16-17 | every character of any piece occurs in the input and is not a separator |
| `JsString.SplitNoSeparator` | backend/server.js:16-17 | a string with no separator splits into one piece, equal to itself |
| `JsString.SplitConcat` | backend/server.js:17 | the split of `a + [c] + b`, with `c` a separator, is the split of `a` followed by the split of `b` |
| `JsString.SplitAfterFirst` | backend/server.js:17-20 | the pieces after the first are exactly the split of what follows the first separator |
| `JsString.Join` | backend/server.js:20 | no `ensures`: `join` puts the separator between consecutive pieces; `JsString.JoinChars`, `JsString.SplitJoin` and `JsString.JoinSplit` state its properties |
| `JsString.JoinChars` | frontend/src/App.js:22 | every character of a join comes from a piece or from the separator |
| `JsString.SplitJoin` | frontend/src/App.js:22 | splitting the join of one or more separator-free pieces on the joining character gives the pieces back |
| `JsString.JoinSplit` | frontend/src/App.js:22 | joining the pieces of a split on one character with that character gives the string back, so the CSV text is recovered from its lines |
| `JsString.DropSeparators` | frontend/src/App.js:11 | the result is the suffix left after the longest all-separator prefix: everything dropped is a separator, and the result does not start with one |
| `JsString.SplitOnRuns` | frontend/src/App.js:11 | a split on separator runs always has a piece, and no piece holds a separator |
| `JsString.SplitOnRunsEnds` | frontend/src/App.js:11 | a split on separator runs starts with an empty piece exactly when the string is empty or starts with a separator, and ends with one exactly when a non-empty string ends with a separator |
| `JsString.SplitOnRunsCount` | frontend/src/App.js:11 | a split on separator runs has one piece per non-empty piece of the single split, plus an empty first piece for an empty string or a leading separator, plus an empty last piece for a trailing separator |
| `JsString.SplitOnRunsInner` | frontend/src/App.js:11 | in a split on separator runs, every piece except the first and the last is non-empty |
| `JsString.NonEmpty` | frontend/src/App.js:11 | the filter keeps only non-empty strings, each taken from the input, and never lengthens the list |
| `JsString.NonEmptyConcat` | frontend/src/App.js:11 | filtering a concatenation is concatenating the filtered parts, so order is kept |
| `JsString.NonEmptyKeepsAll` | frontend/src/App.js:11 | a list of non-empty strings passes the filter unchanged |
| `JsString.NonEmptySplitDrop` | frontend/src/App.js:11 | a leading separator run only adds empty pieces to a single-character split |
| `JsString.SplitOnRunsAgree` | frontend/src/App.js:11 | a run split and a single-character split have the same first piece, and their later pieces agree once empty ones are dropped |
| `JsString.SplitOnRunsNonEmpty` | frontend/src/App.js:11 | once empty pieces are dropped, a split on separator runs equals a split on every single separator |
| `JsString.CharAt` | backend/server.js:12 | no `ensures`: `str.charAt(pos)`, the one-character string at `pos` or "" past the end; `Server.Capitalize` states what `capitalize` makes of it |
| `JsString.Slice` | backend/server.js:12 | no `ensures`: `str.slice(start)` for a non-negative `start`, the rest of the string from `start` or "" past the end; `Server.Capitalize` states what `capitalize` makes of it |
| `Server.Capitalize` | backend/server.js:11-13 | the length is unchanged, the first character is upper-cased and every later one is lower-cased; "" stays "" |
| `Server.CapitalizeIdempotent` | backend/server.js:11-13 | capitalizing twice is capitalizing once |
| `Server.CapitalizeChars` | backend/server.js:11-13 | every character of the result is a case mapping of some input character |
| `Server.RegexTest` | backend/server.js:28 | no `ensures`: `/\S+@\S+\.\S+/.test(s)` read as "some substring of `s` matches the whole pattern"; `Server.PlausibleIffRegexTest`, `Server.NoAtRejected` and `Server.UnanchoredMatch` state its properties |
| `Server.IsPlausibleEmail` | backend/server.js:28 | no `ensures`: the same test as an index predicate, an `@` and a later `.` with non-whitespace runs around them; `Server.PlausibleIffRegexTest` proves it equal to `Server.RegexTest` |
| `Server.MatchGivesEmailAt` | backend/server.js:28 | a match of `\S+@\S+\.\S+` at any position of the entry yields an accepted `@`/`.` pair of the entry |
| `Server.EmailAtGivesMatch` | backend/server.js:28 | an accepted `@`/`.` pair spans a match of the pattern |
| `Server.PlausibleIffRegexTest` | backend/server.js:28 | the index predicate holds exactly when the unanchored regular expression finds a match |
| `Server.NoAtRejected` | backend/server.js:28 | an entry without `@` is rejected |
| `Server.UnanchoredMatch` | backend/server.js:28 | `x y@a.b` is accepted although it holds a space, and its local part is `x y` |
| `Server.LocalPart` | backend/server.js:16 | no `ensures`: `email.split('@')[0]`; `Server.LocalPartBeforeFirstAt` and `Server.LocalPartOf` state its properties |
| `Server.ParseEmail` | backend/server.js:15-22 | no `ensures`: `parseEmail`; `Server.FirstNameIsPrefix`, `Server.LastNameIsRest`, `Server.NameChars`, `Server.NamesHaveNoSeparators` and the examples below state what it returns |
| `Server.LocalPartBeforeFirstAt` | backend/server.js:16 | the local part is a prefix of the email with no `@`, followed by `@` when it is shorter than the email |
| `Server.LocalPartOf` | backend/server.js:16 | the local part of `a@b` is `a` when `a` holds no `@` |
| `Server.FirstNameIsPrefix` | backend/server.js:16-19 | the first name is the capitalized separator-free prefix of the local part, and it is "" exactly when the local part is empty or starts with `.`, `_` or `-` |
| `Server.LastNameIsRest` | backend/server.js:17-20 | the last name is "" when the local part has no separator; otherwise it is the capitalized space-join of the split of what follows the first separator |
| `Server.JoinedPiecesChar` | backend/server.js:20 | each character of the joined later pieces is a space or a non-separator of the local part |
| `Server.NameChars` | backend/server.js:16-20 | each character of either name is a space or the case mapping of a non-separator character of the local part |
| `Server.NamesHaveNoSeparators` | backend/server.js:16-20 | neither name contains `@`, `.`, `_` or `-` |
| `Server.NameCharFromEmail` | backend/server.js:16-20 | a character of either name that is neither a space nor an ASCII letter occurs in the email |
| `Server.ParseEmailFrom` | backend/server.js:15-22 | `parseEmail` of `a@b` is determined by the split of `a`: the capitalized first piece, and the capitalized space-join of the rest, with "" for an empty string |
| `Server.ParseEmailFirstLast` | backend/server.js:15-22 | `first.last@domain`, with parts free of `@`, `.`, `_` and `-`, gives the capitalized `first` and `last` |
| `Server.ParseEmailThreePieces` | backend/server.js:15-22 | `first_middle_last@domain`, with parts free of `@`, `.`, `_` and `-`, gives the capitalized `first`, and the last name `Capitalize(middle + " " + last)` |
| `Server.JohnDoe` | backend/server.js:15-22 | `john.doe@example.com` gives `John` / `Doe` |
| `Server.JaneMSmith` | backend/server.js:15-22 | `JANE_M_SMITH@x.co` gives `Jane` / `M smith` |
| `Server.TrimEntries` | backend/server.js:26-27 | the trimming `map` succeeds exactly when every element is a string, and then gives one entry per element |
| `Server.TrimEntriesValues` | backend/server.js:26-27 | entry `i` of the trimmed batch is the trim of element `i` |
| `Server.TrimEntriesConcat` | backend/server.js:26-27 | trimming a concatenation of two string batches concatenates their trimmed entries |
| `Server.TrimEntriesTrimmed` | backend/server.js:26-27 | trimming an array of already-trimmed strings succeeds and gives the strings back |
| `Server.TrimEntriesSingle` | backend/server.js:26-27 | a one-string batch trims to that string's trim |
| `Server.KeepEmails` | backend/server.js:28 | the filter keeps only accepted entries of its input |
| `Server.KeepEmailsMembers` | backend/server.js:28 | an entry survives the filter exactly when it is in the batch and accepted |
| `Server.KeepEmailsConcat` | backend/server.js:28 | filtering a concatenation concatenates the filtered parts, so input order is kept |
| `Server.KeepEmailsAllAccepted` | backend/server.js:28 | a list of accepted entries passes the filter unchanged |
| `Server.ToRecord` | backend/server.js:30-33 | no `ensures`: `{ email, ...parseEmail(email) }` for one entry; `Server.ToRecords` states the mapped result |
| `Server.ToRecords` | backend/server.js:30-33 | the emails of the records are exactly the kept entries, in order, and each record's names are `parseEmail` of its email |
| `Server.ToRecordsConcat` | backend/server.js:30-33 | mapping a concatenation of entries concatenates the mapped parts |
| `Server.ProcessEmails` | backend/server.js:24-39 | no `ensures`: the handler body; `Server.ProcessEmailsFails`, `Server.ProcessEmailsSingle`, `Server.ProcessEmailsConcat` and `Server.ProcessEmailsRecords` together determine its answer for every request |
| `Server.ProcessEmailsFails` | backend/server.js:25-38 | the handler answers 500 exactly when `emails` is not an array or holds a non-string element, and the message is then `Error processing emails` |
| `Server.ProcessEmailsSingle` | backend/server.js:26-35 | a one-entry batch gives one record of the trimmed entry when it is accepted, and none otherwise |
| `Server.ProcessEmailsConcat` | backend/server.js:26-35 | the results of two batches sent as one are the results of the first followed by those of the second |
| `Server.ProcessEmailsRecords` | backend/server.js:26-35 | each record's email is accepted, already trimmed and the trim of some element of the batch, and its names are `parseEmail` of that email |
| `Server.StringArray` | frontend/src/App.js:12 | no `ensures`: the `{ emails }` body posted at frontend/src/App.js:12 and read at backend/server.js:26, for an array of strings; `Server.TrimEntriesTrimmed`, `Server.ProcessTrimmedStrings` and `App.SubmitTokens` state what the handler makes of it |
| `Server.ProcessTrimmedStrings` | backend/server.js:26-35 | a batch of already-trimmed strings never fails, and yields the records of its accepted entries |
| `Server.ResubmitIdentical` | backend/server.js:26-35 | submitting the emails of a batch's results again gives exactly the same results |
| `Server.NoAtDropped` | backend/server.js:27-28 | a one-entry batch without `@` succeeds with no results |
| `Server.NotAnEmailDropped` | backend/server.js:27-28 | `not-an-email` is dropped from the results |
| `App.Tokenize` | frontend/src/App.js:11 | no `ensures`: the textarea tokenizer; `App.TokensAreClean`, `App.TokenizeConcat`, `App.TokenizeNoSeparator` and `App.TokenizeJoin` state what it returns |
| `App.TrimEach` | frontend/src/App.js:11 | no `ensures`: `.map(e => e.trim())`; `App.TrimEachConcat` and `App.CleanSingle` state its properties |
| `App.Clean` | frontend/src/App.js:11 | no `ensures`: `.map(e => e.trim()).filter(e => e)`; `App.CleanConcat`, `App.CleanNonEmpty`, `App.CleanSingle` and `App.CleanTokens` state its properties |
| `App.TrimmedPieceHasNoSeparator` | frontend/src/App.js:11 | trimming a piece free of `,` and `\n` cannot introduce one |
| `App.TokensAreClean` | frontend/src/App.js:11 | every token is non-empty, has no leading or trailing whitespace, and holds no `,` or `\n` |
| `App.TrimEachConcat` | frontend/src/App.js:11 | trimming each piece of a concatenation concatenates the trimmed parts |
| `App.CleanConcat` | frontend/src/App.js:11 | trimming and filtering a concatenation concatenates the results of the parts |
| `App.CleanNonEmpty` | frontend/src/App.js:11 | dropping empty pieces before trimming and filtering changes nothing |
| `App.CleanSingle` | frontend/src/App.js:11 | one piece gives no token when it is blank and its trim otherwise |
| `App.CleanTokens` | frontend/src/App.js:11 | valid tokens pass through trimming and filtering unchanged |
| `App.TokenizeBySingleSplit` | frontend/src/App.js:11 | the tokens equal those of a split on every single `,` or `\n` |
| `App.TokenizeConcat` | frontend/src/App.js:11 | tokenizing `a + [c] + b`, with `c` a separator, gives the tokens of `a` followed by those of `b`, so input order is kept |
| `App.TokenizeNoSeparator` | frontend/src/App.js:11 | input without `,` or `\n` gives `[]` when it trims to "" and `[trim(input)]` otherwise |
| `App.TokenizeJoin` | frontend/src/App.js:11 | joining valid tokens with `,` or `\n` and tokenizing gives the same tokens back |
| `App.TokenizeIdempotent` | frontend/src/App.js:11 | re-tokenizing the tokens, joined with a separator, gives the same tokens |
| `App.FirstNameColumn` | frontend/src/App.js:65 | no `ensures`: `results.map(r => r.firstName)`; `App.ColumnsOfRecords` states its content |
| `App.LastNameColumn` | frontend/src/App.js:71 | no `ensures`: `results.map(r => r.lastName)`; `App.ColumnsOfRecords` states its content |
| `App.ColumnsOfRecords` | frontend/src/App.js:65-71 | the first-name and last-name columns of the records of some entries have one item per entry, namely the names `parseEmail` gives that entry, in order |
| `App.CsvContent` | frontend/src/App.js:22 | no `ensures`: `data.join('\n')`; `App.CsvLines` states that the lines come back |
| `App.CsvLines` | frontend/src/App.js:22 | splitting the CSV text of non-empty, newline-free data on `\n` gives the data back |
| `App.SubmitTokens` | frontend/src/App.js:11-12 | posting the tokens of any input never gets the 500 answer; the results are the records of the accepted tokens, in input order |
| `App.NamesHaveNoNewline` | backend/server.js:30-33 | no name in a record made from a token contains `\n` |
| `App.CsvOneLinePerResult` | frontend/src/App.js:65-71 | for any input with at least one result, the first-name CSV and the last-name CSV each have exactly one line per result, namely that result's name, in result order |

## Left out

- Express setup, `cors()`, `body-parser` and `app.listen` (backend/server.js:1-9, 41-43) are framework wiring with I/O. The request's JSON `emails` value becomes a parameter of the handler model. The model does not state the HTTP status carried by `Ok`; in the code it is 200.
- The axios POST, `async`/`await` and the React state updates in `processEmails` (frontend/src/App.js:12-18) are network and UI state. `App.SubmitTokens` and `App.CsvOneLinePerResult` connect the tokenizer directly to the handler model, standing in for the round trip. The port mismatch (5001 in App.js, 5000 in server.js) is configuration and is not modelled.
- The `Blob`, object URL and anchor-click download (frontend/src/App.js:23-29) and all JSX rendering are DOM side effects. Only the CSV text is modelled. Empty results hide the download buttons, so the CSV of an empty column is not treated.
- `frontend/src/components/Privacy.js` (static markup and the current date) and `frontend/tailwind.config.js` (styling data) are not part of this model.
- JsString.Upper, JsString.ToUpper: only the ASCII letters change case. Full Unicode case mapping, which can change the length (`ß` becomes `SS`), is not modelled.
- JsString.Lower, JsString.ToLower: only the ASCII letters change case. Full Unicode case mapping is not modelled.
- Strings are modelled as sequences of Unicode scalar values. Unpaired UTF-16 surrogates, which JavaScript strings may contain, are not modelled.
- The request body comes from `bodyParser.json()`, so `emails` is a parsed JSON value. Among those, only an array has a callable `.map` and only a string has a callable `.trim`. The model's two cases for `emails` (an array, or a value that makes `.map` throw) and for an element (a string, or a value that makes `.trim` throw) therefore cover every parsed JSON body.
