# A Dafny model of the diff engine and request gates of the coding-assistant backend

This project models, in Dafny, the parts of the backend that are plain list
and string processing:

- **The diff service** (`DiffService` in `backend/app/services/diff_service.py`).
  - The structuring pass of `generate_diff`. It turns the lines of a unified
    diff into hunk records.
  - The text parser `parse_diff_from_text`. It is the same state machine, and
    it also collects an error for each malformed `@@` header.
  - `apply_diff`. It splices each hunk's added lines into the original's lines
    at a running offset.
- **The two middlewares** of `backend/app/core/middleware.py`.
  - The per-client fixed-window rate limiter.
  - The authentication gate up to the point where it hands the token to the
    JWT library.
- **Language detection**: `IDEService._detect_language` in
  `backend/app/services/ide_service.py`. It is an argmax over file-extension
  counts with a fixed table of thirteen extensions.
- **The `success` flag** that `POST /parse` (`backend/app/api/diff.py`) derives
  from the parser's output.

## Modules

- `Wrappers`: `Option` and `Result`.
- `Seqs`: generic map and flat-map over sequences.
- `Strings`:
  - Python's `str.isspace` set;
  - `str.split()` with no argument (`Words`);
  - `str.lower` on ASCII letters (`AsciiLower`).
- `Lines`: `splitlines` on line feeds, and `'\n'.join`.
- `Slices`: Python slice bounds, `del xs[lo:hi]` and `xs[at:at] = ys`. Negative
  bounds count from the end, and every bound is clamped to the list.
- `DiffModel`: the hunk and diff-line records, and the counts of delete and add
  lines.
- `HunkHeader`: the header pattern `^@@ -(\d+),(\d+) \+(\d+),(\d+) @@`, as a
  parser over ASCII digits, with a formatter that inverts it.
- `DiffStructure`: the shared structuring state machine.
  - `Structure` is the structuring pass of `generate_diff`.
  - `Parse` is the functional parser.
  - `ParseDiffFromText` is the parser's loop, with an explicit current-hunk
    reference.
  - `Render` writes hunks back out as unified-diff lines.
- `DiffApply`: `apply_diff` as written, both as a function and as the source's
  loop.
- `AnchoredApply`: the corrected apply (see Findings).
- `DiffApi`: the response shaping of `POST /parse`.
- `RateLimit`: the limiter as a pure transition on a map from client address
  to `(count, window start)`.
- `AuthGate`: the authentication decision.
- `Language`: `posixpath.splitext`, the counting loop and the selection loop.

## What is a parameter

Three things are outside the model and enter it as parameters:

- difflib's `unified_diff` is the function parameter `UnifiedDiff`. The only
  thing assumed about it is that, for the context length passed and when
  that length is zero or more, two equal line lists give no lines.
- The JWT library is `TokenDecoder`. It maps a token to the token's payload or
  to the exception it raises: an `InvalidTokenError`, or any other exception,
  each with its text.
- The clock is the `now` argument of `RateLimit.Admit`, in whole seconds.

## Behaviour that is easy to misread

The model follows the code in both places.

- **A malformed `@@` header in the parser.** The parser records the error and
  keeps the previous hunk current (`current_hunk` is not reset at
  `diff_service.py` lines 161-163). The body lines after a malformed header
  therefore join the previous valid hunk; they are dropped only when no valid
  header came before.
  - `DiffStructure.HunkOwnsItsBody` states this.
- **Positions in `apply_diff`.** The code has no error path for a hunk that
  does not fit. Python slicing clamps positions past the end and counts
  negative positions back from the end.
  - `DiffApply.ApplyInRange`, `DiffApply.ApplyOverrunEnd`,
    `DiffApply.ApplyPastEnd`, `DiffApply.ApplyNegativeAnchor`,
    `DiffApply.ApplyNegativeStretch`, `DiffApply.ApplyNegativeOverrun` and
    `DiffApply.ApplyBeforeStart` state what happens, case by case.

## Model

| member | source | states |
|---|---|---|
| DiffStructure.ParseDiffFromText | backend/app/services/diff_service.py:136-188 | The parser's loop, which keeps an explicit reference to the current hunk, returns the same operations and errors as the functional scan `Parse`, for every text. |
| DiffStructure.ParseLine | backend/app/services/diff_service.py:141-181 | One iteration keeps the loop's operations, errors and current-hunk reference in step with the scan. The reference is absent until the first valid header. After that it always points at the last operation. |
| DiffStructure.Outcome | backend/app/services/diff_service.py:185-188 | The operations are the hunks found, and the result always has a hunk or an error. "No valid diff operations found" is the sole error exactly when neither a hunk nor a malformed header was seen. |
| DiffStructure.InvalidMessages | backend/app/services/diff_service.py:161-162 | Each rejected header line yields exactly one error, in order: "Invalid hunk header: " followed by the line. |
| DiffStructure.HunksFollowHeaders | backend/app/services/diff_service.py:147-160 | There is one hunk per line that matches the header pattern, in input order. Each hunk carries that header's four numbers and starts with an empty line list. |
| DiffStructure.FeedCollectsInvalid | backend/app/services/diff_service.py:147-163 | The rejected headers are exactly the `@@` lines that fail the pattern, in input order. |
| DiffStructure.NoHunkBeforeHeader | backend/app/services/diff_service.py:166 | Until a valid header appears there is no hunk, so body lines before it are dropped. |
| DiffStructure.HunkOwnsItsBody | backend/app/services/diff_service.py:161-181 | A valid header followed by lines containing no valid header makes one new hunk, and that hunk's lines are exactly the body lines of that stretch. Malformed headers inside the stretch do not end the hunk. |
| DiffStructure.IgnoredLineHasNoEffect | backend/app/services/diff_service.py:36-37 | Removing a `---`/`+++` line, or any line that is not a header or body line, does not change the result. |
| DiffStructure.DoubledPrefixLineIsLost | backend/app/services/diff_service.py:143-144 | A delete line whose content starts with `--`, or an add line whose content starts with `++`, is read as a file header and skipped. |
| DiffStructure.BodyLineClassification | backend/app/services/diff_service.py:166-181 | Apart from file and `@@` headers, a line starting with `-`, `+` or a space is a delete, add or context line whose content is the rest of the line. Every other line, including the empty one, is ignored. |
| DiffStructure.ParseErrors | backend/app/services/diff_service.py:147-188 | The errors of a whole text are the messages for its rejected headers. If the text has neither a valid nor a rejected header, they are the single fallback message. |
| DiffStructure.GenerateDiff | backend/app/services/diff_service.py:19-74 | Two texts with the same lines give no hunks. |
| DiffStructure.ClassifyFormat | backend/app/services/diff_service.py:40-53 | A header written as `@@ -a,b +c,d @@` is recognised as a valid header with exactly those four numbers. |
| DiffStructure.StructureRender | backend/app/services/diff_service.py:34-74 | Writing hunks out as unified-diff lines and running the structuring pass over them gives back the same hunks. |
| DiffStructure.RenderReadBack | backend/app/services/diff_service.py:141-181 | Scanning rendered hunks gives those hunks and no rejected header. |
| DiffStructure.ParseAgreesWithStructure | backend/app/services/diff_service.py:136-188 | The parser, run on the joined lines of a stream, finds the same hunks as the structuring pass on that stream. |
| DiffStructure.ParseRendered | backend/app/services/diff_service.py:136-188 | Parsing the text of a non-empty rendered hunk list gives those hunks and no error. |
| DiffStructure.FinalEmptyLineIgnored | backend/app/services/diff_service.py:57-72 | A trailing empty line does not change the scan. |
| DiffStructure.MalformedHeaderExample | backend/app/services/diff_service.py:161-163 | `"@@ not-a-header @@\n+added line"` parses to no operations and to one "Invalid hunk header" error. The added line is dropped because there is no earlier hunk. |
| HunkHeader.ParseComplete | backend/app/services/diff_service.py:149 | Every line of the form `@@ -d1,d2 +d3,d4 @@` followed by anything, where the d's are digit strings, is accepted with the numbers those strings denote. |
| HunkHeader.ParseSound | backend/app/services/diff_service.py:149 | Every accepted line has that form, and the four numbers are the values of its digit strings. |
| HunkHeader.ParseFormat | backend/app/services/diff_service.py:42 | A formatted header followed by any text parses back to its own four numbers. |
| HunkHeader.SingleLineRangeRejected | backend/app/services/diff_service.py:42 | The comma-less form `@@ -1 +1 @@`, which difflib writes for one-line ranges, is rejected. |
| DiffApply.ApplyDiffLoop | backend/app/services/diff_service.py:87-124 | The source's loop computes the same text as the functional `ApplyDiff`. |
| DiffApply.ApplyHunkLoop | backend/app/services/diff_service.py:97-122 | One loop iteration gives the working lines and offset that `ApplyHunk` describes. |
| DiffApply.CountChanges | backend/app/services/diff_service.py:100-108 | The deletion count is the number of delete lines. The additions are the add lines' contents, in order. |
| DiffApply.ApplyInRange | backend/app/services/diff_service.py:111-119 | When the deletions fit, the result is the lines before the anchor, then the added lines, then the lines after the deleted ones. |
| DiffApply.ApplyOverrunEnd | backend/app/services/diff_service.py:111-119 | A hunk whose anchor lies inside the working copy but whose deletions run past its end deletes every line from the anchor on, as the clamped slice does, and the added lines follow the kept prefix. |
| DiffApply.ApplyPastEnd | backend/app/services/diff_service.py:111-119 | An anchor at or past the end deletes nothing and appends the added lines. |
| DiffApply.ApplyNegativeAnchor | backend/app/services/diff_service.py:111-119 | A negative anchor, no further back than the length, counts from the end as a Python slice does. When the deleted stretch ends at or after the first line but not past that counted-back anchor, nothing is deleted and the added lines go in at the counted-back position. |
| DiffApply.ApplyNegativeStretch | backend/app/services/diff_service.py:111-119 | A negative anchor whose deleted stretch ends before the first line deletes that many lines at the counted-back anchor `k`. The added lines then go in that many lines before `k`, or at the start when that is below the first line. |
| DiffApply.ApplyNegativeOverrun | backend/app/services/diff_service.py:111-119 | A negative anchor with more delete lines than the working copy has deletes from the counted-back anchor `k` to the end of the stretch, or to the end of the copy. The added lines go in as many lines before `k` as were deleted, or at the start. |
| DiffApply.ApplyBeforeStart | backend/app/services/diff_service.py:111-119 | An anchor further back than the length counts as the first line. The lines up to the normalised end of the deleted stretch are deleted, and the added lines go in at the start. |
| DiffApply.ContextIgnored | backend/app/services/diff_service.py:103-108 | Removing a hunk's context lines does not change what applying it does. |
| DiffApply.OthersSkipped | backend/app/services/diff_service.py:93-95 | Entries whose type is not `hunk` have no effect. |
| DiffApply.OffsetIsNetChange | backend/app/services/diff_service.py:122 | After any list of entries, the offset equals the total of added minus deleted lines over its hunks. |
| DiffApply.LengthFollowsOffset | backend/app/services/diff_service.py:111-122 | When every hunk's deletions fit, the number of lines changes by exactly that total. |
| DiffApply.NoOperations | backend/app/services/diff_service.py:87-124 | With no operations, the result is the original with at most its final line feed removed. |
| DiffApply.LeadingContextMisplaces | backend/app/services/diff_service.py:97-119 | A hunk that replaces the middle of three lines is applied at its leading context line instead: the wrong line is replaced. |
| AnchoredApply.ApplyHunk | backend/app/services/diff_service.py:97-122 | The corrected hunk step reads the start line as difflib writes it: the first line of a non-empty old range, or the line before an empty one. It fails exactly when the hunk's expected lines do not fit at that anchor. Otherwise it keeps the lines before the anchor, puts the new side at the anchor, and keeps the lines after the old side behind it. The length and the running offset both change by new-side minus old-side lines. |
| AnchoredApply.RoundTrip | backend/app/services/diff_service.py:97-122 | Applying the hunks of a diff, numbered as difflib numbers them, to the lines it was made from gives the new lines. This includes hunks with an empty old range, such as a diff of an empty text. |
| AnchoredApply.ApplyToOrigin | backend/app/services/diff_service.py:87-124 | The same holds for whole texts: the result is the new text. |
| AnchoredApply.AgreesWithoutContext | backend/app/services/diff_service.py:103-119 | For a hunk without context lines that fits and deletes something, the corrected step and the step as written give the same result. A hunk that only adds lines goes in where the step as written would put it for a start line one higher. |
| AnchoredApply.EmptyOriginalApplied | backend/app/services/diff_service.py:97-122 | The diff `@@ -0,0 +1,2 @@` of the empty text applied to the empty text gives the new text. |
| AnchoredApply.PureInsertionApplied | backend/app/services/diff_service.py:97-122 | The insertion `@@ -1,0 +2,2 @@` goes in after line 1: `a b` becomes `a x y b`. |
| DiffApply.PureInsertionMisplaced | backend/app/services/diff_service.py:98-119 | The code as written puts the insertion `@@ -1,0 +2,2 @@` before line 1: `a b` becomes `x y a b`. |
| AnchoredApply.MiddleLineApplied | backend/app/services/diff_service.py:108 | The middle-line hunk changes `a b c` into `a x c`. |
| RateLimit.Admit | backend/app/core/middleware.py:24-41 | A first request, or one a full window after the window opened, opens a new window with count 1. Inside the window a request passes exactly when the incremented count stays within 1000, and it keeps the window's start. A refused request changes nothing, and no other client's entry changes. |
| RateLimit.AdmitKeepsWellFormed | backend/app/core/middleware.py:24-41 | Every stored count stays between 1 and 1000. |
| RateLimit.BurstWithinWindow | backend/app/core/middleware.py:12-41 | A new client sending requests within 60 seconds of its first one gets exactly its first 1000 requests through. |
| AuthGate.Authorize | backend/app/core/middleware.py:65-121 | A request bypasses the gate exactly when its path is public. It is authenticated only with a two-word header whose first word lower-cases to `bearer` and whose second word the JWT library accepts, and the payload attached is that token's. |
| AuthGate.MissingHeaderIsNoToken | backend/app/core/middleware.py:74-79 | A request to a non-public path with no `Authorization` header, or an empty one, is refused with "No authorization token provided". |
| AuthGate.WrongSchemeRefused | backend/app/core/middleware.py:82-90 | Two words whose first does not lower-case to `bearer` are refused with "Invalid authentication scheme", and the token is never decoded. |
| AuthGate.TokenWithoutScheme | backend/app/core/middleware.py:81-96 | A header holding only a token is refused with "Invalid authorization header format". |
| AuthGate.BearerTokenReachesDecoder | backend/app/core/middleware.py:82-121 | With any whitespace around the scheme and the token, exactly that token is handed to the JWT library. Its payload or its error decides the outcome: "Invalid token: " and the text for an `InvalidTokenError`, the bare text for any other exception. |
| AuthGate.SchemeCaseInsensitive | backend/app/core/middleware.py:85 | Every mix of capitals and small letters in `bearer` is accepted as the scheme. |
| AuthGate.BlankHeaderIsBadFormat | backend/app/core/middleware.py:74-96 | A header of only whitespace is present, so it fails as a bad format rather than as a missing token. |
| Strings.WordsOfTwo | backend/app/core/middleware.py:82 | Splitting two words, with whitespace around and between them, gives exactly those two words. |
| Strings.WordsKeepNonSpace | backend/app/core/middleware.py:82 | Splitting keeps every non-whitespace character, in order. |
| Language.SplitExtParts | backend/app/services/ide_service.py:278 | The root and the extension make up the path. A non-empty extension starts with its only dot and follows, within the last path component, some character that is not a dot. Conversely, when the last component has a dot after some character that is not a dot, the extension is not empty. |
| Language.ExtensionsCounted | backend/app/services/ide_service.py:274-280 | An extension is counted exactly when it is non-empty and is the lower-cased extension of some entry of type `file`. |
| Language.ExtensionsLower | backend/app/services/ide_service.py:278 | Counted extensions are already lower-case. |
| Language.Dedup | backend/app/services/ide_service.py:273-280 | The keys are distinct and are exactly the counted extensions. |
| Language.DedupFirstAppearance | backend/app/services/ide_service.py:273-280 | The keys come in the order in which their first occurrences come in the counted extensions, which is the dictionary's insertion order. |
| Language.CountExtensions | backend/app/services/ide_service.py:273-280 | The counting loop's dictionary maps each counted extension to its number of occurrences. Its key order is the order of first appearance. |
| Language.LookupFinds | backend/app/services/ide_service.py:304-305 | An extension is found in the table exactly when some entry has it as key, and the first such entry gives its language. |
| Language.LangTableNoUnknown | backend/app/services/ide_service.py:283-297 | None of the thirteen languages is "Unknown", so the fallback is told apart from a real result. |
| Language.PickMax | backend/app/services/ide_service.py:300-306 | The chosen extension's count is at least that of every mapped extension. Every mapped extension before it in key order has a strictly smaller count, so ties go to the first one seen. |
| Language.PickSameMappedCounts | backend/app/services/ide_service.py:303-306 | The selection depends only on the counts of the mapped extensions. |
| Language.PickSpec | backend/app/services/ide_service.py:300-306 | An extension is chosen exactly when some counted extension is mapped, and its count is the greatest among mapped extensions. |
| Language.ChooseSpec | backend/app/services/ide_service.py:299-308 | The result is "Unknown" exactly when no counted extension is in the table. Otherwise it is the language of the first mapped extension with the greatest count. |
| Language.ChooseIsMostCommon | backend/app/services/ide_service.py:299-308 | Against a reference definition: with no mapped extension counted the result is "Unknown". Otherwise there is a mapped extension counted at least as often as every mapped one and, among those counted as often, seen first in the file order; the result is its language, or "Unknown" if that language is empty. |
| Language.MostCommonUnique | backend/app/services/ide_service.py:303-306 | At most one extension meets the reference definition, so the tie-break decides the result. |
| Language.OrUnknown | backend/app/services/ide_service.py:308 | `most_common or "Unknown"` never gives the empty string, and gives a non-empty language unchanged. |
| Language.DetectUnknown | backend/app/services/ide_service.py:308 | Detection gives "Unknown" exactly when no file has a non-empty extension in the table. |
| Language.NonFilesIgnored | backend/app/services/ide_service.py:275-276 | Inserting an entry whose type is not `file` anywhere in the list does not change the result. |
| Language.UnmappedIgnored | backend/app/services/ide_service.py:304 | Inserting a file whose extension is not in the table anywhere in the list does not change the result, however often that extension occurs. |
| Language.ChooseIgnoresUnmapped | backend/app/services/ide_service.py:304 | One more occurrence of an unmapped extension, at any position, does not change the selection. |
| Language.SelectLanguage | backend/app/services/ide_service.py:299-307 | The selection loop over the dictionary finds the same language as the functional choice, or none when that finds none. |
| Language.DetectLanguageLoop | backend/app/services/ide_service.py:268-308 | The counting and selection loops together compute `Detect`. |
| DiffApi.ParseDiffText | backend/app/api/diff.py:120-139 | The response carries the parser's operations and the parser's errors, both unchanged, including the errors of a response that succeeds. `success` holds exactly when there is at least one operation. A failed response always carries an error, because the parser falls back to "No valid diff operations found". |
| DiffApi.SuccessIffHunk | backend/app/api/diff.py:126-139 | Because of the parser's fallback error, `success` holds exactly when at least one hunk was parsed, that is, when the text has a valid hunk header. |
| Lines.SplitLinesJoin | backend/app/services/diff_service.py:141 | Splitting joined lines gives them back, apart from one trailing empty line. |
| Lines.JoinSplitLines | backend/app/services/diff_service.py:87-124 | Joining the split lines of a text gives the text without its final line feed. |
| Slices.DelSliceKeeps | backend/app/services/diff_service.py:115 | `del xs[lo:hi]` keeps the elements before the normalised lower bound and shifts the rest down by the slice's width. |
| Slices.InsertAtKeeps | backend/app/services/diff_service.py:119 | `xs[at:at] = ys` keeps the elements before the normalised position, places `ys` there and shifts the rest up by its length. |
| Slices.ReplaceInRange | backend/app/services/diff_service.py:114-119 | For an in-range position, the guarded delete-then-insert equals replacing `n` lines by `ys`. |

## Left out

- difflib's matching algorithm (`SequenceMatcher` and the output of `unified_diff`) is a foreign library. The model takes it as a parameter, and assumes only that equal inputs give no lines for the context length used, which must be zero or more.
- DiffStructure.GenerateDiff: states only the equal-texts case, and only for a context length of zero or more. With a negative `context_lines`, difflib emits a malformed hunk such as `@@ -3,-1 +3,-1 @@` even for equal lists. Everything else about its output depends on difflib, which is not modelled. The structuring pass it runs is covered by `StructureRender` and the scan lemmas.
- `str.splitlines` also breaks at `\r`, `\r\n`, `\x0b`, `\x0c`, `\x1c`-`\x1e`, `\x85`, `\u2028` and `\u2029`. The model splits on line feeds only.
- Python's `\d` also matches non-ASCII decimal digits. The header parser accepts ASCII digits only.
- Python's `str.lower` maps every Unicode capital. The model lower-cases ASCII letters only. No non-ASCII character lower-cases to a letter of `bearer` or of the thirteen table keys, so the gate's decision and the detected language are the same.
- `time.time()` returns a float. Times are whole seconds here, which keeps the comparison with the 60-second window exact but does not model fractional timestamps.
- JWT decoding, the secret key and token expiry belong to the JWT library. They are the `TokenDecoder` parameter, and `request.state.user` becomes the payload of the `Authenticated` outcome. Any exception raised while decoding, including one from reading the secret key, is an error of that parameter.
- Python 3.11 and later (and the security releases of 3.7 to 3.10) refuse `int()` on a string of more than 4300 digits. A header such as `@@ -<5000 digits>,1 +1,1 @@` then raises `ValueError` at `diff_service.py` line 151: the parser records "Error parsing diff: " and the exception's text, and skips every later line, and `generate_diff` lets the exception escape. `HunkHeader.Value` accepts numbers of any length, so the model does not produce that message or that cut-off. The limit depends on the interpreter's version and settings, not on this code.
- The operations given to `apply_diff` arrive as untyped JSON (`List[Dict[str, Any]]` in `models/ide.py` line 32), but here they are the typed `Entry`, `Hunk` and `DiffLine`. Three behaviours of the source therefore cannot arise in the model:
  - a missing `type`, `orig_start`, `lines` or add-line `content` key raises `KeyError` (`diff_service.py` lines 94, 98 and 103-107);
  - an `orig_start` that is not an integer raises `TypeError` at the subtraction or at the slice;
  - a line whose `type` is none of the three is ignored like a context line.
- Logging, `call_next`, HTTP status codes and the HTTP plumbing of `api/diff.py` and `api/ide.py` are not modelled. A refused request or a 401 is a value of the result datatype.
- Concurrent requests sharing the global rate-limit dictionary are not modelled. Each `Admit` is one atomic transition.
- The rest of `ide_service.py` (file I/O, directory listing, path checks, `_detect_framework`) and the other services, clients and API routes are outside this model.

## Findings

| source | as written | input that shows it | evidently intended | confidence | as-written member | corrected member |
|---|---|---|---|---|---|---|
| backend/app/services/diff_service.py:97-119 | Deletions and additions are spliced at `orig_start - 1 + offset`, and context lines are skipped without moving that position. A hunk with leading context therefore deletes its context lines instead of its delete lines. | `"a\nb\nc"` with the hunk `@@ -1,3 +1,3 @@` / ` a` / `-b` / `+x` / ` c` (what difflib yields for `a b c` to `a x c`) gives `"x\nb\nc"` | `"a\nx\nc"`: context lines are "already in the original" (line 108), so the changes belong after them | not executed | DiffApply.LeadingContextMisplaces | AnchoredApply.RoundTrip |
| backend/app/services/diff_service.py:98-119 | The start line is always read as the first line of the old range (`orig_start - 1`). difflib names an empty range by the line before it, so a hunk that only adds lines, as a diff without context gives, is placed one line too early. | `"a\nb"` with the hunk `@@ -1,0 +2,2 @@` / `+x` / `+y` (what difflib yields with no context for `a b` to `a x y b`) gives `"x\ny\na\nb"` | `"a\nx\ny\nb"`: `-1,0` means "after line 1" | not executed | DiffApply.PureInsertionMisplaced | AnchoredApply.RoundTrip |
