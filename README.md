# Meeting Summary App: route logic in Dafny

This project models the deterministic core of three HTTP routes of the Meeting Summary App backend.

- **share** (`server/routes/shareRoutes.js`):
  - parsing the recipient list;
  - the email-shape check;
  - the order in which the request is validated;
  - the regex pipeline that turns a markdown-like summary into HTML;
  - the subject line, the plain-text body and the sender block;
  - the mail options handed to the transport.
- **summarize** (`server/routes/summarizeRoutes.js`):
  - the "transcript or prompt" check;
  - the prompt text;
  - the classification of the language-model provider's reply;
  - the fallback summary used when no provider key is configured.
- **upload** (`server/routes/uploadRoutes.js`):
  - format dispatch by MIME type or file-name suffix;
  - the empty-content rule;
  - when the temporary copy of the upload is deleted.

The first two routes are pure, so they are modelled as functions. JavaScript's regular expressions become explicit left-to-right scans:

- a lazy `.*?` stops at the first match;
- without the `s` flag (shareRoutes.js lines 10-14), `.` does not cross a line terminator; with it (line 19), `.` matches any character;
- a greedy `\s*` before `<` takes the whole white-space run.

The upload handler changes state, so it is a method over a `TempFile` object whose only field says whether the file still exists. That method is proved equal to a specification function, `UploadOutcome`, and the lemmas are stated about that function.

Files:

- `wrappers.dfy`: `Option` and `Result`.
- `jstext.dfy`: the JavaScript string built-ins used by the routes (`\s`, `trim`, `split`, `join`, `startsWith`, `endsWith`).
- `recipients.dfy`: `parseRecipients` and the email regex.
- `markup.dfy`: `formatSummaryHTML`'s rewrite stages.
- `bullet_lists.dfy`: what those stages do to a list of `* ` bullet lines.
- `nested_bullets.dfy`: what those stages do to a `* ` bullet followed by a sub-bullet.
- `share.dfy`: the share handler.
- `summarize.dfy`: the summarize handler.
- `upload.dfy`: the upload handler.

The code and the system's design description disagree in three places. The model follows the code in all three:

- **Bullet lists.** The design description says consecutive bullets are coalesced into one `<ul>`. The code's `<li>` wrapper (shareRoutes.js line 19) closes one `<ul>` per item. The later cleanups (lines 22-24) only remove a `<br>` that is actually present, and none is left between the wrapped items. `BulletLists.BulletListGivesOneListPerItem` proves that a bullet list gives one `<ul><li>…</li></ul>` per item.
- **Sub-bullets.** The design description says a sub-bullet that directly follows a top-level bullet becomes a nested list inside the outer list. In the code the sub-bullet rule (line 14) turns the sub-bullet into `<ul><li>y</li></ul>`. The `<li>` wrapper (line 19) then finds no item after the `<br>`, so it does not wrap the top-level item, and the cleanup on line 23 drops the `<br>`. `NestedBullets.NestedBulletLeftOutsideList` proves that the top-level item ends up outside any list, directly followed by the sub-list.
- **Temporary file.** The design description says the temporary upload file is removed on every exit path. For a received upload, the code returns before its cleanup in two cases: DOCX extraction fails, or reading a text file throws. `Upload.TempFileSurvives` states exactly when the file is left behind. When no file was uploaded there is no temporary file, so that early return leaks nothing.

## Model

| member | source | states |
|---|---|---|
| JsText.Trim | server/routes/shareRoutes.js:68 | the result has no white space at either end and is a slice of the input with only white space cut off |
| JsText.TrimEmptyIffAllSpace | server/routes/uploadRoutes.js:64 | `trim()` gives "" exactly when the string is all white space |
| JsText.TrimIdempotent | server/routes/shareRoutes.js:68 | trimming twice is trimming once |
| JsText.SplitOn | server/routes/shareRoutes.js:69 | `split` on a character class gives at least one field, no field contains a separator, and a string without separators is its own only field |
| JsText.SplitAtSeparator | server/routes/shareRoutes.js:69 | a separator cuts the string in two: the fields of the whole are the fields before it followed by the fields after it |
| JsText.SplitJoin | server/routes/shareRoutes.js:69 | joining separator-free fields with any one separator character and splitting on the class gives the fields back |
| JsText.NonEmpty | server/routes/shareRoutes.js:68 | `filter(Boolean)` keeps exactly the non-empty strings and never lengthens the list |
| Recipients.ParseRecipients | server/routes/shareRoutes.js:66-70 | falsy input gives []; every recipient is trimmed and non-empty; a list never grows; a string's recipients contain none of `,` `\|` `;` newline |
| Recipients.ParseListAppend | server/routes/shareRoutes.js:68 | a list is parsed element by element, in order |
| Recipients.ParseListKeepsDuplicates | server/routes/shareRoutes.js:68 | duplicates are kept |
| Recipients.ParseListSingle | server/routes/shareRoutes.js:68 | one entry gives its trimmed form, or nothing when it is blank |
| Recipients.ParseTextFields | server/routes/shareRoutes.js:69 | a string's recipients are its fields split on `,` `\|` newline `;`, trimmed, with the blank ones dropped |
| Recipients.ParseTextAppend | server/routes/shareRoutes.js:69 | a string is parsed field by field: the recipients of `a`, a separator and `b` are those of `a` followed by those of `b` |
| Recipients.ParseTextSingle | server/routes/shareRoutes.js:69 | a string without separators is one recipient, trimmed, or none when it is blank |
| Recipients.ParseTextJoin | server/routes/shareRoutes.js:69 | entries joined by any one separator are parsed back, trimmed and without the blank ones, in order |
| Recipients.ParseTextWord | server/routes/shareRoutes.js:69 | a trimmed non-blank string without separators is exactly one recipient, itself |
| Recipients.ParseTextPaddedWord | server/routes/shareRoutes.js:69 | the same after leading white space, such as the space after `, ` |
| Recipients.ParseTextMixedSeparators | server/routes/shareRoutes.js:69 | three addresses separated by two different separators, with white space after one, come back as exactly those three, in order |
| Recipients.EmailShapeCharacterized | server/routes/shareRoutes.js:81 | the regex accepts exactly the strings with no white space, one `@` with something before it, and a `.` inside the domain that is neither its first nor its last character |
| Recipients.RegexGivesPlainShape | server/routes/shareRoutes.js:81 | a regex match has that plain shape |
| Recipients.PlainShapeGivesRegex | server/routes/shareRoutes.js:81 | the plain shape matches the regex |
| Recipients.EmailShapeExamples | server/routes/shareRoutes.js:81 | `a@x.com` is accepted; `not-an-email`, `a b@x.com` and "" are rejected |
| Share.ValidateShare | server/routes/shareRoutes.js:74-89 | the request passes exactly when summary and recipients are given, the parsed list is non-empty, every recipient and a given sender email are email-shaped; it yields the parsed list |
| Share.ValidationOrder | server/routes/shareRoutes.js:75-89 | each of the four errors is returned exactly when every earlier check passes and its own fails |
| Share.EmptyListHasNoRecipients | server/routes/shareRoutes.js:75-78 | an empty recipient array passes the presence check and fails with "No valid recipient emails" |
| Share.Subject | server/routes/shareRoutes.js:119 | the subject is the bare title exactly when no sender name is given, otherwise `Meeting Summary (shared by …)` |
| Share.SubjectRoundTrip | server/routes/shareRoutes.js:119 | the sender name can be read back from the subject |
| Share.Attribution | server/routes/shareRoutes.js:120 | the attribution is empty exactly when neither name nor email is given; otherwise it starts `Shared by: ` with the name or `Someone` and ends with a blank line |
| Share.PlainTextBody | server/routes/shareRoutes.js:120 | the text body is the attribution followed by the raw summary; it equals the summary exactly when neither a sender name nor a sender email is given |
| Share.AttributionForms | server/routes/shareRoutes.js:120 | the three attribution forms for name only, email only, and both |
| Share.SenderBlock | server/routes/shareRoutes.js:27-39 | the sender block is empty exactly when neither name nor email is given, and otherwise is framed by the block's opening and closing markup |
| Share.SenderBlockRoundTrip | server/routes/shareRoutes.js:34 | the block shows the name or `Someone`, and shows the email (in its span) exactly when one is given: both can be read back |
| Share.SummaryHtml | server/routes/shareRoutes.js:41-63 | the document starts with the header, the date and the sender block, ends with the rendered summary and the footer, has exactly the length of those parts plus the fixed text before the summary, and holds that fixed text between them |
| Share.DisplayName | server/routes/shareRoutes.js:34 | the shown name is never empty: the given sender name, or `Someone` without one |
| Share.SenderLine | server/routes/shareRoutes.js:34 | the line starts with the shown name; it is that name alone without an email, and ends with the email in its span otherwise |
| Share.FromHeader | server/routes/shareRoutes.js:117 | the sender is `"Meeting Summary App" <` + the account name + `>`, and the account name can be read back |
| Share.ShareMail | server/routes/shareRoutes.js:116-122 | mail options exist exactly when validation passes, otherwise the validation error is returned; `from`, `to`, subject, text and html are the sender header, the comma-joined recipient list, the subject, the text body and the HTML document |
| Share.ToHeaderRoundTrip | server/routes/shareRoutes.js:118 | for a string of recipients, splitting the `to` header on commas gives back the parsed recipients |
| Markup.BoldClose | server/routes/shareRoutes.js:10 | the lazy `.*?` closes at the first `**` on the same line; when it fails, no `**` occurs up to the end of the line |
| Markup.Bold | server/routes/shareRoutes.js:10 | the bold stage never shortens the text |
| Markup.BoldPlain | server/routes/shareRoutes.js:10 | text without `**` is not changed by the bold stage |
| Markup.BoldUnclosed | server/routes/shareRoutes.js:10 | a `**` with no closing `**` on its line is not replaced: its first `*` is kept and matching resumes right after it |
| Markup.BoldUnclosedSpan | server/routes/shareRoutes.js:10 | `**` followed by text with no `**` in it (and not starting with `*`) is kept literally |
| Markup.BoldSpan | server/routes/shareRoutes.js:10 | `**X**` within one line becomes `<strong>X</strong>` and the rest is processed after it, when X has no `**` inside and does not end in `*`, and the text before it has no `**` and does not end in `*` (a lone `*` is allowed in both) |
| Markup.BoldSpanAtStart | server/routes/shareRoutes.js:10 | the same, for a span at the start of the text (X with no `**` inside and not ending in `*`) |
| Markup.BulletLine | server/routes/shareRoutes.js:12-14 | a line starting `* ` becomes `<li>rest</li>`; a line starting with four spaces then `* ` becomes `<ul><li>rest</li></ul>`; other lines are unchanged |
| Markup.LineEnd | server/routes/shareRoutes.js:12-14 | `$` in multiline mode is the first line terminator or the end of the input |
| Markup.BulletsLine | server/routes/shareRoutes.js:12-14 | the bullet stages rewrite line by line and keep the line terminators |
| Markup.Bullets | server/routes/shareRoutes.js:12-14 | a bullet stage never shortens the text |
| Markup.BulletsPlain | server/routes/shareRoutes.js:12-14 | text without `*` is not changed by the bullet stages |
| Markup.Breaks | server/routes/shareRoutes.js:16 | no newline is left; the text is unchanged exactly when it had none |
| Markup.BreaksAppend | server/routes/shareRoutes.js:16 | the newline stage works piecewise |
| BulletLists.BreaksJoin | server/routes/shareRoutes.js:16 | lines joined by newlines become the lines joined by `<br>` |
| Markup.WrapItemsPlain | server/routes/shareRoutes.js:19 | text without `<l` is not changed by the `<li>` wrapper |
| Markup.SkipSpace | server/routes/shareRoutes.js:19 | the greedy `\s*` takes the whole white-space run: everything it passes is white space and it stops at a non-space or the end |
| Markup.ItemTail | server/routes/shareRoutes.js:19 | after a `</li>` the match ends where an item starts or at the end of the text, past a `<br>` between white space when one follows; when it fails, neither an item nor the end follows the `</li>` |
| Markup.ItemClose | server/routes/shareRoutes.js:19 | the lazy item body ends at the first `</li>` whose tail succeeds, and no earlier `</li>` has one; when it fails, none has |
| Markup.WrapItems | server/routes/shareRoutes.js:19 | the wrapper adds no newline; a text opening with a closable item starts with `<ul><li>`; any other text keeps its first character |
| Markup.ItemCloseFinds | server/routes/shareRoutes.js:19 | when no `<` precedes a `</li>` whose tail (optional `<br>`, then `<li>` or the end) matches, the lazy item body ends at that `</li>` |
| BulletLists.BoldBulletSource | server/routes/shareRoutes.js:10 | the bold stage leaves plain `* ` bullet lines unchanged |
| BulletLists.BulletsJoin | server/routes/shareRoutes.js:12-14 | on newline-joined lines, a bullet stage rewrites each line by itself |
| BulletLists.BulletLinesBecomeItems | server/routes/shareRoutes.js:10-16 | the first four stages turn `* x` lines into `<li>x</li>` items joined by `<br>` |
| BulletLists.WrapLastItem | server/routes/shareRoutes.js:19 | a lone item is wrapped in its own `<ul>` |
| BulletLists.WrapItemBeforeItem | server/routes/shareRoutes.js:19 | an item followed by `<br>` and another item is wrapped alone and the `<br>` is consumed |
| BulletLists.WrapItemsSeparately | server/routes/shareRoutes.js:19 | `<br>`-separated items each get their own `<ul>` |
| Markup.MatchSpaced | server/routes/shareRoutes.js:22-24 | a match of the spaced tags starts with the first tag and ends with the last one |
| Markup.ReplaceSpaced | server/routes/shareRoutes.js:22-24 | a cleanup rewrite adds no newline when its replacement has none |
| Markup.ReplaceSpacedPlain | server/routes/shareRoutes.js:22-24 | a cleanup rewrite changes nothing when one of its tags cannot occur |
| Markup.JoinListsRemoved | server/routes/shareRoutes.js:22 | `</ul>`, white space, `<br>`, white space and `<ul>` are removed together |
| Markup.BreakBeforeListReplaced | server/routes/shareRoutes.js:23 | `<br>`, white space and `<ul>` become `<ul>` |
| Markup.BreakAfterListReplaced | server/routes/shareRoutes.js:24 | `</ul>`, white space and `<br>` become `</ul>` |
| Markup.SummaryMarkup | server/routes/shareRoutes.js:8-24 | the rendered summary holds no newline |
| Markup.PlainSummaryGainsOnlyBreaks | server/routes/shareRoutes.js:8-24 | a summary without `*` and `<` only has its newlines turned into `<br>` |
| Markup.PlainLineUnchanged | server/routes/shareRoutes.js:8-24 | a one-line summary without `*` and `<` passes through unchanged |
| BulletLists.CleanupsKeepLists | server/routes/shareRoutes.js:22-24 | the three cleanups leave side-by-side `<ul>` lists unchanged, as there is no `<br>` between them |
| BulletLists.BulletListGivesOneListPerItem | server/routes/shareRoutes.js:8-24 | a `* `-bullet list becomes one `<ul><li>…</li></ul>` per item, with no `<br>` between them |
| NestedBullets.NestedLines | server/routes/shareRoutes.js:10-16 | a `* x` line followed by a `    * y` line becomes `<li>x</li>`, `<br>` and `<ul><li>y</li></ul>` |
| NestedBullets.LinesNotClosed | server/routes/shareRoutes.js:19 | in that text no `</li>` has a tail: the first is followed by `<br><ul>`, the second by `</ul>` |
| NestedBullets.LinesNotWrapped | server/routes/shareRoutes.js:19 | so the `<li>` wrapper leaves that text unchanged |
| NestedBullets.JoinStage | server/routes/shareRoutes.js:22 | the first cleanup finds no `</ul>` before the `<br>` and changes nothing |
| NestedBullets.BreakBeforeStage | server/routes/shareRoutes.js:23 | the second cleanup turns the `<br><ul>` into `<ul>` |
| NestedBullets.BreakAfterStage | server/routes/shareRoutes.js:24 | the third cleanup finds no `<br>` and changes nothing |
| NestedBullets.NestedBulletLeftOutsideList | server/routes/shareRoutes.js:8-24 | `* x` then `    * y` renders as `<li>x</li><ul><li>y</li></ul>`: the top-level item is outside any list |
| Summarize.WithDefault | server/routes/summarizeRoutes.js:8 | the default "" replaces a missing field only; `null` stays `null` and a string is kept |
| Summarize.MissingInputRefused | server/routes/summarizeRoutes.js:8-9 | 400 "Provide transcript or prompt" is answered exactly when neither field is a non-empty string |
| Summarize.UserContent | server/routes/summarizeRoutes.js:11 | the prompt starts with `Instruction: `, ends with the transcript, holds the instruction followed by the transcript label right after the first label, and is exactly as long as those four parts |
| Summarize.ProviderText | server/routes/summarizeRoutes.js:24 | the text sent starts with the fixed preamble, ends with a blank line (`\n\n`) followed by the prompt, and has nothing else: its length is the preamble's, plus two, plus the prompt's |
| Summarize.ContentLayout | server/routes/summarizeRoutes.js:11 | in the prompt, the instruction sits right after `Instruction: `, the transcript label right after the instruction, and the transcript right after that label |
| Summarize.UserContentRoundTrip | server/routes/summarizeRoutes.js:11 | instruction and transcript are read back from `Instruction: …\n\nTranscript:\n…` exactly when the transcript label does not begin inside the instruction |
| Summarize.SummaryField | server/routes/summarizeRoutes.js:81 | the optional chain with `?? ""` never yields null |
| Summarize.ClassifyReply | server/routes/summarizeRoutes.js:64-88 | a non-2xx reply is 502 with the raw body and the key suggestion; then unparseable JSON is 502 "Invalid response"; a summary is answered exactly when the text field is truthy, and it is that field; every failure is a 502 |
| Summarize.CandidateReply | server/routes/summarizeRoutes.js:81 | the optional chain reads the text back from a reply of the documented shape |
| Summarize.CandidateReplyClassified | server/routes/summarizeRoutes.js:81-88 | a 2xx reply of the documented shape yields its text, or 502 "Empty response" when the text is empty |
| Summarize.MissingTextIsEmpty | server/routes/summarizeRoutes.js:81-85 | a reply without candidates is an empty response |
| Summarize.SplitLineRuns | server/routes/summarizeRoutes.js:92 | `split(/\n+/)` gives at least one field and no field holds a newline |
| Summarize.SplitLineRunsJoin | server/routes/summarizeRoutes.js:92 | non-empty lines joined by single newlines split back into those lines |
| Summarize.TranscriptLines | server/routes/summarizeRoutes.js:92 | every kept line is trimmed, non-empty and newline-free |
| Summarize.TranscriptLinesFields | server/routes/summarizeRoutes.js:92 | splitting on runs of newlines keeps the same lines as splitting on each single newline, then trimming every field and dropping the blank ones, in order |
| Summarize.TranscriptLinesAppend | server/routes/summarizeRoutes.js:92 | the lines of two texts joined by a newline are the lines of the first followed by the lines of the second |
| Summarize.TranscriptLinesSingle | server/routes/summarizeRoutes.js:92 | a text without a newline gives no line when it is all white space, and otherwise exactly its trimmed self |
| Summarize.IndentedLine | server/routes/summarizeRoutes.js:92 | an indented line gives the line without its indentation |
| Summarize.IndentedTranscript | server/routes/summarizeRoutes.js:92-94 | two indented lines (such as `"  hello\n  world"`) give the two lines without indentation, and the fallback lists them under the label, one per line |
| Summarize.FallbackOfTwoLines | server/routes/summarizeRoutes.js:93-94 | a transcript whose lines are exactly two gives the label followed by those two lines joined by a newline |
| Summarize.KeptLines | server/routes/summarizeRoutes.js:93 | at most eight lines, a prefix of the transcript's lines, and all of them when there are at most eight |
| Summarize.FallbackSummary | server/routes/summarizeRoutes.js:94 | the fallback starts with `Fallback summary (no LLM key):` and a blank line |
| Summarize.FallbackBodyRoundTrip | server/routes/summarizeRoutes.js:92-94 | the body after the label splits on newlines into exactly the kept lines; with none, the fallback is the label alone |
| Summarize.EmptyTranscriptFallback | server/routes/summarizeRoutes.js:92-94 | an empty transcript yields the label alone |
| Summarize.FallbackOfLines | server/routes/summarizeRoutes.js:92-94 | a transcript of clean lines yields its first eight lines under the label |
| Summarize.HandleSummarize | server/routes/summarizeRoutes.js:6-99 | every failure is 400, 500 or 502, and a 400 is the missing-input error; without a key a summary is a string starting with the fallback label; a summary is always truthy |
| Summarize.NoKeyMeansFallback | server/routes/summarizeRoutes.js:14-95 | without a key the provider is never consulted, no 502 is answered, and a string transcript yields the fallback |
| Summarize.KeyMeansProvider | server/routes/summarizeRoutes.js:14-88 | with a key the answer is the classified provider reply (500 when the request fails), so a summary is always the reply's text field |
| Upload.FormatOf | server/routes/uploadRoutes.js:20-52 | the format is the first of text, DOCX, PDF whose MIME type or case-sensitive suffix matches, else unsupported |
| Upload.FormatExamples | server/routes/uploadRoutes.js:20-48 | `text/plain` named `.pdf` is text; `NOTES.TXT` with another MIME type is unsupported; a `.docx` name wins over the PDF MIME type |
| Upload.TempFile.constructor | server/routes/uploadRoutes.js:7-10 | a new upload's temporary file exists |
| Upload.TempFile.Unlink | server/routes/uploadRoutes.js:42 | deleting succeeds exactly when the file exists, and it is gone afterwards |
| Upload.ContentResponse | server/routes/uploadRoutes.js:64-68 | all-white-space text is 400 "No text content found in the file"; otherwise the answer is the trimmed, non-empty text |
| Upload.UploadOutcome | server/routes/uploadRoutes.js:10-73 | the file is never re-created; every failure is 400 or 500; a transcript is trimmed and non-empty, and then the file has been deleted |
| Upload.HandleUpload | server/routes/uploadRoutes.js:10-73 | the handler's response and the file's final state are those of `UploadOutcome` |
| Upload.NoFileCheckedFirst | server/routes/uploadRoutes.js:12 | without a file the answer is 400 "No file uploaded" whatever else holds |
| Upload.RefusedFormatsDeleted | server/routes/uploadRoutes.js:40-51 | a PDF or unsupported file is refused (400 when the file could be deleted) and never left on disk |
| Upload.SuccessIsTrimmedText | server/routes/uploadRoutes.js:54-68 | a success carries the trimmed, non-empty text of a text or DOCX file, and the file was deleted |
| Upload.WhitespaceOnlyRefused | server/routes/uploadRoutes.js:55-66 | white-space-only text is refused with 400 after the file is deleted |
| Upload.TempFileSurvives | server/routes/uploadRoutes.js:20-60 | for a received upload, the file is left on disk exactly when a text read throws or DOCX extraction fails |
| Upload.DocxFailureKeepsFile | server/routes/uploadRoutes.js:30-36 | a DOCX failure is 400 "Failed to parse DOCX file" and leaves the file on disk |

## Left out

- Mail transport is not modelled: creating the transport, `verify`, `sendMail`, and the mapping of their failures to 401 and 500 (shareRoutes.js lines 92-154) are external I/O.
- The provider call is abstracted: the HTTP request, URL, key, `generationConfig`, `safetySettings` and the floating-point temperature (summarizeRoutes.js lines 15-61) become a function from the text sent to an optional reply.
- The reply is taken as already parsed. It is status, raw body and the result of `JSON.parse`, with None when parsing throws.
- File I/O is left out:
  - upload handling by the multipart middleware, the 10 MB limit and UTF-8 decoding;
  - DOCX extraction: its results are inputs (None when the read or the extraction throws).
- Deleting the file is modelled as a flag, and deletion fails exactly when the file is already gone.
- Other locale, template and logging details are left out:
  - the date shown in the HTML is a parameter, because it is a locale-dependent clock read;
  - the HTML template's markup and styling (the document head, the header and footer, the sender block's frame) are replaced by short placeholder constants; only the email span on line 34 is the code's own text;
  - console logging is not modelled.
- Share.ShareRequest: request fields that are neither strings nor absent (numbers, objects) are not modelled. An absent, `null` or empty summary, sender name or sender email is the empty string, because the code treats all three alike.
- Recipients.ParseRecipients: only strings and arrays of strings are modelled. Other truthy values that go through `toString()` are not.
- Summarize.Field: only missing, `null` and string fields are modelled. A transcript of another type, which `split` would reject, is not.
- Summarize.Json: numbers are integers. Only whether a number is zero affects the classification of a reply; fractional numbers, which line 88 would return as they are, are outside the modelled replies.
- Summarize.First: on a string it takes the first `char`. JavaScript takes the first UTF-16 code unit.
- The outer exception handlers are modelled only where a modelled step can throw:
  - the provider request failing;
  - reading a text file;
  - a failed deletion on the PDF and unsupported paths;
  - `split` on a `null` transcript.
- Share.SenderBlockRoundTrip: the inverse reads the email from the first ` <` in the shown line, so the lemma requires that the displayed name does not contain ` <`.
