# Student task API: a Dafny model of its validation, generation and orchestration

The repository is a small web service. It receives a task request (e-mail, secret, task id,
round, nonce, brief, free-text checks and attachments). In the background it has a language
model generate a static web application (`index.html`, optional `style.css` / `script.js`,
`LICENSE`, `README.md`), publishes it to a GitHub repository and notifies an evaluation
server. This project models the logic around those foreign calls and proves what it promises.

- **Models** (`models.py`): the request body, the `checks` normalisation, the `round >= 1`
  constraint and the default of `attachments`.
- **Validator** (`services/validator.py`):
  - the structural check of the three required files, with its errors and warnings;
  - the per-check validation, which tries five keyword rules in a fixed order (first match
    wins) and otherwise falls back to "unknown";
  - the pass / fail / unknown tally.
- **Templates** (`services/llm_generator.py`): the MIT licence and the generated README, line
  by line. Proved:
  - the licence passes the licence checks;
  - the README passes the README checks;
  - the README lists every file except itself.
- **Generator** (`services/llm_generator.py`):
  - reply parsing (JSON first, fenced code blocks as the fallback, escape normalisation,
    attachments);
  - the round-1 create path and the round-2 merge;
  - the update-prompt previews;
  - the `generate_app` dispatch;
  - the targeted fixes after failed checks.
- **Pipeline** (`main.py`):
  - the build endpoint's credential gate;
  - the background task: repository name, round fallback, create-or-update choice,
    notification and catch-all.
- **Strings, Files, Patterns, Wrappers**: the Python string operations the code relies on
  (`lower`, `strip`, `in`, `find`, `replace`, `split`/`join`, `sorted`), file contents as
  text or bytes, hand-written matchers for the regular expressions used, and
  `Option`/`Result`.

**Foreign code is a parameter.**
- The language model is a function from a `Prompt` (the information it carries) to an
  optional reply. `None` means the call raised.
- The codecs (`json.loads`, base64, UTF-8 decoding, `unicode_escape`, `str(bytes)`) are
  opaque functions.
- The repository host and the evaluation server are function-typed fields of
  `Pipeline.Services`.
- The clock readings (licence year, README timestamp) are arguments.

**Imperative shape.**
- The code that builds lists or dictionaries step by step is kept as methods with loops or
  sequences of updates: `ValidateStaticFiles`, `ValidateAgainstChecks`, `ParseResponse`,
  `ExtractCodeBlocks`, `UpdateExistingApp`, `FixValidationFailures`, `ProcessTask`.
- Each such method is proved equal to a function, and the properties are proved about that
  function.
- `TaskRequest` is a class because `process_task` reassigns its `round` in place.

**What the code does not do.**
- There is no idempotency tracker: the nonce is only forwarded in the notification
  (main.py:185-193), and a repeated request runs again.
- The structural check does not scan for escape-sequence artifacts and has no script
  warnings; its only checks are the ones modelled in `Validator.StaticErrors` and
  `Validator.StaticWarnings`.
- The round-1 path writes LICENSE and README.md unconditionally, overwriting any the model
  returned (services/llm_generator.py:106-107).

## Model

| member | source | states |
|---|---|---|
| Models.NormalizeChecks | models.py:24-30 | a single check string becomes the one-element list holding exactly it; a list passes through unchanged |
| Models.NormalizeChecksIdempotent | models.py:26-30 | normalising an already normalised value changes nothing |
| Models.AttachmentsOf | models.py:22 | an absent field defaults to the empty list, an explicit null stays null, a given list is kept |
| Models.TaskRequest.constructor | models.py:12-30 | a validated request carries every field of the body, the normalised checks and the defaulted attachments |
| Models.ParseRequest | models.py:17 | a body is rejected exactly when its round is below 1; an accepted request has round >= 1 and normalised checks and attachments |
| Validator.MissingIssues | services/validator.py:38-45 | an issue is reported exactly for each listed required name absent from the files, and only "missing" issues are reported |
| Validator.MissingOfRequired | services/validator.py:38-45 | the missing-file errors are index.html, LICENSE, README.md in that order, each present exactly when that file is absent |
| Validator.ReportMissing | services/validator.py:38-45 | the three conditional appends produce exactly the messages of the missing-file issues |
| Validator.EmptinessOf | services/validator.py:49-55 | a present file gets at most one emptiness issue, and gets one exactly when it is zero bytes or text that `strip()` empties; bytes and text get different messages |
| Validator.EmptinessIssues | services/validator.py:48-55 | every emptiness issue names a present required file that is empty, and every present empty required file has its issue |
| Validator.ReportEmpty | services/validator.py:48-55 | the loop over the three required names produces exactly the messages of the emptiness issues |
| Validator.ReportEmptiness | services/validator.py:49-55 | one file's emptiness message, by its content kind |
| Validator.LicenseIssues | services/validator.py:58-65 | the licence error is raised exactly when LICENSE exists and its lowered text has neither "mit license" anywhere nor "mit" within its first 200 characters |
| Validator.ReportLicense | services/validator.py:58-65 | appends exactly the licence issue's message |
| Validator.ReadmeIssues | services/validator.py:68-83 | README problems: "short" with the exact length iff under 150 characters, "no headings" iff no line starts with `#`s followed by whitespace, "no sections" iff "##" is absent; nothing else |
| Validator.ReportReadme | services/validator.py:68-83 | appends exactly the README warnings |
| Validator.HtmlErrorIssues | services/validator.py:97-102 | a missing `<html` or `<body` in the lowered index.html is an error, each iff absent |
| Validator.HtmlWarningIssues | services/validator.py:93-109 | a missing doctype, `<head` or `<title` is a warning, each iff absent |
| Validator.ReportHtml | services/validator.py:86-109 | the index.html block appends exactly those errors and those warnings |
| Validator.StaticErrorsMissing | services/validator.py:38-45 | "missing" is among the errors iff the name is required and absent |
| Validator.StaticErrorsEmpty | services/validator.py:47-55 | the "0 bytes" / "whitespace only" errors appear iff the required file is present, of that kind and empty |
| Validator.StaticErrors | services/validator.py:38-102 | no README issue and no advisory index.html issue is ever an error; the licence error appears iff LICENSE exists and does not read as MIT; the `<html` / `<body` errors appear iff index.html exists and its lowered text lacks the tag |
| Validator.StaticWarnings | services/validator.py:67-109 | warnings are only README or advisory HTML kinds, each present exactly under its condition |
| Validator.ReadmeNeverAnError | services/validator.py:67-83 | replacing a non-empty README by any other non-empty README leaves the error list unchanged |
| Validator.StaticPassIff | services/validator.py:111-113 | the structural check passes iff all three files are present and non-empty, LICENSE reads as MIT and index.html has `<html` and `<body` |
| Validator.ValidateStaticFiles | services/validator.py:17-120 | the report's errors and warnings are the messages of those issues in order, `passed` iff no error, the file count and the fixed list of validated names |
| Validator.FirstClaimFrom | services/validator.py:188-361 | the first rule, from a position on, whose keywords the lowered check contains; no earlier rule claims it |
| Validator.RuleFor | services/validator.py:188-361 | the chosen rule claims the check and no earlier rule in the order licence, README, element id, bootstrap, arithmetic does; none is chosen iff no rule claims it |
| Validator.LicenseCheck | services/validator.py:189-212 | never unknown; passes iff LICENSE exists and its lowered text contains "mit" |
| Validator.ReadmeCheck | services/validator.py:215-250 | never unknown; passes iff README.md exists with a heading line, more than 200 characters and "##" |
| Validator.ElementIdCheck | services/validator.py:253-305 | unknown iff no quoted id can be extracted; fails without index.html; otherwise passes iff the HTML has `id`, optional spaces, `=`, optional spaces and the quoted id, case-insensitively |
| Validator.BootstrapCheck | services/validator.py:308-358 | never unknown; fails without index.html; otherwise passes iff a CDN marker is present and, when the lowered check contains "5", a version-5 marker too |
| Validator.VersionTestRedundant | services/validator.py:328 | the "bootstrap 5" alternative of the version test adds nothing to the "5" test |
| Validator.ArithmeticCheck | services/validator.py:361-411 | never unknown; passes iff the HTML and script text has an arithmetic operator together with a function pattern or a calculation keyword |
| Validator.WithoutStopwords | services/validator.py:422 | keeps exactly the words that are not stop words |
| Validator.WithoutStopwordsCounts | services/validator.py:422 | a stop word occurs zero times in the filtered list; any other word as often as in the input, so the filter keeps order and repetitions |
| Validator.WithoutStopwordsAppend | services/validator.py:422 | filtering a concatenation is the concatenation of the filtered parts |
| Validator.Keywords | services/validator.py:421-422 | every keyword is a non-stop word of at least four ASCII letters found in the lowered check, and every such maximal letter run of the check that is not a stop word is a keyword |
| Validator.KeywordsInOrder | services/validator.py:421-422 | the keywords are the leftmost match (unless a stop word) followed by the keywords of the rest of the check, so they come in the order the matches occur |
| Validator.CountFound | services/validator.py:425 | the count is the number of keyword positions whose keyword occurs in the text, each repetition counted, and is at most the number of keywords |
| Validator.FallbackCheck | services/validator.py:413-438 | an unclaimed check is always unknown; the "some keywords found" message appears iff index.html exists and at least half the keywords occur in it |
| Validator.ValidateSingleCheck | services/validator.py:164-438 | the result carries the check string it was given |
| Validator.VerdictFrom | services/validator.py:188-438 | trying the rules from a position on keeps the check string |
| Validator.VerdictFromFirstClaim | services/validator.py:188-411 | trying the rules in order yields the verdict of the first rule that claims the check |
| Validator.VerdictFromNoClaim | services/validator.py:413-438 | when no remaining rule claims the check, the fallback decides |
| Validator.SingleCheckDispatch | services/validator.py:188-438 | first match wins: the verdict is the chosen rule's, or the fallback's when no rule claims the check |
| Validator.SingleCheckVerdict | services/validator.py:300-305 | a check claimed by no rule is unknown whatever the files hold; unknown arises only then or from an element-id check without an extractable id |
| Validator.CountVerdict | services/validator.py:149-151 | a count of one verdict never exceeds the number of results |
| Validator.CountsPartition | services/validator.py:149-160 | passed + failed + unknown = number of results |
| Validator.CountZeroIffAbsent | services/validator.py:149-151 | a verdict's count is zero iff no result has it |
| Validator.AllPassIffNoOtherVerdict | services/validator.py:153 | no failures and no unknowns iff every result passed |
| Validator.CheckEach | services/validator.py:141-143 | one result per check, in input order, each the single-check verdict of that check and carrying it |
| Validator.ValidateAgainstChecks | services/validator.py:122-162 | one result per check in order; the three counts are the verdict tallies and add up to `total_checks`; `all_passed` iff every result passed |
| Patterns.FirstIdMatch | services/validator.py:256 | the leftmost position matching `id=['"]x['"]` with a non-empty quote-free x; none before it |
| Patterns.ExtractId | services/validator.py:256-259 | an id is extracted iff the check matches `id=['"]…['"]` somewhere; it is non-empty and quote-free, and it is the value at the leftmost match |
| Patterns.IdAfterPlainText | services/validator.py:256-259 | a check whose text before `id=` has no `=` yields exactly the quoted id |
| Patterns.ExtractIdExample | services/validator.py:256-259 | "Page has element with id='result'" yields "result" |
| Patterns.FirstWordMatch | services/validator.py:421 | the leftmost position, from a start on, where a maximal run of at least four ASCII letters begins; none before it |
| Patterns.WordsFrom | services/validator.py:421 | every word found has at least four ASCII letters and occurs in the text |
| Patterns.WordsFromFirstMatch | services/validator.py:421 | the words are the leftmost maximal run followed by the words after it, and none when there is no run (`re.findall` order) |
| Patterns.FirstWordMatchSkip | services/validator.py:421 | skipping positions where no run starts does not change the leftmost match |
| Patterns.WordsFromComplete | services/validator.py:421 | every maximal run of at least four letters after the start is among the words found |
| Patterns.HasHeadingLine | services/validator.py:78 | a heading line implies a `#` in the text; a text starting with "# " has a heading line |
| Patterns.HeadingExamples | services/validator.py:78 | a heading on a later line counts; "#Title" and a `#` inside a line do not |
| Patterns.HasIdAttr | services/validator.py:280-281 | an attribute match implies the lowered page contains the lowered id; a page holding `id="<id>"` verbatim matches |
| Patterns.IdAttrExample | services/validator.py:280-281 | `<p ID = 'Result'>` matches id "result": case and spaces around `=` are ignored |
| Patterns.HasFunctionDef | services/validator.py:377-379 | a `function name(` match implies "function" occurs in the code |
| Patterns.HasConstArrow | services/validator.py:377-379 | a `const name = (` match implies "const" occurs in the code |
| Patterns.FunctionPatternExamples | services/validator.py:377-379 | "function add(a, b)" and "const add = (a, b)" match; "function(a)" does not |
| Patterns.FencedBlock | services/llm_generator.py:597-599 | a found body starts right after the first occurrence of the opener, is followed by a closing fence and holds no fence (the shortest match); when the opener occurs but nothing is found, no fence follows its first occurrence |
| Patterns.FencedBlockEither | services/llm_generator.py:607-609 | no block when neither opener occurs; otherwise the block after whichever opener occurs first (`javascript` on a tie) |
| Patterns.DoctypeSpan | services/llm_generator.py:612-619 | a page is captured iff, lowered, `<!doctype html>` occurs with `</html>` at or after its end; it starts at the first doctype, occurs in the text and ends at the first `</html>` after it |
| Templates.MitLicense | services/llm_generator.py:623-647 | the licence starts with "MIT License" and a blank line, followed by "Copyright (c) <year> Student Project" |
| Templates.LicenseHead | services/llm_generator.py:626-628 | the licence text is "MIT License", a blank line, the copyright line, then the remaining lines |
| Templates.GenerateReadme | services/llm_generator.py:649-721 | the README starts with "# <task id>", a blank line, "## Project Summary", a blank line and the brief on its own line |
| Templates.MitLicenseRecognised | services/llm_generator.py:623-647 | the generated licence reads as MIT for the structural check and for the licence rule, and is not blank |
| Templates.FileLines | services/llm_generator.py:656-659 | one "- `name`" line per name, in order |
| Templates.FileListNames | services/llm_generator.py:656-659 | every file except README.md has its line, and every line names such a file |
| Templates.ReadmeListsFiles | services/llm_generator.py:656-671 | the generated README names every file except itself |
| Templates.ReadmeHead | services/llm_generator.py:661-665 | the README opens with the title line, a blank line and the summary heading |
| Templates.ReadmeBodyLong | services/llm_generator.py:661-721 | what follows the summary heading is longer than 200 characters |
| Templates.GeneratedReadmeProfessional | services/llm_generator.py:649-721 | the generated README has a heading line, "##" and more than 200 characters, so it passes the README rule and draws no length warning |
| Generator.NormalizeEscapes | services/llm_generator.py:546-550 | after the five replacements no backslash-n or backslash-t pair is left |
| Generator.OnlyQuoteTriggersSecondPass | services/llm_generator.py:552-558 | after the first pass, only a backslash-quote pair in the first 500 characters can trigger the `unicode_escape` pass |
| Generator.JsonSpan | services/llm_generator.py:529-533 | a candidate exists iff some `{` precedes some `}`; it occurs in the reply with no `{` before it and no `}` after it, so it runs from the first `{` to the last `}` |
| Generator.FilesObject | services/llm_generator.py:536-539 | a "files" field is used when present, the whole object otherwise |
| Generator.NormalizedFiles | services/llm_generator.py:543-566 | every string value is escape-normalised under its own name, and no name is added or lost |
| Generator.CodeBlocks | services/llm_generator.py:591-621 | html → index.html, css → style.css, javascript/js → script.js, each stripped; index.html exists iff the html block or, with no css or script block, the doctype page is found; with no block at all the doctype page is the only file |
| Generator.Blocks | services/llm_generator.py:596-619 | the block map holds exactly the blocks found; index.html is present iff the html block is, or the doctype page is with no css or script block, and then it is the only file |
| Generator.CodeBlocksFromReply | services/llm_generator.py:591-621 | every extracted file's content occurs in the reply |
| Generator.AttachmentContent | services/llm_generator.py:576-587 | only a `data:` URL with a comma yields content; the URL splits at its first comma; a `base64` header yields the decoded bytes when they decode and nothing otherwise; any other header yields the UTF-8 bytes of the payload |
| Generator.WithAttachments | services/llm_generator.py:575-587 | attachments add to the parsed files; a file no attachment names is unchanged |
| Generator.AttachmentNames | services/llm_generator.py:575-587 | a name is in the result iff it was parsed or some attachment with that name yields content; a parsed file whose attachments all yield nothing keeps its content |
| Generator.UsableAttachmentsStored | services/llm_generator.py:575-587 | every attachment that yields content is stored under its name |
| Generator.LastAttachmentWins | services/llm_generator.py:576-585 | of several decodable attachments with one name, the last one's content is kept |
| Generator.JsonReplyParsed | services/llm_generator.py:529-566 | a reply whose JSON parses to an object whose files are all strings gives those files, normalised, with the attachments on top |
| Generator.ParseReplyErrIff | services/llm_generator.py:529-566 | parsing fails exactly when the JSON parses but its "files" value is not an object or holds a value that is not a string |
| Generator.NonJsonReplyFallsBack | services/llm_generator.py:567-573 | a reply without parseable JSON is parsed as fenced code blocks |
| Generator.ExtractCodeBlocks | services/llm_generator.py:591-621 | the step-by-step fill equals the block extraction |
| Generator.FillBlocks | services/llm_generator.py:596-619 | filling the dictionary block by block gives the block map |
| Generator.NormalizeFiles | services/llm_generator.py:543-566 | rewriting values in a loop equals the normalised file set |
| Generator.AddAttachments | services/llm_generator.py:575-587 | the attachment loop equals adding the attachments in order |
| Generator.ParseResponse | services/llm_generator.py:519-589 | the parse equals the reply-parsing function |
| Generator.ParseReply | services/llm_generator.py:519-589 | an error arises only from a JSON candidate that parses; a parsed file set holds every attachment that yields content |
| Generator.CreateApp | services/llm_generator.py:72-110 | a failed model call is an error; a result holds the MIT licence for the given year and a README, and exactly the parsed names plus LICENSE and README.md |
| Generator.WithDocs | services/llm_generator.py:105-107 | LICENSE and README.md are always set, overwriting parsed ones; every other parsed file is kept |
| Generator.DocsPass | services/llm_generator.py:105-107 | a file set whose licence reads as MIT and whose README is professional draws no licence error or README warning and passes both rules |
| Generator.CreatedFilesDocsPass | services/llm_generator.py:72-110 | the round-1 file set passes the licence and README checks whatever the model returned |
| Generator.CreateNewApp | services/llm_generator.py:72-110 | round-1 generation: parse the reply, then add licence and README |
| Generator.AddDocs | services/llm_generator.py:105-107 | the two assignments give the documented file set |
| Generator.PreviewOf | services/llm_generator.py:138-142 | bytes are shown by size only; text by its first 3000 characters |
| Generator.Previews | services/llm_generator.py:136-142 | every existing file except LICENSE and README.md is previewed, and nothing else |
| Generator.Merge | services/llm_generator.py:185-198 | every existing file survives; the model's files win; README.md is regenerated; LICENSE is created only when neither side had it |
| Generator.UpdatedAppKeepsFiles | services/llm_generator.py:183-201 | an update loses no file, ends with README and LICENSE, keeps an existing licence the model did not replace and writes a README with no warnings |
| Generator.UpdateExistingApp | services/llm_generator.py:112-201 | copy, `update`, README and licence steps equal the merge |
| Generator.UpdateApp | services/llm_generator.py:112-201 | a failed model call is an error; a result holds exactly the existing names, the parsed names, LICENSE and README.md |
| Generator.GenerateApp | services/llm_generator.py:65-70 | the update path is taken iff the round is above 1 and existing files are non-empty |
| Generator.BucketOf | services/llm_generator.py:233-241 | a check goes to README.md iff it mentions "readme", else to index.html iff it mentions element, "id=" or bootstrap, else to "other" |
| Generator.InBucket | services/llm_generator.py:226-241 | a bucket holds exactly the failed checks classified into it |
| Generator.BucketsPartition | services/llm_generator.py:233-241 | each failed check lands in exactly one bucket |
| Generator.StripFences | services/llm_generator.py:309-311 | a reply not starting with a fence is kept; otherwise: a one-line reply becomes empty; when the last line starts with a fence, the text strictly between the first and the last newline is kept; otherwise everything after the first newline; what is kept occurs in the reply and is strictly shorter |
| Generator.FenceLinesDropped | services/llm_generator.py:309-311 | joining the lines after the first, without the last when it starts with a fence, gives exactly that text, which starts right after the first newline |
| Generator.FixReadme | services/llm_generator.py:265-318 | a failed model call keeps the current README; otherwise the result is the stripped reply with its fence lines removed |
| Generator.FixHtml | services/llm_generator.py:320-376 | a failed model call keeps the current page; otherwise the result is the page taken from the stripped reply |
| Generator.HtmlFromReply | services/llm_generator.py:359-369 | with an `html` fence whose block matches, the stripped block; with an `html` fence and no match, the reply whole; without an `html` fence, the reply with its fence lines removed |
| Generator.FixedFiles | services/llm_generator.py:203-263 | the fixed set holds the original names, plus README.md when a README check failed and index.html when a page check failed |
| Generator.FixesAreTargeted | services/llm_generator.py:221-263 | no failed checks: files unchanged; otherwise only README.md and index.html can change, each only when its bucket is non-empty |
| Generator.FixValidationFailures | services/llm_generator.py:203-263 | the bucket loop and the copy-and-overwrite equal the targeted fix |
| Pipeline.RepoName | main.py:145 | same length as the task id; every "." and "_" becomes "-", every other character is kept |
| Pipeline.RepoNameClean | main.py:145 | the name holds no "." and no "_", and a task id without them is used as it is |
| Pipeline.BuildAndDeploy | main.py:94-119 | accepted iff e-mail and secret both match; an e-mail mismatch is reported first, then a secret mismatch; acceptance names the task |
| Pipeline.HandleBuild | main.py:77-119 | the background task runs exactly when the request was accepted; a rejected request is untouched |
| Pipeline.AttachmentList | main.py:162 | `attachments or []` |
| Pipeline.Fetched | main.py:147-151 | existing files are fetched only for a round above 1; a raising fetch is an error |
| Pipeline.RoundAfterFetch | main.py:153-155 | the round changes only to 1, and only when a later round found no files |
| Pipeline.Prepared | main.py:144-166 | after fetch and generation the round is the request's or 1, and is 1 instead exactly when a later round's repository is empty |
| Pipeline.CallFor | main.py:169-181 | round 1 creates a repository, any other round updates it, under the derived name with the generated files |
| Pipeline.NotificationFrom | main.py:185-193 | the notification carries the request's e-mail, task and nonce, the post-fallback round and the deployment's three addresses; a coroutine cannot be read |
| Pipeline.Run | main.py:122-206 | with the deployment awaited: a completed task deployed the files generated for it, by the step its round selects, and sent those addresses with its own identity; every failure is an outcome |
| Pipeline.RunAsWritten | main.py:168-193 | the task as written leaves the same round in the request |
| Pipeline.AsWrittenNeverNotifies | main.py:171-206 | as written, every task ends in the catch-all, whatever the create, update and notify steps would do: no repository is created or updated and the evaluation server is never reached (a round above 1 still fetches the existing files first) |
| Pipeline.AwaitedDeploymentNotifies | main.py:168-198 | with the deployment awaited, successful generation and deployment always notify |
| Pipeline.EmptyRepositoryFallsBack | main.py:147-181 | a later round whose repository is empty runs exactly as round 1 |
| Pipeline.FirstRoundIgnoresFetch | main.py:147-151 | round 1 never looks at the repository host |
| Pipeline.ProcessTask | main.py:122-206 | the step sequence, with `round` reassigned in place, equals the awaited run |
| Pipeline.ProcessTaskAsWritten | main.py:122-206 | the step sequence as written equals the run as written |

## Left out

- Validator.ElementIdCheck: the BeautifulSoup branch (services/validator.py:267-278) is not modelled, because it is a foreign HTML parser. It can only turn a verdict into a pass, so with the parser installed an element found by the parser but missed by the regular expression passes in the source and fails in the model.
- `validate_deployed_page` (services/validator.py:440-556) is not modelled: it is a network fetch followed by HTML parsing.
- Strings.Lower: lowering is ASCII only. Python's `str.lower` also lowers non-ASCII letters. The same holds for `re.IGNORECASE`. `\w` and `\b` are taken as ASCII word characters, `\s` and `strip()` as Python's whitespace set.
- Generator.NormalizedFiles: a JSON value that is not a string is an error in the model. The source keeps numbers, lists and nested objects as they are, and these would reach later steps as non-text content.
- The language model is a function of the information in its prompt: the same prompt gets the same reply. The prompt wording, the system prompts and the sampling parameters are not modelled. The attachment previews built by `_build_prompt` and `_decode_attachment_preview` (services/llm_generator.py:466-517) are not modelled either.
- `json.loads`, base64 decoding, UTF-8 decoding with errors ignored, `unicode_escape` and `str(bytes)` are opaque functions in `Files.Codecs`.
- The year in the licence and the UTC timestamp in the README are arguments, not clock reads.
- Dictionaries are maps: the insertion order of keys in the returned file sets is not modelled. The only order the code relies on, the sorted file list in the README, is modelled.
- services/github_service.py is not part of this model: repository creation, file upload, Pages enablement and polling, and the 404 fallback inside `update_repository`. The model calls these through `Pipeline.Services`; an `Err` stands for a raised exception.
- services/notifier.py (the POST with sleep-based retries) is not part of this model. The model keeps only whether delivery succeeded.
- config.py, logging, the request-logging middleware, the health endpoints, `main()` and the two exception handlers (main.py:209-242) are not modelled. Models.ParseRequest models only the 422 rejection of a round below 1.
- Pipeline.HandleBuild: the background task runs after the response, in sequence. Scheduling and concurrency between tasks are not modelled.
- Pipeline.Run: the log messages on success and on failed notification (main.py:200-206) are reduced to the `delivered` flag of the outcome.

## Findings

| source | as written | input that shows it | evidently intended | confidence | as-written member | corrected member |
|---|---|---|---|---|---|---|
| main.py:171-190 | `create_and_deploy` and `update_repository` are `async def` but are called without `await`. `deployment` is therefore an unstarted coroutine, and `deployment["repo_url"]` raises `TypeError`, which the catch-all at main.py:205 swallows. | any accepted request whose generation succeeds, e.g. round 1 with a model reply that parses | await the deployment, read its record and notify the evaluation server | not executed; follows from Python's coroutine semantics | Pipeline.RunAsWritten | Pipeline.Run |

`Pipeline.AsWrittenNeverNotifies` proves that the code as written always ends in the catch-all, whatever repository creation, repository update and the evaluation server would do: no repository is created or updated and no notification is sent. Only the fetch of existing files for a round above 1 reaches the repository host. `Pipeline.AwaitedDeploymentNotifies` proves that the awaited version notifies whenever generation and deployment succeed. `Pipeline.ProcessTask` and `Pipeline.HandleBuild` use the corrected run.
