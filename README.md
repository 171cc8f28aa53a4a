# Bulk user-story sync for Jira, modelled in Dafny

`bulk_ops.py` keeps a CSV file of user stories in step with a Jira project.
Each record has a Summary, a Description and Acceptance Criteria. It may
also have an Issue ID, a Design Link and an Epic. The script reads the file
and checks each record:

- An invalid record is skipped.
- A valid record with a non-blank Issue ID updates that issue.
- A valid record with a blank Issue ID creates a new Story in project `NA`.
  The new key is then written back into the CSV file.

The script returns the keys it handled, in file order.

Before the Acceptance Criteria text is sent, it is reformatted:

- Escaped newlines (backslash, `n`) become real line breaks.
- Wiki bullets `*` become `- `.
- Each line is trimmed.

The model has six modules:

- `Wrappers` holds `Option`.
- `Text` holds Python's `strip`, `replace`, `split` and `join`, and the
  formatter.
- `Rows` holds the record and `validate_row`.
- `Fields` holds the two field dictionaries.
- `CsvRewrite` holds `update_csv_with_issue_id`.
- `Dispatch` holds `update_user_story`, `create_user_story` and
  `process_csv`.

Jira is not modelled. What it answers for each record is an input, one
`Option<string>` per record. For an update, `Some` means the issue was
fetched and updated. For a create, `Some(key)` is the new issue's key. The
file on disk is a `CsvFile` value (header and records). It is threaded
through the run because every create rewrites it.

How the code behaves:

- The loop walks the records read when the run began.
- Each write-back works on the file as it is on disk at that moment.
- The rewrite patches every record whose trimmed Issue ID is blank, not just
  the record that was created.

The script's own comments put the key into the created record only. See the
docstring at bulk_ops.py:50 ("for a created story") and the comment at
bulk_ops.py:105 ("for the row with empty Issue ID"). The code patches every
blank record instead. The model follows the code (`Run` with `perRow`
false). It also proves the intended behaviour, a write-back aimed at the
record's own index (`perRow` true), and records the difference under
Findings.

## Model

| member | source | states |
|---|---|---|
| Text.LStrip | bulk_ops.py:36 | `lstrip()` never lengthens the text (with LStripSuffix, the result is exactly the text after its leading whitespace) |
| Text.RStrip | bulk_ops.py:36 | `rstrip()` never lengthens the text (with RStripPrefix, the result is exactly the text before its trailing whitespace) |
| Text.Strip | bulk_ops.py:126 | `str.strip()`, as applied to Issue IDs, Summaries and criteria lines, never lengthens the text; StripSlice and StripTrimmed fix its result |
| Text.LStripSuffix | bulk_ops.py:36 | left trimming keeps a suffix, drops only whitespace and stops at the first non-whitespace character |
| Text.RStripPrefix | bulk_ops.py:36 | right trimming keeps a prefix, drops only whitespace and stops at the last non-whitespace character |
| Text.StripTrimmed | bulk_ops.py:46 | the result of `strip()` starts and ends with non-whitespace (or is empty) |
| Text.StripSlice | bulk_ops.py:46 | `strip()` returns a contiguous slice of its input with only whitespace on either side |
| Text.StripChars | bulk_ops.py:46 | `strip()` introduces no character |
| Text.StripEmptyIffAllSpace | bulk_ops.py:36 | `strip()` is empty exactly when the text is all whitespace, which is the Summary check of `validate_row` |
| Text.StripKeepsTrimmed | bulk_ops.py:46 | text without surrounding whitespace is its own `strip()` |
| Text.ReplaceStars | bulk_ops.py:46 | after the bullet conversion no `*` is left |
| Text.ReplaceStarsChar | bulk_ops.py:43-46 | a single `*` becomes `- ` and any other character is kept |
| Text.ReplaceStarsAppend | bulk_ops.py:43-46 | the conversion distributes over concatenation, so with ReplaceStarsChar every `*` becomes `- ` and every other character stays, in place |
| Text.ReplaceStarsWithoutStars | bulk_ops.py:46 | text without `*` is unchanged by the bullet conversion |
| Text.Join | bulk_ops.py:47 | the joined text starts with the first part |
| Text.Split | bulk_ops.py:45 | splitting always yields at least one piece, even for empty text |
| Text.JoinConsHead | bulk_ops.py:47 | a character prepended to the first part comes first in the join |
| Text.SplitJoin | bulk_ops.py:45 | joining the split pieces back with the escaped newline rebuilds the input |
| Text.SplitPiecesSepFree | bulk_ops.py:45 | no piece contains an escaped newline |
| Text.SplitCount | bulk_ops.py:45 | the number of pieces is the number of non-overlapping escaped newlines plus one |
| Text.SplitWithoutSep | bulk_ops.py:45 | text without an escaped newline splits into itself alone |
| Text.JoinAvoids | bulk_ops.py:47 | a character absent from the separator and from every part is absent from the join |
| Text.FormatLine | bulk_ops.py:46 | a formatted line holds no `*` |
| Text.FormatLineKeepsPlain | bulk_ops.py:46 | a trimmed line without `*` is already formatted |
| Text.FormatLines | bulk_ops.py:46 | the comprehension yields one line per piece |
| Text.FormatLinesAt | bulk_ops.py:46 | line `i` of the output is piece `i` formatted |
| Text.FormatLineStructure | bulk_ops.py:41-47 | the formatter emits escaped-newline count plus one lines, each the bullet-converted and trimmed piece of the input, and the pieces rebuild the input |
| Text.FormatAcceptanceCriteria | bulk_ops.py:41-47 | formatted Acceptance Criteria never contain a wiki bullet `*` |
| Text.FormatKeepsPlainText | bulk_ops.py:41-47 | plain text (no escaped newline, no `*`, trimmed) passes through unchanged |
| Text.SplitTailExample | bulk_ops.py:45 | `B\n*item` (escaped) splits into `B` and `*item` |
| Text.SplitExample | bulk_ops.py:45 | `A\nB\n*item` (escaped) splits into three pieces |
| Text.BulletReplaced | bulk_ops.py:46 | `*item` becomes `- item` |
| Text.BulletExample | bulk_ops.py:46 | the formatted line for `*item` is `- item` |
| Text.JoinExample | bulk_ops.py:47 | three lines join with real newlines |
| Text.FormatExample | bulk_ops.py:41-47 | `A\nB\n*item` with escaped newlines formats to three real lines, the last `- item` |
| Rows.IssueIdOf | bulk_ops.py:126 | `row.get("Issue ID", "").strip()`: a record without the column reads as blank |
| Rows.MissingFields | bulk_ops.py:30-32 | a column is listed exactly when it is required and absent or empty, and there are at most three |
| Rows.Missing | bulk_ops.py:32 | the comprehension keeps exactly the listed columns that are absent or empty |
| Rows.ValidateRow | bulk_ops.py:28-39 | a record is accepted exactly when Summary, Description and Acceptance Criteria are present and non-empty and Summary is not all whitespace |
| Fields.CreateFieldMap | bulk_ops.py:90-100 | the create dictionary has project `NA`, type Story, the record's Summary and Description, the formatted criteria, and Design Link / parent exactly when those cells are filled |
| Fields.CreateCore | bulk_ops.py:90-96 | the fixed part of the create dictionary, with neither optional key |
| Fields.UpdateFieldMap | bulk_ops.py:67-79 | the update dictionary has the record's Summary, Description and formatted criteria, and always a Design Link and parent, set to `None` when the cell is empty |
| Fields.BuildCreateFields | bulk_ops.py:90-100 | building the create dictionary step by step yields the create dictionary |
| Fields.BuildUpdateFields | bulk_ops.py:67-79 | building the update dictionary step by step yields the update dictionary |
| Fields.CreateFieldMapKeys | bulk_ops.py:90-100 | the create dictionary has the five fixed keys plus each optional key exactly when its cell is filled |
| Fields.UpdateFieldMapKeys | bulk_ops.py:67-79 | the update dictionary always has the same five keys |
| Fields.KeyIdsDistinct | bulk_ops.py:67-100 | the seven dictionary keys have pairwise different names, so no two entries of the script's dictionaries are merged |
| Fields.CreateAndUpdateAgree | bulk_ops.py:67-100 | create and update send the same value for every shared key; update adds, as `None`, only the optional keys create leaves out, and drops project and type |
| CsvRewrite.RewriteRow | bulk_ops.py:58-59 | a matching record carries the new key, a record that does not match is written as read, and no other cell changes |
| CsvRewrite.RewriteRows | bulk_ops.py:57-60 | the rewrite writes as many records as it reads |
| CsvRewrite.RewriteRowsAt | bulk_ops.py:57-60 | record `i` written is record `i` read, patched when it matches |
| CsvRewrite.RewriteRowsEffect | bulk_ops.py:57-60 | every matching record gets the new key, every other record is written unchanged, and no cell other than Issue ID changes |
| CsvRewrite.RewriteRowsPointwise | bulk_ops.py:57-60 | a sequence that agrees record by record with the rewrite is the rewrite |
| CsvRewrite.RewriteIssueId | bulk_ops.py:49-61 | a completed rewrite keeps the header and holds the rewritten records |
| CsvRewrite.UpdateCsvWithIssueId | bulk_ops.py:49-61 | the record-by-record loop produces exactly the rewritten file, or fails exactly when some record, after the patch, names a column outside the header |
| CsvRewrite.RewriteFailsIff | bulk_ops.py:54-60 | on a well-formed file the writer raises exactly when the header lacks Issue ID, the original value is blank and there is a record |
| CsvRewrite.RewriteKeepsWellFormed | bulk_ops.py:52-61 | a completed rewrite leaves every record with exactly the header's columns |
| CsvRewrite.NoMatchAfterRewrite | bulk_ops.py:57-59 | after rewriting to a key that does not trim to the original, no record matches the original |
| CsvRewrite.RewriteSettles | bulk_ops.py:57-60 | repeating the same rewrite changes nothing more |
| CsvRewrite.RewriteWithoutMatch | bulk_ops.py:57-60 | when no record matches, every record is written back unchanged |
| CsvRewrite.WriteBackRow | bulk_ops.py:105-108 | the intended write-back patches the Issue ID of the created record alone and leaves header, count and every other record as they were |
| Dispatch.UpdateUserStory | bulk_ops.py:63-86 | the update sends the update dictionary for the given Issue ID and returns that ID when the tracker succeeds, `None` when it fails |
| Dispatch.CreateUserStory | bulk_ops.py:88-112 | the create sends the create dictionary; on success a blank-ID record has the key written back, and a write-back that raises turns the call into `None` and leaves the file alone |
| Dispatch.ProcessCsv | bulk_ops.py:114-140 | the loop yields the keys and the file of the run as written, and issues one update or create request per valid record, in order |
| Dispatch.UpdateReportsId | bulk_ops.py:81-86 | `UpdateOutcome`: an update reports exactly when the tracker succeeded, and then reports the Issue ID it was given |
| Dispatch.CreateReportsTrackerKey | bulk_ops.py:102-112 | `CreateOutcome`: a create reports only the tracker's key, a create that reports nothing leaves the file alone, and a record that already has an Issue ID is never written back |
| Dispatch.CollectAppends | bulk_ops.py:131-132 | `Collect`: the list keeps what it had and grows by the result exactly when the result is truthy |
| Dispatch.StepEffect | bulk_ops.py:122-132 | `Step`: one pass keeps what was reported and adds at most one key, an invalid record changes nothing, and a record with an Issue ID leaves the file alone |
| Dispatch.RunReportsAtMost | bulk_ops.py:120-132 | `Run`: after `n` records at most `n` keys have been reported |
| Dispatch.RequestFor | bulk_ops.py:123-130 | an invalid record sends nothing; a valid one sends exactly one request, an update exactly when its trimmed Issue ID is non-blank |
| Dispatch.Requests | bulk_ops.py:122-130 | a run sends at most one request per record |
| Dispatch.RequestsPrefix | bulk_ops.py:122-130 | the requests for a prefix extend by the request of the next record |
| Dispatch.StepDisk | bulk_ops.py:122-130 | only a valid record with a blank Issue ID can change the file, through its create |
| Dispatch.CreateKeepsShape | bulk_ops.py:102-112 | a create keeps the header and the number of records and changes no cell other than Issue ID |
| Dispatch.CreateKeepsOtherRows | bulk_ops.py:105-108 | a create leaves every record with a non-blank Issue ID unchanged; aimed at one record, it leaves all the others unchanged |
| Dispatch.CreateKeepsWellFormed | bulk_ops.py:105-108 | a create keeps a well-formed file well formed |
| Dispatch.RunKeepsLayout | bulk_ops.py:114-140 | at every point of the run the file keeps its header and number of records, and stays well formed |
| Dispatch.RunKeepsCells | bulk_ops.py:114-140 | at every point of the run no cell other than Issue ID has changed, and records that had an Issue ID are untouched |
| Dispatch.StepProcessed | bulk_ops.py:126-132 | when the create does not fail at write-back, one pass appends exactly the record's truthy result |
| Dispatch.CreateSucceeds | bulk_ops.py:102-109 | on a well-formed file with an Issue ID column a successful create always reports the tracker's key |
| Dispatch.ResultsPrefix | bulk_ops.py:131-132 | the results for a prefix extend by the result of the next record |
| Dispatch.RunProcessed | bulk_ops.py:114-140 | the returned list is, in file order, the Issue ID of each valid record updated and the non-empty key of each valid record created |
| Dispatch.NoIssueIdColumn | bulk_ops.py:106-112 | without an Issue ID column every create fails at write-back after the issue is made, nothing is reported and the file is unchanged |
| Dispatch.CreateFillsBlanks | bulk_ops.py:106-108 | as written, a successful create fills every blank Issue ID of the file with its key |
| Dispatch.FillBlanksSettles | bulk_ops.py:57-60 | once blanks are filled with a non-blank key, a later create's rewrite changes nothing |
| Dispatch.BlankRowsShareFirstKey | bulk_ops.py:106-108 | as written, the file after the run is the original with every blank Issue ID set to the first created key, or unchanged if nothing was created |
| Dispatch.FirstCreatedKeyIsOutcome | bulk_ops.py:103 | the first created key is one of the tracker's answers |
| Dispatch.EveryBlankRowGetsFirstKey | bulk_ops.py:106-108 | as written, every record whose Issue ID was blank ends up holding the first created key |
| Dispatch.CreateOwnRow | bulk_ops.py:105-108 | the intended create patches only its own record's Issue ID |
| Dispatch.OwnRowWriteBack | bulk_ops.py:105-108 | as intended, each created record holds its own key and every other record is unchanged |
| Dispatch.OwnRowStep | bulk_ops.py:105-108 | one pass of the intended run keeps every record as the intended write-back leaves it |
| Dispatch.ModesAgreeOnReports | bulk_ops.py:131-132 | the intended write-back reports exactly the same keys as the code as written |
| Dispatch.BothKeysReported | bulk_ops.py:122-132 | two new stories created in one run are both reported, in order |
| Dispatch.FirstOfTwoCreated | bulk_ops.py:106-108 | when both records are new stories, the first key created is the first record's |
| Dispatch.TwoResults | bulk_ops.py:131-132 | two valid new stories created with non-empty keys contribute both keys, in order |
| Dispatch.ResultsOfTwo | bulk_ops.py:131-132 | two records contribute their results one after the other |
| Dispatch.NewStoryResult | bulk_ops.py:109 | a valid new story created with a non-empty key contributes that key |
| Dispatch.SecondKeyLost | bulk_ops.py:106-108 | as written, after two new stories are created both records hold the first key |
| Dispatch.SecondKeyKept | bulk_ops.py:105-108 | as intended, the two records hold the first and the second key respectively |

## Left out

- The Jira client (`connect_to_jira`, `jira.issue`, `issue.update`, `jira.create_issue`). Each record's answer is an input. The update's fields are not applied to any issue model.
- Environment loading, `main`, console output and `sys.exit`. These are I/O outside the logic. The `except` clauses of `process_csv` that exit on a missing or unreadable file are not modelled.
- CSV parsing and quoting, encodings, the temporary file and `os.replace`. The file is a header plus records. A written file reads back exactly as written.
- The run assumes `os.replace` (bulk_ops.py:61) succeeds while `process_csv` still holds the file open (bulk_ops.py:120), as POSIX rename allows. Where replacing an open file raises (on Windows), bulk_ops.py:110-112 would catch it, every blank-ID create would report `None` and the file would stay unchanged. The model does not capture that case, and the Findings row depends on this assumption.
- Records `csv.DictReader` would pad with `None` or give an overflow key. The lemmas about the run assume a well-formed file, where each record has exactly the header's columns.
- Exceptions other than the writer's refusal of an unknown column. Examples are a missing required column in `create_user_story` and a file that cannot be opened during the rewrite.
- `update_csv_with_issue_id`'s third argument. The function never reads it.
- Dispatch.ProcessCsv: requires one tracker answer per record. Answers for invalid records are ignored. The update request is recorded even when fetching the issue would fail before the update is built.
- Dispatch.RunProcessed: requires a well-formed file with an Issue ID column. Without that column, Dispatch.NoIssueIdColumn gives the behaviour.
- Dispatch.BlankRowsShareFirstKey: requires that no tracker key trims to empty. Real Jira keys never do.
- Dispatch.ModesAgreeOnReports: compares only the reported keys. The requests do not depend on the write-back mode.

## Findings

| source | as written | input that shows it | evidently intended | confidence | as-written member | corrected member |
|---|---|---|---|---|---|---|
| bulk_ops.py:57-60 | the write-back after a create rewrites every record whose trimmed Issue ID is blank, and later creates find no blank record left | a file with two valid records, both with a blank Issue ID, and a tracker that returns `NA-1` then `NA-2`: both records end up holding `NA-1`, and `NA-2` is recorded nowhere | each created key is written into the record it was created from | not executed | Dispatch.SecondKeyLost | Dispatch.SecondKeyKept |
