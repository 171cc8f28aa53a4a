/**
 * `process_csv` and the two per-record operations it routes to. The issue
 * tracker is not modelled: what it answers for each record is an input,
 * one `Option<string>` per record of the file. For a record that is
 * updated, `Some(_)` means the issue was fetched and updated; for a record
 * that is created, `Some(key)` is the key the tracker assigned.
 *
 * The loop reads the records of the file as it was when the run began,
 * while each successful create rewrites the file as it is on disk now.
 */
module Dispatch {
  import opened Wrappers
  import opened Text
  import opened Rows
  import opened Fields
  import opened CsvRewrite

  /** The request a valid record leads to. */
  datatype Request = UpdateRequest(issueId: string, fields: FieldMap) | CreateRequest(fields: FieldMap)

  /**
   * Where a created key is written: into every record whose Issue ID is
   * still blank (the code as written), or into the record at `index` only.
   */
  datatype WriteBack = AllMatching | OnlyRow(index: nat)

  /** What `create_user_story` returns, and the file on disk afterwards. */
  datatype Created = Created(result: Option<string>, disk: CsvFile)

  /** Keys reported so far, and the file on disk. */
  datatype State = State(processed: seq<string>, disk: CsvFile)

  /** `update_user_story`'s result: the Issue ID it was given, or `None` when the tracker failed. */
  function UpdateOutcome(issueId: string, outcome: Option<string>): Option<string> {
    if outcome.Some? then Some(issueId) else None
  }

  /**
   * `create_user_story`'s result. On success the key is recorded in the
   * file when the record's own Issue ID was blank; a write-back that raises
   * turns the whole call into a failure and leaves the file alone.
   */
  function CreateOutcome(row: Row, outcome: Option<string>, disk: CsvFile, target: WriteBack): Created {
    match outcome
    case None => Created(None, disk)
    case Some(key) =>
      var original := IssueIdOf(row);
      if original != "" then Created(Some(key), disk)
      else
        var written := match target
          case AllMatching => RewriteIssueId(disk, original, key)
          case OnlyRow(index) => WriteBackRow(disk, index, key);
        match written
        case None => Created(None, disk)
        case Some(d) => Created(Some(key), d)
  }

  /** `if result: processed_issues.append(result)`: `None` and `""` are not reported. */
  function Collect(processed: seq<string>, result: Option<string>): seq<string> {
    if result.Some? && result.value != "" then processed + [result.value] else processed
  }

  /** One pass of the loop of `process_csv` over `row`. */
  function Step(s: State, row: Row, outcome: Option<string>, target: WriteBack): State {
    if !ValidateRow(row) then s
    else
      var issueId := IssueIdOf(row);
      if issueId != "" then
        State(Collect(s.processed, UpdateOutcome(issueId, outcome)), s.disk)
      else
        var c := CreateOutcome(row, outcome, s.disk, target);
        State(Collect(s.processed, c.result), c.disk)
  }

  /**
   * The state after the first `n` records of `file`, with the write-back
   * as written (`perRow` false) or as intended (`perRow` true).
   */
  function Run(file: CsvFile, outcomes: seq<Option<string>>, perRow: bool, n: nat): State
    requires |outcomes| == |file.rows| && n <= |file.rows|
  {
    if n == 0 then State([], file)
    else
      var target := if perRow then OnlyRow(n - 1) else AllMatching;
      Step(Run(file, outcomes, perRow, n - 1), file.rows[n - 1], outcomes[n - 1], target)
  }

  /** `update_user_story`: builds the update dictionary and reports the tracker's answer. */
  method UpdateUserStory(issueId: string, row: Row, outcome: Option<string>)
    returns (result: Option<string>, request: Request)
    requires HasCoreColumns(row)
    ensures result == UpdateOutcome(issueId, outcome)
    ensures request == UpdateRequest(issueId, UpdateFieldMap(row))
  {
    var fields := BuildUpdateFields(row);
    request := UpdateRequest(issueId, fields);
    if outcome.Some? {
      result := Some(issueId);
    } else {
      result := None;
    }
  }

  /** `create_user_story`: builds the create dictionary, and on success records the key in the file. */
  method CreateUserStory(row: Row, outcome: Option<string>, disk: CsvFile)
    returns (result: Option<string>, request: Request, after: CsvFile)
    requires HasCoreColumns(row)
    ensures Created(result, after) == CreateOutcome(row, outcome, disk, AllMatching)
    ensures request == CreateRequest(CreateFieldMap(row))
  {
    var fields := BuildCreateFields(row);
    request := CreateRequest(fields);
    result, after := None, disk;
    if outcome.Some? {
      var key := outcome.value;
      var original := Strip(Get(row, IssueIdColumn, ""));
      if original == "" {
        var written := UpdateCsvWithIssueId(disk, original, key);
        if written.Some? {
          result, after := Some(key), written.value;
        }
      } else {
        result := Some(key);
      }
    }
  }

  /**
   * `process_csv`: walks the records read at the start, skips the invalid
   * ones, routes each valid one by its trimmed Issue ID and collects the
   * truthy results in order.
   */
  method ProcessCsv(file: CsvFile, outcomes: seq<Option<string>>)
    returns (processed: seq<string>, requests: seq<Request>, disk: CsvFile)
    requires |outcomes| == |file.rows|
    ensures State(processed, disk) == Run(file, outcomes, false, |file.rows|)
    ensures requests == Requests(file.rows)
  {
    processed, requests, disk := [], [], file;
    var i := 0;
    while i < |file.rows|
      invariant 0 <= i <= |file.rows|
      invariant State(processed, disk) == Run(file, outcomes, false, i)
      invariant requests == Requests(file.rows[..i])
    {
      RequestsPrefix(file.rows, i + 1);
      var row := file.rows[i];
      if ValidateRow(row) {
        var issueId := Strip(Get(row, IssueIdColumn, ""));
        var result: Option<string>;
        var request: Request;
        if issueId != "" {
          result, request := UpdateUserStory(issueId, row, outcomes[i]);
        } else {
          result, request, disk := CreateUserStory(row, outcomes[i], disk);
        }
        requests := requests + [request];
        if result.Some? && result.value != "" {
          processed := processed + [result.value];
        }
      }
      i := i + 1;
    }
    assert file.rows[..i] == file.rows;
  }

  // ---------------------------------------------------------------------
  // One record at a time

  /** An update reports exactly when the tracker succeeded, and then it reports the Issue ID it was given. */
  lemma UpdateReportsId(issueId: string, outcome: Option<string>)
    ensures UpdateOutcome(issueId, outcome).Some? <==> outcome.Some?
    ensures UpdateOutcome(issueId, outcome).Some? ==> UpdateOutcome(issueId, outcome).value == issueId
  {
  }

  /**
   * A create reports only the tracker's own key; when it reports nothing
   * the file is untouched; and a record that already had an Issue ID never
   * leads to a write-back.
   */
  lemma CreateReportsTrackerKey(row: Row, outcome: Option<string>, disk: CsvFile, target: WriteBack)
    ensures CreateOutcome(row, outcome, disk, target).result.Some? ==>
      CreateOutcome(row, outcome, disk, target).result == outcome
    ensures CreateOutcome(row, outcome, disk, target).result.None? ==>
      CreateOutcome(row, outcome, disk, target).disk == disk
    ensures IssueIdOf(row) != "" ==> CreateOutcome(row, outcome, disk, target) == Created(outcome, disk)
  {
  }

  /** Collecting keeps what was reported and adds at most one key: the result, exactly when it is truthy. */
  lemma CollectAppends(processed: seq<string>, result: Option<string>)
    ensures processed <= Collect(processed, result) && |Collect(processed, result)| <= |processed| + 1
    ensures |Collect(processed, result)| == |processed| + 1 <==> result.Some? && result.value != ""
    ensures |Collect(processed, result)| == |processed| + 1 ==> Collect(processed, result)[|processed|] == result.value
  {
  }

  /**
   * One pass keeps what was reported and adds at most one key; an invalid
   * record changes nothing, and a record with an Issue ID leaves the file
   * alone.
   */
  lemma StepEffect(s: State, row: Row, outcome: Option<string>, target: WriteBack)
    ensures s.processed <= Step(s, row, outcome, target).processed
    ensures |Step(s, row, outcome, target).processed| <= |s.processed| + 1
    ensures !ValidateRow(row) ==> Step(s, row, outcome, target) == s
    ensures IssueIdOf(row) != "" ==> Step(s, row, outcome, target).disk == s.disk
  {
    if ValidateRow(row) {
      if IssueIdOf(row) != "" {
        CollectAppends(s.processed, UpdateOutcome(IssueIdOf(row), outcome));
      } else {
        CollectAppends(s.processed, CreateOutcome(row, outcome, s.disk, target).result);
      }
    }
  }

  /** After `n` records at most `n` keys have been reported. */
  lemma {:induction false} RunReportsAtMost(file: CsvFile, outcomes: seq<Option<string>>, perRow: bool, n: nat)
    requires |outcomes| == |file.rows| && n <= |file.rows|
    ensures |Run(file, outcomes, perRow, n).processed| <= n
  {
    if n > 0 {
      RunReportsAtMost(file, outcomes, perRow, n - 1);
      var s := Run(file, outcomes, perRow, n - 1);
      var target := if perRow then OnlyRow(n - 1) else AllMatching;
      StepEffect(s, file.rows[n - 1], outcomes[n - 1], target);
      assert Run(file, outcomes, perRow, n) == Step(s, file.rows[n - 1], outcomes[n - 1], target);
    }
  }

  // ---------------------------------------------------------------------
  // Routing

  /** The request a single record calls for: none when invalid, else update or create by its Issue ID. */
  function RequestFor(row: Row): (r: seq<Request>)
    ensures |r| <= 1 && (|r| == 1 <==> ValidateRow(row))
    ensures |r| == 1 ==> (r[0].UpdateRequest? <==> IssueIdOf(row) != "")
  {
    if !ValidateRow(row) then []
    else if IssueIdOf(row) != "" then [UpdateRequest(IssueIdOf(row), UpdateFieldMap(row))]
    else [CreateRequest(CreateFieldMap(row))]
  }

  /** The requests a list of records calls for, in order. */
  function Requests(rows: seq<Row>): (r: seq<Request>)
    ensures |r| <= |rows|
  {
    if rows == [] then [] else Requests(rows[..|rows| - 1]) + RequestFor(rows[|rows| - 1])
  }

  /** The requests for the first `n` records extend those for the first `n - 1` by the request of record `n - 1`. */
  lemma RequestsPrefix(rows: seq<Row>, n: nat)
    requires 0 < n <= |rows|
    ensures Requests(rows[..n]) == Requests(rows[..n - 1]) + RequestFor(rows[n - 1])
  {
    assert rows[..n][..n - 1] == rows[..n - 1];
  }

  // ---------------------------------------------------------------------
  // The file on disk

  /** Only a valid record with a blank Issue ID can change the file, through its create. */
  lemma StepDisk(s: State, row: Row, outcome: Option<string>, target: WriteBack)
    ensures Step(s, row, outcome, target).disk ==
      if ValidateRow(row) && IssueIdOf(row) == "" then CreateOutcome(row, outcome, s.disk, target).disk else s.disk
  {
  }

  /** A create keeps the header and the records, changing at most their Issue ID cells. */
  lemma CreateKeepsShape(row: Row, outcome: Option<string>, disk: CsvFile, target: WriteBack)
    ensures CreateOutcome(row, outcome, disk, target).disk.header == disk.header
    ensures |CreateOutcome(row, outcome, disk, target).disk.rows| == |disk.rows|
    ensures forall i :: 0 <= i < |disk.rows| ==>
      SameExceptIssueId(disk.rows[i], CreateOutcome(row, outcome, disk, target).disk.rows[i])
  {
    var after := CreateOutcome(row, outcome, disk, target).disk;
    if after != disk && target == AllMatching {
      RewriteRowsEffect(disk.rows, "", outcome.value);
    }
    if after != disk && target.OnlyRow? {
      var key := outcome.value;
      assert WriteBackRow(disk, target.index, key).Some?;
      forall i | 0 <= i < |disk.rows|
        ensures SameExceptIssueId(disk.rows[i], after.rows[i])
      {
        if i != target.index {
          assert after.rows[i] == disk.rows[i];
        }
      }
    }
  }

  /**
   * As written, a create leaves alone every record whose Issue ID is not
   * blank; with the intended write-back, every record but its own.
   */
  lemma CreateKeepsOtherRows(row: Row, outcome: Option<string>, disk: CsvFile, target: WriteBack)
    ensures target == AllMatching ==> forall i :: 0 <= i < |disk.rows| && IssueIdOf(disk.rows[i]) != "" ==>
      i < |CreateOutcome(row, outcome, disk, target).disk.rows| &&
      CreateOutcome(row, outcome, disk, target).disk.rows[i] == disk.rows[i]
    ensures target.OnlyRow? ==> forall i :: 0 <= i < |disk.rows| && i != target.index ==>
      i < |CreateOutcome(row, outcome, disk, target).disk.rows| &&
      CreateOutcome(row, outcome, disk, target).disk.rows[i] == disk.rows[i]
  {
    var after := CreateOutcome(row, outcome, disk, target).disk;
    if after != disk {
      var key := outcome.value;
      if target.OnlyRow? {
        assert WriteBackRow(disk, target.index, key).Some?;
      } else {
        assert RewriteIssueId(disk, "", key).Some?;
        RewriteRowsEffect(disk.rows, "", key);
      }
    }
  }

  /** A create keeps a well-formed file well formed. */
  lemma CreateKeepsWellFormed(row: Row, outcome: Option<string>, disk: CsvFile, target: WriteBack)
    requires WellFormed(disk)
    ensures WellFormed(CreateOutcome(row, outcome, disk, target).disk)
  {
    var after := CreateOutcome(row, outcome, disk, target).disk;
    if after != disk {
      var key := outcome.value;
      if target.OnlyRow? {
        assert WriteBackRow(disk, target.index, key).Some?;
        forall i | 0 <= i < |after.rows|
          ensures after.rows[i].Keys == HeaderSet(after.header)
        {
          if i == target.index {
            assert after.rows[i].Keys == disk.rows[i].Keys + {IssueIdColumn};
          } else {
            assert after.rows[i] == disk.rows[i];
          }
        }
      } else {
        RewriteKeepsWellFormed(disk, "", key);
      }
    }
  }

  /**
   * Through any prefix of the run, in either write-back mode, the file keeps
   * its header and its number of records, and a well-formed file stays well
   * formed.
   */
  lemma {:induction false} RunKeepsLayout(file: CsvFile, outcomes: seq<Option<string>>, perRow: bool, n: nat)
    requires |outcomes| == |file.rows| && n <= |file.rows|
    ensures Run(file, outcomes, perRow, n).disk.header == file.header
    ensures |Run(file, outcomes, perRow, n).disk.rows| == |file.rows|
    ensures WellFormed(file) ==> WellFormed(Run(file, outcomes, perRow, n).disk)
  {
    if n > 0 {
      RunKeepsLayout(file, outcomes, perRow, n - 1);
      var before := Run(file, outcomes, perRow, n - 1).disk;
      var row := file.rows[n - 1];
      var target := if perRow then OnlyRow(n - 1) else AllMatching;
      StepDisk(Run(file, outcomes, perRow, n - 1), row, outcomes[n - 1], target);
      if ValidateRow(row) && IssueIdOf(row) == "" {
        CreateKeepsShape(row, outcomes[n - 1], before, target);
        if WellFormed(file) {
          CreateKeepsWellFormed(row, outcomes[n - 1], before, target);
        }
      }
    }
  }

  /**
   * Through any prefix of the run, in either write-back mode, no cell other
   * than Issue ID changes, and a record whose Issue ID was not blank is
   * untouched.
   */
  lemma {:induction false} RunKeepsCells(file: CsvFile, outcomes: seq<Option<string>>, perRow: bool, n: nat)
    requires |outcomes| == |file.rows| && n <= |file.rows|
    ensures |Run(file, outcomes, perRow, n).disk.rows| == |file.rows|
    ensures forall i :: 0 <= i < |file.rows| ==>
      SameExceptIssueId(file.rows[i], Run(file, outcomes, perRow, n).disk.rows[i])
    ensures forall i :: 0 <= i < |file.rows| && IssueIdOf(file.rows[i]) != "" ==>
      Run(file, outcomes, perRow, n).disk.rows[i] == file.rows[i]
  {
    RunKeepsLayout(file, outcomes, perRow, n);
    if n > 0 {
      RunKeepsCells(file, outcomes, perRow, n - 1);
      var before := Run(file, outcomes, perRow, n - 1).disk;
      var row := file.rows[n - 1];
      var target := if perRow then OnlyRow(n - 1) else AllMatching;
      StepDisk(Run(file, outcomes, perRow, n - 1), row, outcomes[n - 1], target);
      var after := Run(file, outcomes, perRow, n).disk;
      if ValidateRow(row) && IssueIdOf(row) == "" {
        CreateKeepsShape(row, outcomes[n - 1], before, target);
        CreateKeepsOtherRows(row, outcomes[n - 1], before, target);
        forall i | 0 <= i < |file.rows|
          ensures SameExceptIssueId(file.rows[i], after.rows[i])
        {
          assert SameExceptIssueId(file.rows[i], before.rows[i]);
          assert SameExceptIssueId(before.rows[i], after.rows[i]);
        }
      }
    }
  }

  // ---------------------------------------------------------------------
  // Reported keys

  /** What one record contributes to `processed_issues` when the write-back cannot fail. */
  function ResultFor(row: Row, outcome: Option<string>): seq<string> {
    if !ValidateRow(row) || outcome.None? then []
    else if IssueIdOf(row) != "" then [IssueIdOf(row)]
    else if outcome.value != "" then [outcome.value]
    else []
  }

  /** The truthy results of a list of records, in order. */
  function Results(rows: seq<Row>, outcomes: seq<Option<string>>): seq<string>
    requires |rows| == |outcomes|
  {
    if rows == [] then []
    else Results(rows[..|rows| - 1], outcomes[..|rows| - 1]) + ResultFor(rows[|rows| - 1], outcomes[|rows| - 1])
  }

  /** When the create does not fail at write-back, one pass adds exactly the record's truthy result. */
  lemma StepProcessed(s: State, row: Row, outcome: Option<string>, target: WriteBack)
    requires ValidateRow(row) && IssueIdOf(row) == "" && outcome.Some? ==>
      CreateOutcome(row, outcome, s.disk, target).result == outcome
    ensures Step(s, row, outcome, target).processed == s.processed + ResultFor(row, outcome)
  {
  }

  /**
   * On a well-formed file with an Issue ID column the write-back of a
   * blank record never raises, so its create reports the tracker's key.
   */
  lemma CreateSucceeds(row: Row, key: string, disk: CsvFile, target: WriteBack)
    requires WellFormed(disk) && IssueIdColumn in disk.header && IssueIdOf(row) == ""
    requires target.OnlyRow? ==> target.index < |disk.rows|
    ensures CreateOutcome(row, Some(key), disk, target).result == Some(key)
  {
    if target.OnlyRow? {
      assert disk.rows[target.index].Keys == HeaderSet(disk.header);
      assert WriteBackRow(disk, target.index, key).Some?;
    } else {
      RewriteFailsIff(disk, "", key);
    }
  }

  /** The results for the first `n` records extend those for the first `n - 1` by the result of record `n - 1`. */
  lemma ResultsPrefix(rows: seq<Row>, outcomes: seq<Option<string>>, n: nat)
    requires |rows| == |outcomes| && 0 < n <= |rows|
    ensures Results(rows[..n], outcomes[..n]) ==
      Results(rows[..n - 1], outcomes[..n - 1]) + ResultFor(rows[n - 1], outcomes[n - 1])
  {
    assert rows[..n][..n - 1] == rows[..n - 1];
    assert outcomes[..n][..n - 1] == outcomes[..n - 1];
  }

  /**
   * On a well-formed file with an Issue ID column, the processed list is
   * the in-order list of truthy results: the Issue ID of each valid record
   * the tracker updated and the non-empty key of each valid record it
   * created; invalid records and failures contribute nothing.
   */
  lemma {:induction false} RunProcessed(file: CsvFile, outcomes: seq<Option<string>>, perRow: bool, n: nat)
    requires |outcomes| == |file.rows| && n <= |file.rows|
    requires WellFormed(file) && IssueIdColumn in file.header
    ensures Run(file, outcomes, perRow, n).processed == Results(file.rows[..n], outcomes[..n])
  {
    if n > 0 {
      RunProcessed(file, outcomes, perRow, n - 1);
      RunKeepsLayout(file, outcomes, perRow, n - 1);
      var s := Run(file, outcomes, perRow, n - 1);
      var row := file.rows[n - 1];
      var target := if perRow then OnlyRow(n - 1) else AllMatching;
      assert WellFormed(s.disk) && s.disk.header == file.header && |s.disk.rows| == |file.rows|;
      if ValidateRow(row) && IssueIdOf(row) == "" && outcomes[n - 1].Some? {
        CreateSucceeds(row, outcomes[n - 1].value, s.disk, target);
      }
      StepProcessed(s, row, outcomes[n - 1], target);
      ResultsPrefix(file.rows, outcomes, n);
    }
  }

  /**
   * Without an Issue ID column every create fails after the tracker has
   * made the issue: the write-back raises, nothing is reported for the
   * record and the file is not changed.
   */
  lemma {:induction false} NoIssueIdColumn(file: CsvFile, outcomes: seq<Option<string>>, n: nat)
    requires |outcomes| == |file.rows| && n <= |file.rows|
    requires WellFormed(file) && IssueIdColumn !in file.header
    ensures Run(file, outcomes, false, n).disk == file
    ensures forall i :: 0 <= i < n && ValidateRow(file.rows[i]) ==> IssueIdOf(file.rows[i]) == ""
    ensures Run(file, outcomes, false, n).processed == []
  {
    if n > 0 {
      NoIssueIdColumn(file, outcomes, n - 1);
      var row := file.rows[n - 1];
      assert IssueIdColumn !in row;
      assert IssueIdOf(row) == "";
      if ValidateRow(row) && outcomes[n - 1].Some? {
        RewriteFailsIff(file, "", outcomes[n - 1].value);
      }
    }
  }

  // ---------------------------------------------------------------------
  // Where created keys end up

  /** The key of the first record that was created, if any. */
  function FirstCreatedKey(file: CsvFile, outcomes: seq<Option<string>>, n: nat): Option<string>
    requires |outcomes| == |file.rows| && n <= |file.rows|
  {
    if n == 0 then None
    else
      var earlier := FirstCreatedKey(file, outcomes, n - 1);
      var row := file.rows[n - 1];
      if earlier.Some? then earlier
      else if ValidateRow(row) && IssueIdOf(row) == "" then outcomes[n - 1]
      else None
  }

  /** The file with every blank Issue ID replaced by `key`. */
  function FillBlanks(file: CsvFile, key: string): CsvFile {
    CsvFile(file.header, RewriteRows(file.rows, "", key))
  }

  /** Every key the tracker returns is non-blank, as tracker keys are. */
  predicate KeysNonBlank(outcomes: seq<Option<string>>) {
    forall i :: 0 <= i < |outcomes| && outcomes[i].Some? ==> Strip(outcomes[i].value) != ""
  }

  /** As written, a successful create on a well-formed file fills every blank Issue ID with its key. */
  lemma CreateFillsBlanks(row: Row, key: string, disk: CsvFile)
    requires WellFormed(disk) && IssueIdColumn in disk.header && IssueIdOf(row) == ""
    ensures CreateOutcome(row, Some(key), disk, AllMatching).disk == FillBlanks(disk, key)
  {
    RewriteFailsIff(disk, "", key);
  }

  /** Once the blanks are filled with a non-blank key, filling them again changes nothing. */
  lemma FillBlanksSettles(file: CsvFile, first: string, later: string)
    requires WellFormed(file) && IssueIdColumn in file.header && Strip(first) != ""
    ensures FillBlanks(FillBlanks(file, first), later) == FillBlanks(file, first)
  {
    RewriteFailsIff(file, "", first);
    NoMatchAfterRewrite(file, "", first);
    RewriteWithoutMatch(FillBlanks(file, first).rows, "", later);
  }

  /**
   * As written: the first successful create writes its key into every
   * record whose Issue ID is blank, valid or not; later creates find no
   * blank record and leave the file as it is, though their keys are still
   * reported.
   */
  lemma {:induction false} BlankRowsShareFirstKey(file: CsvFile, outcomes: seq<Option<string>>, n: nat)
    requires |outcomes| == |file.rows| && n <= |file.rows|
    requires WellFormed(file) && IssueIdColumn in file.header && KeysNonBlank(outcomes)
    ensures Run(file, outcomes, false, n).disk ==
      match FirstCreatedKey(file, outcomes, n)
      case None => file
      case Some(key) => FillBlanks(file, key)
  {
    if n > 0 {
      BlankRowsShareFirstKey(file, outcomes, n - 1);
      var s := Run(file, outcomes, false, n - 1);
      var earlier := FirstCreatedKey(file, outcomes, n - 1);
      var row := file.rows[n - 1];
      StepDisk(s, row, outcomes[n - 1], AllMatching);
      if ValidateRow(row) && IssueIdOf(row) == "" && outcomes[n - 1].Some? {
        var key := outcomes[n - 1].value;
        if earlier.None? {
          CreateFillsBlanks(row, key, file);
        } else {
          var filled := FillBlanks(file, earlier.value);
          assert s.disk == filled;
          assert Strip(earlier.value) != "" by {
            FirstCreatedKeyIsOutcome(file, outcomes, n - 1);
          }
          RewriteFailsIff(file, "", earlier.value);
          RewriteKeepsWellFormed(file, "", earlier.value);
          CreateFillsBlanks(row, key, filled);
          FillBlanksSettles(file, earlier.value, key);
        }
      }
    }
  }

  /** The first created key is one of the tracker's answers. */
  lemma {:induction false} FirstCreatedKeyIsOutcome(file: CsvFile, outcomes: seq<Option<string>>, n: nat)
    requires |outcomes| == |file.rows| && n <= |file.rows|
    ensures FirstCreatedKey(file, outcomes, n).Some? ==>
      exists i :: 0 <= i < n && outcomes[i] == FirstCreatedKey(file, outcomes, n)
  {
    if n > 0 {
      FirstCreatedKeyIsOutcome(file, outcomes, n - 1);
    }
  }

  /**
   * Hence, as written, after the whole run every record whose Issue ID was
   * blank holds the key of the first record created, whichever record it
   * was and whichever key the tracker gave it.
   */
  lemma EveryBlankRowGetsFirstKey(file: CsvFile, outcomes: seq<Option<string>>, i: int)
    requires |outcomes| == |file.rows|
    requires WellFormed(file) && IssueIdColumn in file.header && KeysNonBlank(outcomes)
    requires FirstCreatedKey(file, outcomes, |file.rows|).Some?
    requires 0 <= i < |file.rows| && IssueIdOf(file.rows[i]) == ""
    ensures |Run(file, outcomes, false, |file.rows|).disk.rows| == |file.rows|
    ensures IssueIdColumn in Run(file, outcomes, false, |file.rows|).disk.rows[i]
    ensures Run(file, outcomes, false, |file.rows|).disk.rows[i][IssueIdColumn] ==
      FirstCreatedKey(file, outcomes, |file.rows|).value
  {
    BlankRowsShareFirstKey(file, outcomes, |file.rows|);
    RewriteRowsEffect(file.rows, "", FirstCreatedKey(file, outcomes, |file.rows|).value);
  }

  /** With the intended write-back, a successful create patches its own record and nothing else. */
  lemma CreateOwnRow(row: Row, key: string, disk: CsvFile, index: nat)
    requires index < |disk.rows| && IssueIdColumn in disk.header && IssueIdOf(row) == ""
    requires disk.rows[index].Keys == HeaderSet(disk.header)
    ensures CreateOutcome(row, Some(key), disk, OnlyRow(index)).disk ==
      disk.(rows := disk.rows[index := disk.rows[index][IssueIdColumn := key]])
  {
    assert WriteBackRow(disk, index, key).Some?;
  }

  /** The record at `i` after the first `n` records, as the write-back is meant to leave it. */
  function IntendedRow(file: CsvFile, outcomes: seq<Option<string>>, n: nat, i: nat): Row
    requires |outcomes| == |file.rows| && i < |file.rows|
  {
    var row := file.rows[i];
    if i < n && ValidateRow(row) && IssueIdOf(row) == "" && outcomes[i].Some?
    then row[IssueIdColumn := outcomes[i].value]
    else row
  }

  /**
   * As intended: with the write-back aimed at the record that produced the
   * key, each valid record with a blank Issue ID that the tracker created
   * holds its own key afterwards, and every other record is unchanged.
   */
  lemma {:induction false} OwnRowWriteBack(file: CsvFile, outcomes: seq<Option<string>>, n: nat)
    requires |outcomes| == |file.rows| && n <= |file.rows|
    requires WellFormed(file) && IssueIdColumn in file.header
    ensures |Run(file, outcomes, true, n).disk.rows| == |file.rows|
    ensures forall i :: 0 <= i < |file.rows| ==>
      Run(file, outcomes, true, n).disk.rows[i] == IntendedRow(file, outcomes, n, i)
  {
    if n > 0 {
      OwnRowWriteBack(file, outcomes, n - 1);
      RunKeepsLayout(file, outcomes, true, n - 1);
      var s := Run(file, outcomes, true, n - 1);
      OwnRowStep(file, outcomes, n, s);
      assert Run(file, outcomes, true, n) == Step(s, file.rows[n - 1], outcomes[n - 1], OnlyRow(n - 1));
    }
  }

  /** One pass of the intended run moves the file from the state after `n - 1` records to the state after `n`. */
  lemma OwnRowStep(file: CsvFile, outcomes: seq<Option<string>>, n: nat, s: State)
    requires |outcomes| == |file.rows| && 0 < n <= |file.rows|
    requires WellFormed(file) && IssueIdColumn in file.header
    requires s.disk.header == file.header && |s.disk.rows| == |file.rows|
    requires forall i :: 0 <= i < |file.rows| ==> s.disk.rows[i] == IntendedRow(file, outcomes, n - 1, i)
    ensures |Step(s, file.rows[n - 1], outcomes[n - 1], OnlyRow(n - 1)).disk.rows| == |file.rows|
    ensures forall i :: 0 <= i < |file.rows| ==>
      Step(s, file.rows[n - 1], outcomes[n - 1], OnlyRow(n - 1)).disk.rows[i] == IntendedRow(file, outcomes, n, i)
  {
    var row := file.rows[n - 1];
    StepDisk(s, row, outcomes[n - 1], OnlyRow(n - 1));
    var after := Step(s, row, outcomes[n - 1], OnlyRow(n - 1)).disk;
    assert s.disk.rows[n - 1] == IntendedRow(file, outcomes, n - 1, n - 1) == row;
    if ValidateRow(row) && IssueIdOf(row) == "" && outcomes[n - 1].Some? {
      CreateOwnRow(row, outcomes[n - 1].value, s.disk, n - 1);
      assert after.rows == s.disk.rows[n - 1 := row[IssueIdColumn := outcomes[n - 1].value]];
    } else {
      assert after == s.disk;
    }
    forall i | 0 <= i < |file.rows|
      ensures after.rows[i] == IntendedRow(file, outcomes, n, i)
    {
      if i != n - 1 {
        assert after.rows[i] == s.disk.rows[i] == IntendedRow(file, outcomes, n - 1, i);
      }
    }
  }

  /** Both write-back modes report the same keys. */
  lemma ModesAgreeOnReports(file: CsvFile, outcomes: seq<Option<string>>)
    requires |outcomes| == |file.rows|
    requires WellFormed(file) && IssueIdColumn in file.header
    ensures Run(file, outcomes, true, |file.rows|).processed == Run(file, outcomes, false, |file.rows|).processed
  {
    RunProcessed(file, outcomes, true, |file.rows|);
    RunProcessed(file, outcomes, false, |file.rows|);
  }

  // ---------------------------------------------------------------------
  // Two new stories in one run

  /** A well-formed file with an Issue ID column whose two records are both valid new stories. */
  predicate TwoNewStories(file: CsvFile) {
    && |file.rows| == 2 && WellFormed(file) && IssueIdColumn in file.header
    && ValidateRow(file.rows[0]) && IssueIdOf(file.rows[0]) == ""
    && ValidateRow(file.rows[1]) && IssueIdOf(file.rows[1]) == ""
  }

  /** As written, a run that creates both stories reports both keys, in order. */
  lemma BothKeysReported(file: CsvFile, first: string, second: string)
    requires TwoNewStories(file) && first != "" && second != ""
    ensures Run(file, [Some(first), Some(second)], false, 2).processed == [first, second]
  {
    var outcomes := [Some(first), Some(second)];
    RunProcessed(file, outcomes, false, 2);
    TwoResults(file.rows, outcomes, first, second);
    assert file.rows[..2] == file.rows && outcomes[..2] == outcomes;
  }

  /** The truthy results of two valid new stories created with non-empty keys are the two keys, in order. */
  lemma TwoResults(rows: seq<Row>, outcomes: seq<Option<string>>, first: string, second: string)
    requires |rows| == 2 && |outcomes| == 2 && first != "" && second != ""
    requires outcomes[0] == Some(first) && outcomes[1] == Some(second)
    requires ValidateRow(rows[0]) && IssueIdOf(rows[0]) == ""
    requires ValidateRow(rows[1]) && IssueIdOf(rows[1]) == ""
    ensures Results(rows, outcomes) == [first, second]
  {
    ResultsOfTwo(rows, outcomes);
    NewStoryResult(rows[0], first);
    NewStoryResult(rows[1], second);
  }

  /** Two records contribute their results one after the other. */
  lemma ResultsOfTwo(rows: seq<Row>, outcomes: seq<Option<string>>)
    requires |rows| == 2 && |outcomes| == 2
    ensures Results(rows, outcomes) == ResultFor(rows[0], outcomes[0]) + ResultFor(rows[1], outcomes[1])
  {
    ResultsPrefix(rows, outcomes, 1);
    assert rows[..1][..0] == [] && outcomes[..1][..0] == [];
  }

  /** A valid new story created with a non-empty key contributes that key. */
  lemma NewStoryResult(row: Row, key: string)
    requires ValidateRow(row) && IssueIdOf(row) == "" && key != ""
    ensures ResultFor(row, Some(key)) == [key]
  {
  }

  /**
   * As written, the same run leaves the first key in both records: the
   * second key is reported but recorded nowhere in the file.
   */
  lemma SecondKeyLost(file: CsvFile, first: string, second: string)
    requires TwoNewStories(file) && Strip(first) != "" && Strip(second) != ""
    ensures Run(file, [Some(first), Some(second)], false, 2).disk.rows ==
      [file.rows[0][IssueIdColumn := first], file.rows[1][IssueIdColumn := first]]
  {
    var outcomes := [Some(first), Some(second)];
    assert KeysNonBlank(outcomes);
    FirstOfTwoCreated(file, first, second);
    BlankRowsShareFirstKey(file, outcomes, 2);
    var rows := RewriteRows(file.rows, "", first);
    assert Run(file, outcomes, false, 2).disk.rows == rows;
    RewriteRowsAt(file.rows, "", first, 0);
    RewriteRowsAt(file.rows, "", first, 1);
    assert rows == [rows[0], rows[1]];
  }

  /** When both records are new stories, the first created key is the first record's. */
  lemma FirstOfTwoCreated(file: CsvFile, first: string, second: string)
    requires TwoNewStories(file)
    ensures FirstCreatedKey(file, [Some(first), Some(second)], 2) == Some(first)
  {
    assert FirstCreatedKey(file, [Some(first), Some(second)], 1) == Some(first);
  }

  /** With the write-back aimed at its own record, each record keeps the key created for it. */
  lemma SecondKeyKept(file: CsvFile, first: string, second: string)
    requires TwoNewStories(file)
    ensures Run(file, [Some(first), Some(second)], true, 2).disk.rows ==
      [file.rows[0][IssueIdColumn := first], file.rows[1][IssueIdColumn := second]]
  {
    var outcomes := [Some(first), Some(second)];
    OwnRowWriteBack(file, outcomes, 2);
    assert IntendedRow(file, outcomes, 2, 0) == file.rows[0][IssueIdColumn := first];
    assert IntendedRow(file, outcomes, 2, 1) == file.rows[1][IssueIdColumn := second];
  }
}
