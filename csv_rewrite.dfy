/**
 * `update_csv_with_issue_id`: the write-back that records a newly created
 * key in the CSV file. The file is read again from disk, every record whose
 * trimmed Issue ID equals the original value gets the new key, and each
 * record is written out through a `csv.DictWriter` on the file's own header.
 * A record holding a column the header lacks makes the writer raise, and
 * then the file is left as it was.
 */
module CsvRewrite {
  import opened Wrappers
  import opened Text
  import opened Rows

  /** The CSV file: its header line and its records, in order. */
  datatype CsvFile = CsvFile(header: seq<string>, rows: seq<Row>)

  /** The columns the header names. */
  function HeaderSet(header: seq<string>): set<string> {
    set h | h in header
  }

  /** Every record maps exactly the header's columns, as `csv.DictReader` yields them. */
  predicate WellFormed(file: CsvFile) {
    forall i :: 0 <= i < |file.rows| ==> file.rows[i].Keys == HeaderSet(file.header)
  }

  /** `DictWriter.writerow` accepts the record: it names no column outside the header. */
  predicate Writable(header: seq<string>, row: Row) {
    row.Keys <= HeaderSet(header)
  }

  /** The record's trimmed Issue ID equals `original`: the test in `update_csv_with_issue_id`. */
  predicate Matches(row: Row, original: string) {
    IssueIdOf(row) == original
  }

  /** The record as the loop body leaves it: a matching record carries the new key, any other is untouched. */
  function RewriteRow(row: Row, original: string, newId: string): (r: Row)
    ensures Matches(row, original) ==> IssueIdColumn in r && r[IssueIdColumn] == newId
    ensures !Matches(row, original) ==> r == row
    ensures forall c :: c in row && c != IssueIdColumn ==> c in r && r[c] == row[c]
  {
    if Matches(row, original) then row[IssueIdColumn := newId] else row
  }

  /** Only the Issue ID cell of a record may differ. */
  ghost predicate SameExceptIssueId(before: Row, after: Row) {
    forall c :: c != IssueIdColumn ==> (c in before <==> c in after) && (c in before ==> before[c] == after[c])
  }

  /** The records the loop writes, in the order it writes them. */
  function RewriteRows(rows: seq<Row>, original: string, newId: string): (result: seq<Row>)
    ensures |result| == |rows|
    decreases |rows|
  {
    if rows == [] then []
    else
      var front := RewriteRows(rows[..|rows| - 1], original, newId);
      front + [RewriteRow(rows[|rows| - 1], original, newId)]
  }

  /** Every record of `rows` can be written under `header`. */
  predicate AllWritable(header: seq<string>, rows: seq<Row>) {
    forall i :: 0 <= i < |rows| ==> Writable(header, rows[i])
  }

  /**
   * The file after `update_csv_with_issue_id`, or `None` when the writer
   * raises (the exception reaches `create_user_story`, and `os.replace` is
   * never reached, so the file on disk is unchanged).
   */
  function RewriteIssueId(file: CsvFile, original: string, newId: string): (result: Option<CsvFile>)
    ensures result.Some? ==> result.value.header == file.header
    ensures result.Some? ==> result.value.rows == RewriteRows(file.rows, original, newId)
  {
    var rows := RewriteRows(file.rows, original, newId);
    if AllWritable(file.header, rows) then Some(CsvFile(file.header, rows)) else None
  }

  /**
   * The loop of `update_csv_with_issue_id`: each record is patched and
   * written in turn; a record the writer refuses ends the rewrite.
   */
  method UpdateCsvWithIssueId(file: CsvFile, original: string, newId: string) returns (result: Option<CsvFile>)
    ensures result == RewriteIssueId(file, original, newId)
  {
    var written: seq<Row> := [];
    var i := 0;
    while i < |file.rows|
      invariant 0 <= i <= |file.rows|
      invariant |written| == i
      invariant forall j :: 0 <= j < i ==> written[j] == RewriteRow(file.rows[j], original, newId)
      invariant AllWritable(file.header, written)
    {
      var row := file.rows[i];
      if Strip(Get(row, IssueIdColumn, "")) == original {
        row := row[IssueIdColumn := newId];
      }
      if !Writable(file.header, row) {
        RewriteRowsAt(file.rows, original, newId, i);
        return None;
      }
      written := written + [row];
      i := i + 1;
    }
    RewriteRowsPointwise(file.rows, original, newId, written);
    return Some(CsvFile(file.header, written));
  }

  /** Record `i` of the rewrite is record `i` of the input, rewritten. */
  lemma {:induction false} RewriteRowsAt(rows: seq<Row>, original: string, newId: string, i: int)
    requires 0 <= i < |rows|
    ensures RewriteRows(rows, original, newId)[i] == RewriteRow(rows[i], original, newId)
    decreases |rows|
  {
    if i < |rows| - 1 {
      RewriteRowsAt(rows[..|rows| - 1], original, newId, i);
    }
  }

  /**
   * The rewrite keeps the records and their order: each matching record
   * carries the new key, every other one is untouched, and no cell other
   * than Issue ID changes.
   */
  lemma RewriteRowsEffect(rows: seq<Row>, original: string, newId: string)
    ensures forall i :: 0 <= i < |rows| ==> SameExceptIssueId(rows[i], RewriteRows(rows, original, newId)[i])
    ensures forall i :: 0 <= i < |rows| && Matches(rows[i], original) ==>
      IssueIdColumn in RewriteRows(rows, original, newId)[i] &&
      RewriteRows(rows, original, newId)[i][IssueIdColumn] == newId
    ensures forall i :: 0 <= i < |rows| && !Matches(rows[i], original) ==>
      RewriteRows(rows, original, newId)[i] == rows[i]
  {
    forall i | 0 <= i < |rows|
      ensures RewriteRows(rows, original, newId)[i] == RewriteRow(rows[i], original, newId)
    {
      RewriteRowsAt(rows, original, newId, i);
    }
  }

  /** A sequence that agrees with the rewrite record by record is the rewrite. */
  lemma RewriteRowsPointwise(rows: seq<Row>, original: string, newId: string, written: seq<Row>)
    requires |written| == |rows|
    requires forall j :: 0 <= j < |rows| ==> written[j] == RewriteRow(rows[j], original, newId)
    ensures written == RewriteRows(rows, original, newId)
  {
    var r := RewriteRows(rows, original, newId);
    forall j | 0 <= j < |rows|
      ensures written[j] == r[j]
    {
      RewriteRowsAt(rows, original, newId, j);
    }
  }

  /**
   * On a well-formed file the rewrite fails exactly when the header has no
   * Issue ID column, the original value is empty and there is a record:
   * then every record reads its missing Issue ID as "", matches, and gains
   * a column the writer does not know.
   */
  lemma RewriteFailsIff(file: CsvFile, original: string, newId: string)
    requires WellFormed(file)
    ensures RewriteIssueId(file, original, newId).None? <==>
      IssueIdColumn !in file.header && original == "" && |file.rows| > 0
  {
    var rows := RewriteRows(file.rows, original, newId);
    if IssueIdColumn in file.header {
      forall i | 0 <= i < |rows|
        ensures Writable(file.header, rows[i])
      {
        RewriteRowsAt(file.rows, original, newId, i);
      }
    } else if original == "" && |file.rows| > 0 {
      RewriteRowsAt(file.rows, original, newId, 0);
      assert Strip("") == "";
      assert IssueIdColumn in rows[0];
      assert !Writable(file.header, rows[0]);
    } else {
      forall i | 0 <= i < |rows|
        ensures Writable(file.header, rows[i])
      {
        RewriteRowsAt(file.rows, original, newId, i);
        assert IssueIdColumn !in file.rows[i];
      }
    }
  }

  /** A successful rewrite keeps the file well formed. */
  lemma RewriteKeepsWellFormed(file: CsvFile, original: string, newId: string)
    requires WellFormed(file)
    requires RewriteIssueId(file, original, newId).Some?
    ensures WellFormed(RewriteIssueId(file, original, newId).value)
  {
    var after := RewriteIssueId(file, original, newId).value;
    RewriteFailsIff(file, original, newId);
    forall i | 0 <= i < |after.rows|
      ensures after.rows[i].Keys == HeaderSet(file.header)
    {
      RewriteRowsAt(file.rows, original, newId, i);
    }
  }

  /**
   * After a rewrite to a key that does not trim to the original value, no
   * record matches the original any more: a rewrite on behalf of `""`
   * leaves no blank Issue ID behind, however many records were blank.
   */
  lemma NoMatchAfterRewrite(file: CsvFile, original: string, newId: string)
    requires Strip(newId) != original
    requires RewriteIssueId(file, original, newId).Some?
    ensures forall i :: 0 <= i < |file.rows| ==>
      !Matches(RewriteIssueId(file, original, newId).value.rows[i], original)
  {
    RewriteRowsEffect(file.rows, original, newId);
  }

  /** Repeating the rewrite with the same values changes nothing more. */
  lemma RewriteSettles(file: CsvFile, original: string, newId: string)
    requires Strip(newId) != original
    requires RewriteIssueId(file, original, newId).Some?
    ensures RewriteIssueId(RewriteIssueId(file, original, newId).value, original, newId)
      == RewriteIssueId(file, original, newId)
  {
    var after := RewriteIssueId(file, original, newId).value;
    NoMatchAfterRewrite(file, original, newId);
    RewriteWithoutMatch(after.rows, original, newId);
  }

  /**
   * The write-back as the surrounding code evidently means it: the new key
   * goes into the one record, at `index`, that produced it. `None` when the
   * writer would refuse the patched record.
   */
  function WriteBackRow(file: CsvFile, index: nat, newId: string): (result: Option<CsvFile>)
    ensures result.Some? <==>
      index < |file.rows| && Writable(file.header, file.rows[index][IssueIdColumn := newId])
    ensures result.Some? ==> result.value.header == file.header && |result.value.rows| == |file.rows|
    ensures result.Some? ==> result.value.rows[index] == file.rows[index][IssueIdColumn := newId]
    ensures result.Some? ==> forall j :: 0 <= j < |file.rows| && j != index ==> result.value.rows[j] == file.rows[j]
  {
    if index < |file.rows| && Writable(file.header, file.rows[index][IssueIdColumn := newId]) then
      Some(file.(rows := file.rows[index := file.rows[index][IssueIdColumn := newId]]))
    else
      None
  }

  /** When no record matches, the rewrite writes the records back unchanged. */
  lemma RewriteWithoutMatch(rows: seq<Row>, original: string, newId: string)
    requires forall i :: 0 <= i < |rows| ==> !Matches(rows[i], original)
    ensures RewriteRows(rows, original, newId) == rows
  {
    var r := RewriteRows(rows, original, newId);
    RewriteRowsEffect(rows, original, newId);
    assert forall i :: 0 <= i < |rows| ==> r[i] == rows[i];
  }
}
