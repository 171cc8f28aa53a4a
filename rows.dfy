/**
 * One CSV record as `csv.DictReader` yields it: a map from column name to
 * cell text, and the check `validate_row` makes before a record is used.
 */
module Rows {
  import opened Text

  type Row = map<string, string>

  const IssueIdColumn: string := "Issue ID"
  const SummaryColumn: string := "Summary"
  const DescriptionColumn: string := "Description"
  const AcceptanceColumn: string := "Acceptance Criteria"
  const DesignLinkColumn: string := "Design Link"
  const EpicColumn: string := "Epic"

  /** The columns a record must fill, in the order the validator lists them. */
  const RequiredFields: seq<string> := [SummaryColumn, DescriptionColumn, AcceptanceColumn]

  /** `row.get(column, default)`. */
  function Get(row: Row, column: string, default: string): string {
    if column in row then row[column] else default
  }

  /** The cell is present and non-empty, Python's `column in row and row[column]`. */
  predicate Filled(row: Row, column: string) {
    column in row && row[column] != ""
  }

  /**
   * `row.get("Issue ID", "").strip()`: the record's Issue ID with
   * surrounding whitespace removed; a record without the column reads as
   * blank, and blank means "not created yet".
   */
  function IssueIdOf(row: Row): (id: string)
    ensures IssueIdColumn !in row ==> id == ""
  {
    Strip(Get(row, IssueIdColumn, ""))
  }

  /**
   * The required columns that are absent or empty, in the order of
   * `RequiredFields` (the list comprehension of `validate_row`).
   */
  function MissingFields(row: Row): (missing: seq<string>)
    ensures forall f :: f in missing <==> f in RequiredFields && !Filled(row, f)
    ensures |missing| <= |RequiredFields|
  {
    Missing(row, RequiredFields)
  }

  /** The columns of `fields` that `row` leaves absent or empty, in order. */
  function Missing(row: Row, fields: seq<string>): (missing: seq<string>)
    ensures forall f :: f in missing <==> f in fields && !Filled(row, f)
    ensures |missing| <= |fields|
  {
    if fields == [] then []
    else (if Filled(row, fields[0]) then [] else [fields[0]]) + Missing(row, fields[1..])
  }

  /** At least one character of `s` is not whitespace. */
  predicate HasNonSpace(s: string) {
    exists k :: 0 <= k < |s| && !IsSpace(s[k])
  }

  /**
   * `validate_row`: accepts the record exactly when Summary, Description
   * and Acceptance Criteria are all present and non-empty and Summary is
   * not whitespace only. Description and Acceptance Criteria are not
   * trimmed, so a single space passes for them.
   */
  function ValidateRow(row: Row): (ok: bool)
    ensures ok <==>
      && Filled(row, SummaryColumn) && Filled(row, DescriptionColumn) && Filled(row, AcceptanceColumn)
      && HasNonSpace(row[SummaryColumn])
  {
    var missing := MissingFields(row);
    if missing != [] then
      assert missing[0] in missing;
      false
    else
      assert forall f :: f in RequiredFields ==> Filled(row, f);
      StripEmptyIffAllSpace(row[SummaryColumn]);
      Strip(row[SummaryColumn]) != ""
  }
}
