/**
 * The field dictionaries `create_user_story` and `update_user_story` hand
 * to the issue tracker. The two treat an empty Design Link or Epic cell
 * differently: create leaves the key out, update sends it as `None` so
 * that a previously set value is cleared.
 */
module Fields {
  import opened Text
  import opened Rows

  /** A value in the field dictionary: text, `{"key": k}`, `{"name": n}` or `None`. */
  datatype FieldValue = Str(text: string) | KeyRef(key: string) | NameRef(name: string) | Null

  /** The keys of the field dictionary; `Id` gives the name the tracker knows each one by. */
  datatype FieldKey = Project | Summary | Description | IssueType | AcceptanceField | DesignLinkField | Parent
  {
    function Id(): string {
      match this
      case Project => "project"
      case Summary => "summary"
      case Description => "description"
      case IssueType => "issuetype"
      case AcceptanceField => "customfield_10130"
      case DesignLinkField => "customfield_10131"
      case Parent => "parent"
    }
  }

  type FieldMap = map<FieldKey, FieldValue>

  const ProjectKey: string := "NA"
  const IssueTypeName: string := "Story"

  /** The record carries the three columns both builders read unconditionally. */
  predicate HasCoreColumns(row: Row) {
    SummaryColumn in row && DescriptionColumn in row && AcceptanceColumn in row
  }

  /** The keys both dictionaries always hold, with the values taken from the record. */
  predicate HasCoreFields(row: Row, fields: FieldMap)
    requires HasCoreColumns(row)
  {
    && Summary in fields && fields[Summary] == Str(row[SummaryColumn])
    && Description in fields && fields[Description] == Str(row[DescriptionColumn])
    && AcceptanceField in fields
    && fields[AcceptanceField] == Str(FormatAcceptanceCriteria(row[AcceptanceColumn]))
  }

  /** The dictionary `create_user_story` submits for a new issue. */
  function CreateFieldMap(row: Row): (fields: FieldMap)
    requires HasCoreColumns(row)
    ensures HasCoreFields(row, fields)
    ensures Project in fields && fields[Project] == KeyRef(ProjectKey)
    ensures IssueType in fields && fields[IssueType] == NameRef(IssueTypeName)
    ensures DesignLinkField in fields <==> Filled(row, DesignLinkColumn)
    ensures DesignLinkField in fields ==> fields[DesignLinkField] == Str(row[DesignLinkColumn])
    ensures Parent in fields <==> Filled(row, EpicColumn)
    ensures Parent in fields ==> fields[Parent] == KeyRef(row[EpicColumn])
  {
    var core := CreateCore(row);
    var withLink := if Filled(row, DesignLinkColumn) then core[DesignLinkField := Str(row[DesignLinkColumn])] else core;
    if Filled(row, EpicColumn) then withLink[Parent := KeyRef(row[EpicColumn])] else withLink
  }

  /** The entries `create_user_story` always sends. */
  function CreateCore(row: Row): (core: FieldMap)
    requires HasCoreColumns(row)
    ensures HasCoreFields(row, core)
    ensures DesignLinkField !in core && Parent !in core
    ensures Project in core && core[Project] == KeyRef(ProjectKey)
    ensures IssueType in core && core[IssueType] == NameRef(IssueTypeName)
  {
    map[
      Project := KeyRef(ProjectKey),
      Summary := Str(row[SummaryColumn]),
      Description := Str(row[DescriptionColumn]),
      IssueType := NameRef(IssueTypeName),
      AcceptanceField := Str(FormatAcceptanceCriteria(row[AcceptanceColumn]))]
  }

  /** The dictionary `update_user_story` applies to an existing issue. */
  function UpdateFieldMap(row: Row): (fields: FieldMap)
    requires HasCoreColumns(row)
    ensures HasCoreFields(row, fields)
    ensures Project !in fields && IssueType !in fields
    ensures DesignLinkField in fields && Parent in fields
    ensures fields[DesignLinkField] == if Filled(row, DesignLinkColumn) then Str(row[DesignLinkColumn]) else Null
    ensures fields[Parent] == if Filled(row, EpicColumn) then KeyRef(row[EpicColumn]) else Null
  {
    map[
      Summary := Str(row[SummaryColumn]),
      Description := Str(row[DescriptionColumn]),
      AcceptanceField := Str(FormatAcceptanceCriteria(row[AcceptanceColumn])),
      DesignLinkField := if Filled(row, DesignLinkColumn) then Str(row[DesignLinkColumn]) else Null,
      Parent := if Filled(row, EpicColumn) then KeyRef(row[EpicColumn]) else Null]
  }

  /** Builds the create dictionary as `create_user_story` does: the fixed part, then each optional key only when its cell is filled. */
  method BuildCreateFields(row: Row) returns (fields: FieldMap)
    requires HasCoreColumns(row)
    ensures fields == CreateFieldMap(row)
  {
    fields := map[
      Project := KeyRef(ProjectKey),
      Summary := Str(row[SummaryColumn]),
      Description := Str(row[DescriptionColumn]),
      IssueType := NameRef(IssueTypeName),
      AcceptanceField := Str(FormatAcceptanceCriteria(row[AcceptanceColumn]))];
    if DesignLinkColumn in row && row[DesignLinkColumn] != "" {
      fields := fields[DesignLinkField := Str(row[DesignLinkColumn])];
    }
    if EpicColumn in row && row[EpicColumn] != "" {
      fields := fields[Parent := KeyRef(row[EpicColumn])];
    }
  }

  /** Builds the update dictionary as `update_user_story` does: every optional key is set, to `None` when its cell is empty. */
  method BuildUpdateFields(row: Row) returns (fields: FieldMap)
    requires HasCoreColumns(row)
    ensures fields == UpdateFieldMap(row)
  {
    fields := map[
      Summary := Str(row[SummaryColumn]),
      Description := Str(row[DescriptionColumn]),
      AcceptanceField := Str(FormatAcceptanceCriteria(row[AcceptanceColumn]))];
    if DesignLinkColumn in row && row[DesignLinkColumn] != "" {
      fields := fields[DesignLinkField := Str(row[DesignLinkColumn])];
    } else {
      fields := fields[DesignLinkField := Null];
    }
    if EpicColumn in row && row[EpicColumn] != "" {
      fields := fields[Parent := KeyRef(row[EpicColumn])];
    } else {
      fields := fields[Parent := Null];
    }
  }

  /** The create dictionary holds the five fixed keys and each optional key exactly when its cell is filled. */
  lemma CreateFieldMapKeys(row: Row)
    requires HasCoreColumns(row)
    ensures CreateFieldMap(row).Keys == {Project, Summary, Description, IssueType, AcceptanceField}
      + (if Filled(row, DesignLinkColumn) then {DesignLinkField} else {})
      + (if Filled(row, EpicColumn) then {Parent} else {})
  {
    var fields := CreateFieldMap(row);
    forall k: FieldKey
      ensures k in fields.Keys <==>
        k in ({Project, Summary, Description, IssueType, AcceptanceField}
          + (if Filled(row, DesignLinkColumn) then {DesignLinkField} else {})
          + (if Filled(row, EpicColumn) then {Parent} else {}))
    {
      match k
      case Project =>
      case Summary =>
      case Description =>
      case IssueType =>
      case AcceptanceField =>
      case DesignLinkField =>
      case Parent =>
    }
  }

  /** The update dictionary holds the same five keys whatever the record says. */
  lemma UpdateFieldMapKeys(row: Row)
    requires HasCoreColumns(row)
    ensures UpdateFieldMap(row).Keys == {Summary, Description, AcceptanceField, DesignLinkField, Parent}
  {
    var fields := UpdateFieldMap(row);
    forall k: FieldKey
      ensures k in fields.Keys <==> k in {Summary, Description, AcceptanceField, DesignLinkField, Parent}
    {
      match k
      case Project =>
      case Summary =>
      case Description =>
      case IssueType =>
      case AcceptanceField =>
      case DesignLinkField =>
      case Parent =>
    }
  }

  /** No two keys share a name, so the datatype merges none of the dictionary keys the tracker tells apart. */
  lemma KeyIdsDistinct()
    ensures forall a: FieldKey, b: FieldKey :: a != b ==> a.Id() != b.Id()
  {
  }

  /**
   * Create and update agree on every key create sends except the project
   * and the issue type; update additionally sends, as `None`, exactly the
   * optional keys create leaves out.
   */
  lemma CreateAndUpdateAgree(row: Row)
    requires HasCoreColumns(row)
    ensures forall k :: k in CreateFieldMap(row) && k != Project && k != IssueType ==>
      k in UpdateFieldMap(row) && UpdateFieldMap(row)[k] == CreateFieldMap(row)[k]
    ensures forall k :: k in UpdateFieldMap(row) && k !in CreateFieldMap(row) ==>
      UpdateFieldMap(row)[k] == Null && (k == DesignLinkField || k == Parent)
    ensures UpdateFieldMap(row).Keys == CreateFieldMap(row).Keys - {Project, IssueType} + {DesignLinkField, Parent}
  {
    var c, u := CreateFieldMap(row), UpdateFieldMap(row);
    CreateFieldMapKeys(row);
    UpdateFieldMapKeys(row);
    assert c.Keys - {Project, IssueType} + {DesignLinkField, Parent}
      == {Summary, Description, AcceptanceField, DesignLinkField, Parent};
  }
}
