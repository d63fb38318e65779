/**
 * The audit group's side of the pipeline: the group-to-circle mapping,
 * turning an extracted report into editor rows, shaping the edited rows
 * for the master sheet behind the validation gate, and choosing the rows
 * of one upload for deletion.
 */
module AuditGroup {
  import opened Basics
  import opened Frames
  import opened Models
  import opened Sorting
  import Validation

  /** The columns of the review editor. */
  const EditorColumns: seq<string> := [
    "audit_group_number", "audit_circle_number", "gstin", "trade_name", "category",
    "total_amount_detected_overall_rs", "total_amount_recovered_overall_rs",
    "audit_para_number", "audit_para_heading",
    "revenue_involved_lakhs_rs", "revenue_recovered_lakhs_rs", "status_of_para"]

  /** The master sheet's columns: the editor's, with "MCM Period" first. */
  const SheetColumns: seq<string> := ["MCM Period"] + EditorColumns

  /** The para fields are editor columns, distinct from the header fields and the session fields. */
  lemma ParaColumns(k: string)
    requires k in ParaKeys
    ensures k in EditorColumns && k !in HeaderKeys
    ensures k != "audit_group_number" && k != "audit_circle_number"
  {
  }

  /** The header fields are editor columns, distinct from the para fields. */
  lemma HeaderColumns(k: string)
    requires k in HeaderKeys
    ensures k in EditorColumns && k !in ParaKeys && k != "audit_circle_number"
  {
  }

  /** Every editor column is a session field, a header field or a para field. */
  lemma EditorColumnsCovered(c: string)
    requires c in EditorColumns
    ensures c == "audit_group_number" || c == "audit_circle_number" || c in HeaderKeys || c in ParaKeys
  {
  }

  const UrlColumn := "DAR PDF URL"
  const CreatedColumn := "Record Created Date"

  /** What each appended row holds, in order. */
  const FinalColumns: seq<string> := SheetColumns + [UrlColumn, CreatedColumn]

  // ---------------------------------------------------------------------
  // Group number -> circle number
  // ---------------------------------------------------------------------

  /** `ceil(g / 3)` for a group number g in 1..30 (after `int()`), else None. */
  function CalculateAuditCircle(v: Cell): (r: Option<int>)
    ensures r.Some? <==> (ToInt(v).Some? && 1 <= ToInt(v).value <= 30)
    ensures r.Some? ==> 1 <= r.value <= 10
    ensures r.Some? ==> 3 * r.value - 2 <= ToInt(v).value <= 3 * r.value
  {
    match ToInt(v)
    case None => None
    case Some(g) => if 1 <= g <= 30 then Some((g + 2) / 3) else None
  }

  /** Circle c is made of exactly the groups 3c-2, 3c-1 and 3c. */
  lemma CircleCoversThreeGroups(c: int, g: int)
    requires 1 <= c <= 10
    ensures CalculateAuditCircle(Int(g)) == Some(c) <==> 3 * c - 2 <= g <= 3 * c
  {
  }

  function CircleCell(g: int): Cell {
    IntCell(CalculateAuditCircle(Int(g)))
  }

  // ---------------------------------------------------------------------
  // Flattening an extracted report into editor rows
  // ---------------------------------------------------------------------

  /**
   * The fields every editor row starts from: the session's group and its
   * circle, then the extracted header fields, which come later in the
   * dictionary and so replace the group number.
   */
  function BaseInfo(report: ParsedDarReport, group: int): (r: Row)
    ensures "audit_circle_number" in r && "audit_group_number" in r
    ensures r["audit_circle_number"] == CircleCell(group)
  {
    var session := map["audit_group_number" := Int(group), "audit_circle_number" := CircleCell(group)];
    if report.header.Some? then session + HeaderDump(report.header.value) else session
  }

  /** One row per para (the base fields with that para's fields), or the base row alone. */
  function EditorRows(report: ParsedDarReport, group: int): (r: seq<Row>)
    ensures |r| == if |report.auditParas| > 0 then |report.auditParas| else 1
  {
    var base := BaseInfo(report, group);
    if |report.auditParas| > 0 then seq(|report.auditParas|, i requires 0 <= i < |report.auditParas| =>
                                         base + ParaDump(report.auditParas[i]))
    else [base]
  }

  /** The loop that builds the editor rows. */
  method FlattenRows(report: ParsedDarReport, group: int) returns (rows: seq<Row>)
    ensures rows == EditorRows(report, group)
  {
    var base := BaseInfo(report, group);
    rows := [];
    if |report.auditParas| > 0 {
      for i := 0 to |report.auditParas|
        invariant |rows| == i
        invariant forall j :: 0 <= j < i ==> rows[j] == base + ParaDump(report.auditParas[j])
      {
        var row := base + ParaDump(report.auditParas[i]);
        rows := rows + [row];
      }
    } else {
      rows := rows + [base];
    }
  }

  /** The columns among `cols` that no row has. */
  function MissingColumns(rows: seq<Row>, cols: seq<string>): (r: seq<string>)
    ensures forall c :: c in r <==> (c in cols && forall i :: 0 <= i < |rows| ==> c !in rows[i])
  {
    if |cols| == 0 then []
    else
      var rest := MissingColumns(rows, cols[1..]);
      if forall i :: 0 <= i < |rows| ==> cols[0] !in rows[i] then [cols[0]] + rest else rest
  }

  /**
   * `pd.DataFrame(rows)[EditorColumns]` as written: selecting a column
   * that no row has raises KeyError, here returned as the missing columns;
   * otherwise the table is built with pandas' column types.
   */
  function FlattenForEditor(report: ParsedDarReport, group: int): (r: Result<Table, seq<string>>)
    ensures r.Err? ==> |r.error| > 0
    ensures r.Err? <==> exists c :: c in EditorColumns && forall i :: 0 <= i < |EditorRows(report, group)| ==> c !in EditorRows(report, group)[i]
    ensures r.Ok? ==> r.value == FromRecords(EditorRows(report, group), EditorColumns)
  {
    var rows := EditorRows(report, group);
    var missing := MissingColumns(rows, EditorColumns);
    if |missing| > 0 then
      assert missing[0] in missing;
      Err(missing)
    else Ok(FromRecords(rows, EditorColumns))
  }

  /**
   * The evident intent: the editor shows the rows with every editor
   * column, absent fields empty (NaN), including the single template row
   * when nothing was extracted; pandas still chooses each column's type.
   */
  function FlattenForEditorIntended(report: ParsedDarReport, group: int): (t: Table)
    ensures t.columns == EditorColumns && WellFormed(t)
    ensures |t.rows| == if |report.auditParas| > 0 then |report.auditParas| else 1
  {
    FromRecords(EditorRows(report, group), EditorColumns)
  }

  lemma NoHeaderMissesColumns(report: ParsedDarReport, group: int)
    requires report.header.None?
    ensures "gstin" in MissingColumns(EditorRows(report, group), EditorColumns)
  {
    var rows := EditorRows(report, group);
    SessionOnlyBase(report, group);
    assert EditorColumns[2] == "gstin";
    forall i | 0 <= i < |rows| ensures "gstin" !in rows[i] {
      if |report.auditParas| > 0 {
        assert rows[i] == BaseInfo(report, group) + ParaDump(report.auditParas[i]);
        ParaDumpKeys(report.auditParas[i]);
      }
    }
  }

  /** Without a header the base fields are the session's two. */
  lemma SessionOnlyBase(report: ParsedDarReport, group: int)
    requires report.header.None?
    ensures BaseInfo(report, group) == map["audit_group_number" := Int(group), "audit_circle_number" := CircleCell(group)]
  {
  }

  /** A para's fields include neither a header field nor a session field. */
  lemma ParaDumpKeys(p: AuditPara)
    ensures "gstin" !in ParaDump(p) && "audit_group_number" !in ParaDump(p) && "audit_circle_number" !in ParaDump(p)
  {
  }

  lemma NoParasMissesColumns(report: ParsedDarReport, group: int)
    requires |report.auditParas| == 0
    ensures "status_of_para" in MissingColumns(EditorRows(report, group), EditorColumns)
  {
    var base := BaseInfo(report, group);
    assert EditorRows(report, group) == [base];
    assert "status_of_para" !in base by {
      assert "status_of_para" !in HeaderKeys;
    }
  }

  /** No column is missing when the first row has them all. */
  lemma {:induction false} NoMissingColumns(rows: seq<Row>, cols: seq<string>)
    requires |rows| > 0 && forall c :: c in cols ==> c in rows[0]
    ensures MissingColumns(rows, cols) == []
  {
    if |cols| > 0 {
      NoMissingColumns(rows, cols[1..]);
    }
  }

  lemma FullReportHasAllColumns(report: ParsedDarReport, group: int)
    requires report.header.Some? && |report.auditParas| > 0
    ensures MissingColumns(EditorRows(report, group), EditorColumns) == []
  {
    var rows := EditorRows(report, group);
    var base := BaseInfo(report, group);
    var dump := ParaDump(report.auditParas[0]);
    assert rows[0] == base + dump;
    assert base.Keys >= Elems(HeaderKeys);
    forall c | c in EditorColumns ensures c in rows[0] {
      EditorColumnsCovered(c);
    }
    NoMissingColumns(rows, EditorColumns);
  }

  /**
   * As written, the editor table is built only when the report has a
   * header and at least one para: with no paras the para columns are
   * missing, and with no header the header columns are. When it is built
   * it is the intended table.
   */
  lemma FlattenFailsWithoutHeaderOrParas(report: ParsedDarReport, group: int)
    ensures FlattenForEditor(report, group).Err? <==> (report.header.None? || |report.auditParas| == 0)
    ensures FlattenForEditor(report, group).Ok? ==>
      FlattenForEditor(report, group).value == FlattenForEditorIntended(report, group)
  {
    if report.header.None? {
      NoHeaderMissesColumns(report, group);
    } else if |report.auditParas| == 0 {
      NoParasMissesColumns(report, group);
    } else {
      FullReportHasAllColumns(report, group);
    }
  }

  /** A report with no paras, like every failed extraction, breaks the editor step as written. */
  lemma FailedExtractionBreaksEditor(msg: string, group: int)
    ensures FlattenForEditor(FailedReport(msg), group).Err?
    ensures |FlattenForEditorIntended(FailedReport(msg), group).rows| == 1
  {
    FlattenFailsWithoutHeaderOrParas(FailedReport(msg), group);
  }

  /**
   * With k paras there are k editor rows, and row i holds para i's
   * fields: missing exactly where the para's field is, the same number
   * (an int may be widened to a float by its column), and text unchanged.
   */
  lemma EditorRowPerPara(report: ParsedDarReport, group: int, i: nat, k: string)
    requires i < |report.auditParas| && k in ParaKeys
    ensures var t := FlattenForEditorIntended(report, group);
      var cell := Get(t.rows[i], k);
      var d := Get(ParaDump(report.auditParas[i]), k);
      && |t.rows| == |report.auditParas|
      && (IsNa(cell) <==> IsNa(d))
      && NumberOf(cell) == NumberOf(d)
      && (cell == d || cell == AsFloat(d))
      && (d.Str? ==> cell == d)
  {
    ParaColumns(k);
    EditorCell(report, group, i, k);
  }

  /** A para column of the editor rows holds each para's own field. */
  lemma ParaColumnCells(report: ParsedDarReport, group: int, k: string)
    requires k in ParaKeys
    ensures var rows := EditorRows(report, group);
      forall l :: 0 <= l < |report.auditParas| ==> k in rows[l] && rows[l][k] == ParaDump(report.auditParas[l])[k]
  {
    var rows := EditorRows(report, group);
    var base := BaseInfo(report, group);
    forall l | 0 <= l < |report.auditParas| ensures k in rows[l] && rows[l][k] == ParaDump(report.auditParas[l])[k] {
      assert rows[l] == base + ParaDump(report.auditParas[l]);
    }
  }

  /**
   * The para number column becomes float64 as soon as one para lacks a
   * number: a para numbered n beside an unnumbered one shows n as a
   * float, and the unnumbered one shows NaN.
   */
  lemma ParaNumberWidened(report: ParsedDarReport, group: int, i: nat, j: nat)
    requires i < |report.auditParas| && j < |report.auditParas|
    requires report.auditParas[i].auditParaNumber.Some? && report.auditParas[j].auditParaNumber.None?
    ensures var t := FlattenForEditorIntended(report, group);
      Get(t.rows[i], "audit_para_number") == Num(IntAsFloat(report.auditParas[i].auditParaNumber.value))
      && Get(t.rows[j], "audit_para_number") == NaN
  {
    var k := "audit_para_number";
    var rows := EditorRows(report, group);
    ParaColumns(k);
    ParaColumnCells(report, group, k);
    forall l | 0 <= l < |rows| ensures rows[l][k] == IntCell(report.auditParas[l].auditParaNumber) {
      assert ParaDump(report.auditParas[l])[k] == IntCell(report.auditParas[l].auditParaNumber);
    }
    IntColumnWithNoneWidens(rows, EditorColumns, k, i, j);
  }

  /**
   * Every editor row carries the header's fields, the header's group
   * number included: they override the session's group. A header column
   * holds one value in every row, so pandas keeps it as it is.
   */
  lemma EditorRowHeaderFields(report: ParsedDarReport, group: int, i: nat, k: string)
    requires i < |report.auditParas| && k in HeaderKeys && report.header.Some?
    ensures Get(FlattenForEditorIntended(report, group).rows[i], k) == Get(HeaderDump(report.header.value), k)
  {
    HeaderColumns(k);
    var rows := EditorRows(report, group);
    var base := BaseInfo(report, group);
    forall j | 0 <= j < |rows| ensures k in rows[j] && rows[j][k] == base[k] {
      assert rows[j] == base + ParaDump(report.auditParas[j]);
      assert k !in ParaDump(report.auditParas[j]);
    }
    UniformColumnKept(rows, EditorColumns, k, base[k], i);
  }

  /**
   * Every editor row carries the session group's circle, and the session
   * group itself when there is no header.
   */
  lemma EditorRowSessionFields(report: ParsedDarReport, group: int, i: nat)
    requires i < |report.auditParas|
    ensures var row := FlattenForEditorIntended(report, group).rows[i];
      Get(row, "audit_circle_number") == CircleCell(group)
      && (report.header.None? ==> Get(row, "audit_group_number") == Int(group))
  {
    var rows := EditorRows(report, group);
    var base := BaseInfo(report, group);
    forall j, k | 0 <= j < |rows| && k in {"audit_circle_number", "audit_group_number"}
      ensures k in rows[j] && rows[j][k] == base[k]
    {
      assert rows[j] == base + ParaDump(report.auditParas[j]);
      ParaDumpKeys(report.auditParas[j]);
    }
    UniformColumnKept(rows, EditorColumns, "audit_circle_number", base["audit_circle_number"], i);
    UniformColumnKept(rows, EditorColumns, "audit_group_number", base["audit_group_number"], i);
    if report.header.None? {
      SessionOnlyBase(report, group);
    }
  }

  /**
   * A cell of the intended editor table is the merged row's value, or NaN
   * where the merged row lacks the column, stored as its column's type.
   */
  lemma EditorCell(report: ParsedDarReport, group: int, i: nat, c: string)
    requires i < |report.auditParas| && c in EditorColumns
    ensures var row := BaseInfo(report, group) + ParaDump(report.auditParas[i]);
      var cell := FlattenForEditorIntended(report, group).rows[i][c];
      && (c !in row ==> cell == NaN)
      && (c in row ==>
            (IsNa(cell) <==> IsNa(row[c]))
            && NumberOf(cell) == NumberOf(row[c])
            && (cell == row[c] || cell == AsFloat(row[c]))
            && (cell == row[c] <==> !FloatColumn(ColumnCells(EditorRows(report, group), c)) || row[c] == AsFloat(row[c])))
  {
    var rows := EditorRows(report, group);
    assert rows[i] == BaseInfo(report, group) + ParaDump(report.auditParas[i]);
    RecordCellKeepsValue(rows, EditorColumns, i, c);
    if c in rows[i] {
      RecordCellTyped(rows, EditorColumns, i, c);
    }
  }

  /** With no paras the one template row holds the base fields and nothing for the para columns. */
  lemma TemplateRow(report: ParsedDarReport, group: int, k: string)
    requires |report.auditParas| == 0
    ensures var t := FlattenForEditorIntended(report, group);
      |t.rows| == 1
      && Get(t.rows[0], "audit_circle_number") == CircleCell(group)
      && (k in ParaKeys ==> Get(t.rows[0], k) == NaN)
  {
    var base := BaseInfo(report, group);
    var rows := EditorRows(report, group);
    assert rows == [base];
    UniformColumnKept(rows, EditorColumns, "audit_circle_number", base["audit_circle_number"], 0);
    if k in ParaKeys {
      ParaColumns(k);
      assert k !in base;
      RecordCellKeepsValue(rows, EditorColumns, 0, k);
    }
  }

  // ---------------------------------------------------------------------
  // Submission
  // ---------------------------------------------------------------------

  /** `df[col] = v`: overwrite the column, or add it at the end. */
  function SetColumn(t: Table, col: string, v: Cell): (r: Table)
    requires WellFormed(t)
    ensures WellFormed(r) && |r.rows| == |t.rows|
    ensures r.columns == if col in t.columns then t.columns else t.columns + [col]
    ensures forall i :: 0 <= i < |r.rows| ==> r.rows[i] == t.rows[i][col := v]
  {
    var cols := if col in t.columns then t.columns else t.columns + [col];
    Table(cols, seq(|t.rows|, i requires 0 <= i < |t.rows| => t.rows[i][col := v]))
  }

  /** `df.insert(0, col, v)` for a column the table does not have. */
  function InsertFirst(t: Table, col: string, v: Cell): (r: Table)
    requires WellFormed(t) && col !in t.columns
    ensures WellFormed(r) && |r.rows| == |t.rows|
    ensures r.columns == [col] + t.columns
    ensures forall i :: 0 <= i < |r.rows| ==> r.rows[i] == t.rows[i][col := v]
  {
    Table([col] + t.columns, seq(|t.rows|, i requires 0 <= i < |t.rows| => t.rows[i][col := v]))
  }

  /** The edited table with the period in front and the session's group and circle imposed. */
  function Prepared(edited: Table, period: string, group: int): (t: Table)
    requires WellFormed(edited) && edited.columns == EditorColumns
    ensures WellFormed(t) && t.columns == SheetColumns && |t.rows| == |edited.rows|
  {
    var withPeriod := InsertFirst(edited, "MCM Period", Str(period));
    var withGroup := SetColumn(withPeriod, "audit_group_number", Int(group));
    SetColumn(withGroup, "audit_circle_number", CircleCell(group))
  }

  /**
   * Whatever the editor holds, every prepared row carries the period, the
   * session's group and its circle; the other columns are as edited.
   */
  lemma PreparedRow(edited: Table, period: string, group: int, i: nat, c: string)
    requires WellFormed(edited) && edited.columns == EditorColumns
    requires i < |edited.rows|
    ensures var r := Prepared(edited, period, group).rows[i];
      Get(r, "MCM Period") == Str(period)
      && Get(r, "audit_group_number") == Int(group)
      && Get(r, "audit_circle_number") == CircleCell(group)
      && (c != "MCM Period" && c != "audit_group_number" && c != "audit_circle_number" ==>
          Get(r, c) == Get(edited.rows[i], c))
  {
    PreparedRowUpdates(edited, period, group, i);
  }

  lemma PreparedRowUpdates(edited: Table, period: string, group: int, i: nat)
    requires WellFormed(edited) && edited.columns == EditorColumns
    requires i < |edited.rows|
    ensures Prepared(edited, period, group).rows[i]
      == edited.rows[i]["MCM Period" := Str(period)]["audit_group_number" := Int(group)]
                       ["audit_circle_number" := CircleCell(group)]
  {
  }

  /** A row as it goes to the sheet: the final columns in order, an absent one as None. */
  function SheetRow(row: Row): (r: seq<Cell>)
    ensures |r| == |FinalColumns|
    ensures forall j :: 0 <= j < |FinalColumns| ==> r[j] == Get(row, FinalColumns[j])
  {
    seq(|FinalColumns|, j requires 0 <= j < |FinalColumns| => Get(row, FinalColumns[j]))
  }

  /** What `session_state.get('pdf_drive_url_for_submission', 'URL Missing')` gives. */
  function UrlOrMissing(url: Option<string>): string {
    if url.Some? then url.value else "URL Missing"
  }

  /**
   * The rows appended for a prepared table: its own columns in the sheet's
   * order (None where a column is absent), then the URL and the creation
   * time.
   */
  function SheetRows(df: Table, url: Option<string>, created: string): (r: seq<seq<Cell>>)
    ensures |r| == |df.rows|
    ensures forall i :: 0 <= i < |r| ==> |r[i]| == |FinalColumns|
    ensures forall i, j :: 0 <= i < |r| && 0 <= j < |SheetColumns| ==>
      r[i][j] == Get(df.rows[i], SheetColumns[j])
    ensures forall i :: 0 <= i < |r| ==>
      r[i][|SheetColumns|] == Str(UrlOrMissing(url)) && r[i][|SheetColumns| + 1] == Str(created)
  {
    assert UrlColumn !in SheetColumns && CreatedColumn !in SheetColumns;
    seq(|df.rows|, i requires 0 <= i < |df.rows| =>
      SheetRow(df.rows[i][UrlColumn := Str(UrlOrMissing(url))][CreatedColumn := Str(created)]))
  }

  /**
   * Add the URL and the creation time to every row, add any final column
   * still missing as None, and read the rows out in the final order.
   */
  method ShapeForSheet(df: Table, url: Option<string>, created: string) returns (rows: seq<seq<Cell>>)
    requires WellFormed(df)
    ensures rows == SheetRows(df, url, created)
  {
    var t := SetColumn(df, UrlColumn, Str(UrlOrMissing(url)));
    t := SetColumn(t, CreatedColumn, Str(created));
    var filled := AddMissingColumns(t, FinalColumns);
    rows := seq(|filled.rows|, i requires 0 <= i < |filled.rows| => SheetRow(filled.rows[i]));
    forall i | 0 <= i < |rows| ensures rows[i] == SheetRows(df, url, created)[i] {
      var full := df.rows[i][UrlColumn := Str(UrlOrMissing(url))][CreatedColumn := Str(created)];
      assert full == t.rows[i];
      forall j | 0 <= j < |FinalColumns| ensures Get(filled.rows[i], FinalColumns[j]) == Get(full, FinalColumns[j]) {
      }
    }
  }

  /**
   * `for col in cols: if col not in df.columns: df[col] = None`: every
   * listed column is present afterwards, the cells already there are
   * kept and every added cell is None.
   */
  method AddMissingColumns(t0: Table, cols: seq<string>) returns (t: Table)
    requires WellFormed(t0)
    ensures WellFormed(t) && |t.rows| == |t0.rows|
    ensures forall c :: c in cols ==> c in t.columns
    ensures forall i :: 0 <= i < |t.rows| ==> t0.rows[i].Keys <= t.rows[i].Keys
    ensures forall i, c :: 0 <= i < |t.rows| && c in t0.rows[i] ==> t.rows[i][c] == t0.rows[i][c]
    ensures forall i, c :: 0 <= i < |t.rows| && c in t.rows[i] && c !in t0.rows[i] ==> t.rows[i][c] == Null
  {
    t := t0;
    for k := 0 to |cols|
      invariant WellFormed(t) && |t.rows| == |t0.rows|
      invariant forall j :: 0 <= j < k ==> cols[j] in t.columns
      invariant forall i :: 0 <= i < |t.rows| ==> t0.rows[i].Keys <= t.rows[i].Keys
      invariant forall i, c :: 0 <= i < |t.rows| && c in t0.rows[i] ==> t.rows[i][c] == t0.rows[i][c]
      invariant forall i, c :: 0 <= i < |t.rows| && c in t.rows[i] && c !in t0.rows[i] ==> t.rows[i][c] == Null
    {
      if cols[k] !in t.columns {
        t := SetColumn(t, cols[k], Null);
      }
    }
  }


  /** The master sheet's rows, as the append-only store the submission writes to. */
  class MasterSheet {
    var rows: seq<seq<Cell>>

    constructor(initial: seq<seq<Cell>>)
      ensures rows == initial
    {
      rows := initial;
    }

    /** Append all rows or, when the service call fails, none of them. */
    method Append(newRows: seq<seq<Cell>>, succeeds: bool) returns (ok: bool)
      modifies this
      ensures ok == succeeds
      ensures rows == if succeeds then old(rows) + newRows else old(rows)
    {
      if succeeds {
        rows := rows + newRows;
      }
      ok := succeeds;
    }
  }

  /**
   * "Validate and Submit": prepare the edited rows, validate them, and
   * append them only when validation finds nothing. `created` is the
   * clock's reading and `appendSucceeds` the outcome of the service call.
   * When the validator raises, the handler stops with that error and
   * nothing is written.
   */
  method Submit(sheet: MasterSheet, edited: Table, period: string, group: int,
                url: Option<string>, created: string, appendSucceeds: bool)
    returns (checked: Result<seq<string>, string>, appended: bool)
    requires WellFormed(edited) && edited.columns == EditorColumns
    modifies sheet
    ensures checked == Validation.ValidateAsWritten(Prepared(edited, period, group))
    ensures appended <==> checked == Ok([]) && appendSucceeds
    ensures !appended ==> sheet.rows == old(sheet.rows)
    ensures appended ==>
      sheet.rows == old(sheet.rows) + SheetRows(Prepared(edited, period, group), url, created)
  {
    var df := Prepared(edited, period, group);
    checked := Validation.ValidateDataForSheet(df);
    if checked != Ok([]) {
      return checked, false;
    }
    var rows := ShapeForSheet(df, url, created);
    appended := sheet.Append(rows, appendSucceeds);
  }

  /** An edited table with no rows is never appended: validation reports there is no data. */
  lemma EmptyEditorRejected(edited: Table, period: string, group: int)
    requires WellFormed(edited) && edited.columns == EditorColumns && |edited.rows| == 0
    ensures Validation.ValidateAsWritten(Prepared(edited, period, group)) == Ok([Validation.NoDataMessage])
  {
    Validation.EmptyTableMessage(Prepared(edited, period, group));
  }

  // ---------------------------------------------------------------------
  // Deleting one upload
  // ---------------------------------------------------------------------

  /** The index labels, from `from` on, of the rows whose URL equals `url`, in order. */
  function RowsWithUrl(rows: seq<Row>, url: Cell, from: nat): (r: seq<nat>)
    requires from <= |rows|
    ensures forall a, b :: 0 <= a < b < |r| ==> r[a] < r[b]
    ensures forall a :: 0 <= a < |r| ==> from <= r[a] < |rows|
    ensures forall i :: from <= i < |rows| ==> (i in r <==> PdEq(Get(rows[i], UrlColumn), url))
    decreases |rows| - from
  {
    if from == |rows| then []
    else
      var rest := RowsWithUrl(rows, url, from + 1);
      if PdEq(Get(rows[from], UrlColumn), url) then [from] + rest else rest
  }

  /**
   * Deleting the upload that row `start` belongs to selects that row and
   * every other row with its URL; when that URL is missing, nothing is
   * selected at all.
   */
  lemma DeleteSelection(rows: seq<Row>, start: nat)
    requires start < |rows|
    ensures var sel := RowsWithUrl(rows, Get(rows[start], UrlColumn), 0);
      (!IsNa(Get(rows[start], UrlColumn)) <==> start in sel)
      && (IsNa(Get(rows[start], UrlColumn)) ==> sel == [])
  {
    var sel := RowsWithUrl(rows, Get(rows[start], UrlColumn), 0);
    if IsNa(Get(rows[start], UrlColumn)) {
      assert forall a :: 0 <= a < |sel| ==> sel[a] in sel;
    }
  }
}
