/**
 * The allocation register of the audit tracker: the GSTIN format check,
 * the financial year of a date, the validation of an uploaded allocation
 * sheet with its all-or-nothing save, the reassignment of one taxpayer to
 * another group, and the two deletions. The register is a spreadsheet;
 * each operation reads it as a table, builds the new table and writes it
 * over the sheet.
 */
module Allocation {
  import opened Basics
  import opened Frames
  import Sheets

  // ---------------------------------------------------------------------
  // GSTIN format
  // ---------------------------------------------------------------------

  predicate Upper(c: char) {
    'A' <= c <= 'Z'
  }

  /** Fifteen characters: 2 digits, 5 capitals, 4 digits, a capital, one of [1-9A-Z], two of [A-Z0-9]. */
  predicate GstinShape(s: string)
    requires |s| == 15
  {
    IsDigit(s[0]) && IsDigit(s[1])
    && Upper(s[2]) && Upper(s[3]) && Upper(s[4]) && Upper(s[5]) && Upper(s[6])
    && IsDigit(s[7]) && IsDigit(s[8]) && IsDigit(s[9]) && IsDigit(s[10])
    && Upper(s[11])
    && (('1' <= s[12] <= '9') || Upper(s[12]))
    && (IsDigit(s[13]) || Upper(s[13]))
    && (IsDigit(s[14]) || Upper(s[14]))
  }

  /**
   * `validate_gstin`: the pattern ends in `$`, which also matches before
   * a final newline, so a GSTIN followed by "\n" passes too.
   */
  predicate ValidGstin(s: string) {
    (|s| == 15 && GstinShape(s)) || (|s| == 16 && s[15] == '\n' && GstinShape(s[..15]))
  }

  /** The caller strips the text first, so a GSTIN that passes has exactly fifteen characters. */
  lemma StrippedGstinHasFifteen(text: string)
    requires ValidGstin(Strip(text))
    ensures |Strip(text)| == 15 && GstinShape(Strip(text))
  {
  }

  /** The sample row of the upload template holds a well-formed GSTIN. */
  lemma TemplateGstinValid()
    ensures ValidGstin("12ABCDE1234F5GH")
    ensures !ValidGstin("") && !ValidGstin("12ABCDE1234F5G")
  {
    var g := "12ABCDE1234F5GH";
    assert GstinShape(g);
  }

  // ---------------------------------------------------------------------
  // Financial year
  // ---------------------------------------------------------------------

  /** The calendar year in which the financial year of a date begins: April starts a new one. */
  function FinancialYearStart(year: int, month: int): (y: int)
    requires 1 <= month <= 12
    ensures month >= 4 ==> y == year
    ensures month < 4 ==> y == year - 1
  {
    if month >= 4 then year else year - 1
  }

  /** `get_current_financial_year` for the given date: "Y-(Y+1)". */
  function FinancialYear(year: int, month: int): (r: string)
    requires 1 <= month <= 12
  {
    var y := FinancialYearStart(year, month);
    IntToString(y) + "-" + IntToString(y + 1)
  }

  /**
   * Two dates (from year 1 on) get the same financial year exactly when
   * their financial years begin in the same year: the text names its year.
   */
  lemma FinancialYearIdentifies(y1: int, m1: int, y2: int, m2: int)
    requires y1 >= 1 && y2 >= 1 && 1 <= m1 <= 12 && 1 <= m2 <= 12
    ensures FinancialYear(y1, m1) == FinancialYear(y2, m2)
      <==> FinancialYearStart(y1, m1) == FinancialYearStart(y2, m2)
  {
    var a := FinancialYearStart(y1, m1);
    var b := FinancialYearStart(y2, m2);
    if FinancialYear(y1, m1) == FinancialYear(y2, m2) {
      StartYearText(a);
      StartYearText(b);
      NatToStringValue(a);
      NatToStringValue(b);
    }
  }

  /** The text before the '-' is the starting year. */
  lemma StartYearText(y: nat)
    ensures UpTo(IntToString(y) + "-" + IntToString(y + 1), '-') == NatToString(y)
  {
    var d := NatToString(y);
    assert '-' !in d by {
      assert forall i :: 0 <= i < |d| ==> IsDigit(d[i]);
    }
    assert IntToString(y) + "-" + IntToString(y + 1) == d + ['-'] + IntToString(y + 1);
    UpToAt(d, IntToString(y + 1), '-');
  }

  /** January to March belong to the year that began the April before. */
  lemma FinancialYearSpansNewYear(year: int, early: int, late: int)
    requires 1 <= early <= 3 && 4 <= late <= 12
    ensures FinancialYear(year + 1, early) == FinancialYear(year, late)
    ensures FinancialYear(year, early) != FinancialYear(year, late) || year < 1
  {
    if year >= 1 {
      FinancialYearIdentifies(year, early, year, late);
    }
  }

  // ---------------------------------------------------------------------
  // Validating an uploaded allocation sheet
  // ---------------------------------------------------------------------

  const RequiredUploadColumns: seq<string> := ["GSTIN", "Trade Name", "Category", "Allocated Circle"]
  const Categories: seq<string> := ["Large", "Medium", "Small"]
  const GroupColumn := "Allocated Audit Group Number"

  function MissingColumnMessage(col: string): string {
    "Missing mandatory column in Excel: '" + col + "'"
  }

  /** One message per required column the upload lacks, in the order of the list. */
  function MissingColumnErrors(required: seq<string>, columns: seq<string>): (r: seq<string>)
    ensures |r| <= |required|
    ensures r == [] <==> forall c :: c in required ==> c in columns
    ensures forall c :: c in required && c !in columns ==> MissingColumnMessage(c) in r
    decreases |required|
  {
    if |required| == 0 then []
    else
      var init := MissingColumnErrors(required[..|required| - 1], columns);
      var last := required[|required| - 1];
      assert required == required[..|required| - 1] + [last];
      init + (if last in columns then [] else [MissingColumnMessage(last)])
  }

  /** The rowTag of the row with index i: spreadsheet row i + 2, below the header. */
  function RowLabel(index: nat): string {
    "Row " + NatToString(index + 2)
  }

  /** The uploaded GSTIN: `str(cell).strip()`. */
  function UploadedGstin(row: Row): string {
    Strip(Render(Get(row, "GSTIN")))
  }

  /**
   * The trade-name check as intended: an empty cell (read as NaN), None,
   * or empty text. See `TradeNameCheckAsWritten`.
   */
  predicate TradeNameMissing(c: Cell) {
    IsNa(c) || !Truthy(c)
  }

  /** The trade-name check as the upload code writes it: `not value`, which NaN passes. */
  predicate TradeNameMissingAsWritten(c: Cell) {
    !Truthy(c)
  }

  /**
   * An empty trade-name cell of a spreadsheet is read as NaN, and NaN is
   * true in Python, so the check as written lets it through; the two
   * checks agree on every value that is not missing.
   */
  lemma TradeNameCheckAsWritten(c: Cell)
    ensures !TradeNameMissingAsWritten(NaN) && TradeNameMissing(NaN)
    ensures !IsNa(c) ==> (TradeNameMissing(c) <==> TradeNameMissingAsWritten(c))
  {
  }

  /** Whether the register already holds this GSTIN for this financial year. */
  predicate InRegister(master: Table, gstin: string, finYear: string) {
    exists i :: 0 <= i < |master.rows|
      && PdEq(Get(master.rows[i], "Financial Year"), Str(finYear))
      && PdEq(Get(master.rows[i], "GSTIN"), Str(gstin))
  }

  /** The duplicate check runs only on a non-empty register with both key columns. */
  predicate CanCheckDuplicates(master: Table) {
    !IsEmpty(master) && "GSTIN" in master.columns && "Financial Year" in master.columns
  }

  /** A message about one row: its label, a colon, the problem. */
  function RowMessage(rowTag: string, problem: string): (r: string)
    ensures StartsWith(r, rowTag + ": ")
  {
    assert (rowTag + ": " + problem)[..|rowTag| + 2] == rowTag + ": ";
    rowTag + ": " + problem
  }

  /** What can be wrong with an uploaded row. */
  datatype Problem =
    | InvalidGstin(gstin: string)
    | TradeNameEmpty
    | BadCategory
    | CircleNotInteger
    | CircleOutOfRange
    | GroupNotInteger
    | GroupOutOfRange
    | AlreadyAllocated(gstin: string, finYear: string)

  /** The text the upload page shows for a problem, after the row label. */
  function ProblemText(p: Problem): string {
    match p
    case InvalidGstin(g) => "Invalid GSTIN format for '" + g + "'."
    case TradeNameEmpty => "'Trade Name' cannot be empty."
    case BadCategory => "'Category' must be one of 'Large', 'Medium', 'Small'."
    case CircleNotInteger => "'Allocated Circle' must be a valid integer."
    case CircleOutOfRange => "'Allocated Circle' must be an integer between 1 and 10."
    case GroupNotInteger => "'Allocated Audit Group Number' must be a valid integer."
    case GroupOutOfRange => "'Allocated Audit Group Number' must be an integer between 1 and 30."
    case AlreadyAllocated(g, fy) => "GSTIN '" + g + "' already exists for " + fy + ". Use the Reassign option to update."
  }

  /** The trade-name check as intended: a blank cell is reported as well. */
  function TradeNameProblems(c: Cell): (r: seq<Problem>)
    ensures |r| <= 1 && (r == [] <==> !TradeNameMissing(c))
  {
    if TradeNameMissing(c) then [TradeNameEmpty] else []
  }

  /** The trade-name check the upload loop runs: `if not row.get("Trade Name")`. */
  function TradeNameProblemsAsWritten(c: Cell): (r: seq<Problem>)
    ensures |r| <= 1 && (r == [] <==> Truthy(c))
  {
    if TradeNameMissingAsWritten(c) then [TradeNameEmpty] else []
  }

  function CategoryProblems(c: Cell): (r: seq<Problem>)
    ensures |r| <= 1 && (r == [] <==> c in [Str("Large"), Str("Medium"), Str("Small")])
  {
    if c.Str? && c.s in Categories then [] else [BadCategory]
  }

  function CircleProblems(c: Cell): (r: seq<Problem>)
    ensures |r| <= 1 && (r == [] <==> ToInt(c).Some? && 1 <= ToInt(c).value <= 10)
  {
    match ToInt(c)
    case None => [CircleNotInteger]
    case Some(n) => if 1 <= n <= 10 then [] else [CircleOutOfRange]
  }

  function GroupProblems(hasGroupColumn: bool, c: Cell): (r: seq<Problem>)
    ensures |r| <= 1
    ensures r == [] <==> !hasGroupColumn || IsNa(c) || (ToInt(c).Some? && 1 <= ToInt(c).value <= 30)
  {
    if !hasGroupColumn || IsNa(c) then []
    else match ToInt(c)
      case None => [GroupNotInteger]
      case Some(n) => if 1 <= n <= 30 then [] else [GroupOutOfRange]
  }

  function DuplicateProblems(master: Table, gstin: string, finYear: string): (r: seq<Problem>)
    ensures |r| <= 1 && (r == [] <==> !(CanCheckDuplicates(master) && InRegister(master, gstin, finYear)))
  {
    if CanCheckDuplicates(master) && InRegister(master, gstin, finYear) then [AlreadyAllocated(gstin, finYear)] else []
  }

  /**
   * The problems with one uploaded row: a malformed GSTIN is reported
   * alone; otherwise trade name, category, circle, group and the
   * duplicate check each add at most one.
   */
  function RowProblems(row: Row, hasGroupColumn: bool, master: Table, finYear: string): (r: seq<Problem>)
    ensures |r| <= 5
  {
    var gstin := UploadedGstin(row);
    if !ValidGstin(gstin) then [InvalidGstin(gstin)]
    else
      TradeNameProblemsAsWritten(Get(row, "Trade Name")) + CategoryProblems(Get(row, "Category"))
      + CircleProblems(Get(row, "Allocated Circle")) + GroupProblems(hasGroupColumn, Get(row, GroupColumn))
      + DuplicateProblems(master, gstin, finYear)
  }

  /** A row passes exactly when its GSTIN is well formed and every other check passes. */
  lemma RowAccepted(row: Row, hasGroupColumn: bool, master: Table, finYear: string)
    ensures RowProblems(row, hasGroupColumn, master, finYear) == [] <==>
      ValidGstin(UploadedGstin(row))
      && Truthy(Get(row, "Trade Name"))
      && Get(row, "Category") in [Str("Large"), Str("Medium"), Str("Small")]
      && ToInt(Get(row, "Allocated Circle")).Some? && 1 <= ToInt(Get(row, "Allocated Circle")).value <= 10
      && (!hasGroupColumn || IsNa(Get(row, GroupColumn))
          || (ToInt(Get(row, GroupColumn)).Some? && 1 <= ToInt(Get(row, GroupColumn)).value <= 30))
      && !(CanCheckDuplicates(master) && InRegister(master, UploadedGstin(row), finYear))
  {
    var gstin := UploadedGstin(row);
    if ValidGstin(gstin) {
      var a := TradeNameProblemsAsWritten(Get(row, "Trade Name"));
      var b := CategoryProblems(Get(row, "Category"));
      var c := CircleProblems(Get(row, "Allocated Circle"));
      var d := GroupProblems(hasGroupColumn, Get(row, GroupColumn));
      var e := DuplicateProblems(master, gstin, finYear);
      assert RowProblems(row, hasGroupColumn, master, finYear) == a + b + c + d + e;
      assert |a + b + c + d + e| == |a| + |b| + |c| + |d| + |e|;
    }
  }

  /**
   * A row whose trade-name cell was left blank (read as NaN) and that is
   * otherwise in order passes the upload check, although the intended
   * check reports it.
   */
  lemma BlankTradeNamePasses(row: Row, hasGroupColumn: bool, master: Table, finYear: string)
    requires Get(row, "Trade Name") == NaN
    requires ValidGstin(UploadedGstin(row))
    requires Get(row, "Category") == Str("Large")
    requires Get(row, "Allocated Circle") == Int(1)
    requires !hasGroupColumn
    requires IsEmpty(master)
    ensures RowProblems(row, hasGroupColumn, master, finYear) == []
    ensures TradeNameProblems(Get(row, "Trade Name")) == [TradeNameEmpty]
  {
    RowAccepted(row, hasGroupColumn, master, finYear);
  }

  /** Each problem, labelled with the row. */
  function Labelled(rowTag: string, problems: seq<Problem>): (r: seq<string>)
    ensures |r| == |problems|
    ensures forall j :: 0 <= j < |r| ==> r[j] == RowMessage(rowTag, ProblemText(problems[j]))
  {
    if problems == [] then [] else [RowMessage(rowTag, ProblemText(problems[0]))] + Labelled(rowTag, problems[1..])
  }

  /** The messages for the row with this index: every problem, labelled with the row. */
  function RowErrors(index: nat, row: Row, hasGroupColumn: bool, master: Table, finYear: string): (r: seq<string>)
  {
    Labelled(RowLabel(index), RowProblems(row, hasGroupColumn, master, finYear))
  }

  /** Every message about a row names that row, and there is one per problem. */
  lemma RowErrorsNameTheRow(index: nat, row: Row, hasGroupColumn: bool, master: Table, finYear: string, e: string)
    ensures |RowErrors(index, row, hasGroupColumn, master, finYear)| == |RowProblems(row, hasGroupColumn, master, finYear)|
    ensures e in RowErrors(index, row, hasGroupColumn, master, finYear) ==> StartsWith(e, RowLabel(index) + ": ")
  {
  }

  /** The messages for the rows, in order. */
  function RowsErrors(rows: seq<Row>, hasGroupColumn: bool, master: Table, finYear: string): seq<string>
    decreases |rows|
  {
    if |rows| == 0 then []
    else
      var init := rows[..|rows| - 1];
      RowsErrors(init, hasGroupColumn, master, finYear)
        + RowErrors(|rows| - 1, rows[|rows| - 1], hasGroupColumn, master, finYear)
  }

  /** Every message of an upload: missing columns stop the check before any row is looked at. */
  function UploadErrors(upload: Table, master: Table, finYear: string): seq<string> {
    var missing := MissingColumnErrors(RequiredUploadColumns, upload.columns);
    if missing != [] then missing
    else RowsErrors(upload.rows, GroupColumn in upload.columns, master, finYear)
  }

  /** An upload passes only if every one of its rows passes. */
  lemma {:induction false} UploadPassesOnlyIfEveryRowPasses(rows: seq<Row>, hasGroupColumn: bool, master: Table, finYear: string, i: nat)
    requires i < |rows|
    requires RowsErrors(rows, hasGroupColumn, master, finYear) == []
    ensures RowErrors(i, rows[i], hasGroupColumn, master, finYear) == []
    decreases |rows|
  {
    if i < |rows| - 1 {
      var init := rows[..|rows| - 1];
      UploadPassesOnlyIfEveryRowPasses(init, hasGroupColumn, master, finYear, i);
    }
  }

  /**
   * The validation loop: the missing columns first, then every row; a row
   * is kept when no message so far starts with its rowTag.
   */
  /** Whether some message starts with the given text. */
  predicate AnyStartsWith(messages: seq<string>, prefix: string)
    ensures messages == [] ==> !AnyStartsWith(messages, prefix)
  {
    exists e :: e in messages && StartsWith(e, prefix)
  }

  /** The loop over the required columns, one message per missing column. */
  method CheckRequiredColumns(columns: seq<string>) returns (errors: seq<string>)
    ensures errors == MissingColumnErrors(RequiredUploadColumns, columns)
  {
    errors := [];
    for k := 0 to |RequiredUploadColumns|
      invariant errors == MissingColumnErrors(RequiredUploadColumns[..k], columns)
    {
      assert RequiredUploadColumns[..k + 1][..k] == RequiredUploadColumns[..k];
      if RequiredUploadColumns[k] !in columns {
        errors := errors + [MissingColumnMessage(RequiredUploadColumns[k])];
      }
    }
    assert RequiredUploadColumns[..|RequiredUploadColumns|] == RequiredUploadColumns;
  }

  /** One more element of a prefix. */
  lemma PrefixSnoc<T>(s: seq<T>, i: nat)
    requires i < |s|
    ensures s[..i + 1] == s[..i] + [s[i]] && s[..i + 1][..i] == s[..i]
  {
  }

  /** The messages for one more row are those so far followed by the new row's. */
  lemma RowsErrorsSnoc(rows: seq<Row>, i: nat, hasGroup: bool, master: Table, finYear: string)
    requires i < |rows|
    ensures RowsErrors(rows[..i + 1], hasGroup, master, finYear)
      == RowsErrors(rows[..i], hasGroup, master, finYear) + RowErrors(i, rows[i], hasGroup, master, finYear)
    ensures rows[..i + 1] == rows[..i] + [rows[i]]
  {
    PrefixSnoc(rows, i);
  }

  /**
   * The loop over the rows of an upload that has every required column:
   * a row is kept when no message so far starts with its label.
   */
  method CheckRows(rows: seq<Row>, hasGroup: bool, master: Table, finYear: string) returns (errors: seq<string>, validRows: seq<Row>)
    ensures errors == RowsErrors(rows, hasGroup, master, finYear)
    ensures errors == [] ==> validRows == rows
  {
    errors := [];
    validRows := [];
    for i := 0 to |rows|
      invariant errors == RowsErrors(rows[..i], hasGroup, master, finYear)
      invariant errors == [] ==> validRows == rows[..i]
    {
      RowsErrorsSnoc(rows, i, hasGroup, master, finYear);
      errors := errors + RowErrors(i, rows[i], hasGroup, master, finYear);
      if !AnyStartsWith(errors, RowLabel(i)) {
        validRows := validRows + [rows[i]];
      }
    }
    assert rows[..|rows|] == rows;
  }

  /** The validation of an upload: the missing columns stop it before any row is looked at. */
  method ValidateUpload(upload: Table, master: Table, finYear: string) returns (errors: seq<string>, validRows: seq<Row>)
    ensures errors == UploadErrors(upload, master, finYear)
    ensures errors == [] ==> validRows == upload.rows
  {
    errors := CheckRequiredColumns(upload.columns);
    validRows := [];
    if errors != [] {
      return;
    }
    errors, validRows := CheckRows(upload.rows, GroupColumn in upload.columns, master, finYear);
  }

  // ---------------------------------------------------------------------
  // Saving an upload
  // ---------------------------------------------------------------------

  const AllocationFields: seq<string> := [
    "Financial Year", "Allocated Date", "Uploaded Date", "Office Order PDF Path",
    "Reassigned Flag", "Old Group Number", "Old Circle Number"]

  /** An uploaded row as saved: the year, dates and order link set, not reassigned, no old numbers. */
  function SavedRow(row: Row, finYear: string, allocDate: string, uploadedAt: string, pdfUrl: string): Row {
    row["Financial Year" := Str(finYear)]["Allocated Date" := Str(allocDate)]
      ["Uploaded Date" := Str(uploadedAt)]["Office Order PDF Path" := Str(pdfUrl)]
      ["Reassigned Flag" := Bool(false)]["Old Group Number" := Null]["Old Circle Number" := Null]
  }

  /** Every uploaded row as saved, in order. */
  function SavedRows(rows: seq<Row>, finYear: string, allocDate: string, uploadedAt: string, pdfUrl: string): (r: seq<Row>)
    ensures |r| == |rows|
    ensures forall i :: 0 <= i < |rows| ==> r[i] == SavedRow(rows[i], finYear, allocDate, uploadedAt, pdfUrl)
  {
    seq(|rows|, i requires 0 <= i < |rows| => SavedRow(rows[i], finYear, allocDate, uploadedAt, pdfUrl))
  }

  /** The register after an upload: the old rows, then the uploaded rows as saved. */
  function RegisterWithUpload(master: Table, upload: Table, finYear: string, allocDate: string, uploadedAt: string, pdfUrl: string): (t: Table)
    ensures |t.rows| == |master.rows| + |upload.rows|
  {
    var newColumns := Union(if |upload.rows| == 0 then [] else upload.columns, AllocationFields);
    Table(Union(master.columns, newColumns), master.rows + SavedRows(upload.rows, finYear, allocDate, uploadedAt, pdfUrl))
  }

  lemma AppendParts<T>(a: seq<T>, b: seq<T>)
    ensures |a + b| == |a| + |b| && (a + b)[..|a|] == a
    ensures forall i :: 0 <= i < |b| ==> (a + b)[|a| + i] == b[i]
  {
  }

  /**
   * Saving an upload keeps the register's rows in front and appends every
   * uploaded row, marked with the year, dates and order link.
   */
  lemma UploadAppendsRows(master: Table, upload: Table, finYear: string, allocDate: string, uploadedAt: string, pdfUrl: string)
    ensures var t := RegisterWithUpload(master, upload, finYear, allocDate, uploadedAt, pdfUrl);
      |t.rows| == |master.rows| + |upload.rows|
      && t.rows[..|master.rows|] == master.rows
      && (forall i :: 0 <= i < |upload.rows| ==>
            t.rows[|master.rows| + i] == SavedRow(upload.rows[i], finYear, allocDate, uploadedAt, pdfUrl))
  {
    AppendParts(master.rows, SavedRows(upload.rows, finYear, allocDate, uploadedAt, pdfUrl));
  }

  /**
   * The register keeps its columns in front and gains the allocation
   * fields and, when rows were uploaded, the upload's columns.
   */
  lemma UploadColumns(master: Table, upload: Table, finYear: string, allocDate: string, uploadedAt: string, pdfUrl: string, c: string)
    ensures var t := RegisterWithUpload(master, upload, finYear, allocDate, uploadedAt, pdfUrl);
      t.columns[..|master.columns|] == master.columns
      && (c in t.columns <==> c in master.columns || c in AllocationFields || (|upload.rows| > 0 && c in upload.columns))
  {
  }

  /** A saved row keeps every uploaded cell outside the fields the save sets. */
  lemma SavedRowFields(row: Row, finYear: string, allocDate: string, uploadedAt: string, pdfUrl: string, k: string)
    ensures Get(SavedRow(row, finYear, allocDate, uploadedAt, pdfUrl), "Reassigned Flag") == Bool(false)
    ensures Get(SavedRow(row, finYear, allocDate, uploadedAt, pdfUrl), "Old Group Number") == Null
    ensures Get(SavedRow(row, finYear, allocDate, uploadedAt, pdfUrl), "Financial Year") == Str(finYear)
    ensures k !in AllocationFields ==> Get(SavedRow(row, finYear, allocDate, uploadedAt, pdfUrl), k) == Get(row, k)
  {
  }

  /**
   * `process_allocation_upload`: nothing is written unless every check
   * passes and the office order was stored; then the register is written
   * with the uploaded rows appended.
   */
  method ProcessAllocationUpload(sheet: Sheets.Spreadsheet, upload: Table, master: Table, finYear: string,
                                 allocDate: string, uploadedAt: string, pdfUrl: string, outcome: Sheets.WriteOutcome)
    returns (errors: seq<string>, saved: bool)
    modifies sheet
    ensures errors == UploadErrors(upload, master, finYear)
    ensures errors != [] || pdfUrl == "" ==> !saved && sheet.values == old(sheet.values)
    ensures errors == [] && pdfUrl != "" ==>
      (saved <==> outcome.Written?)
      && sheet.values == Sheets.AfterWrite(old(sheet.values),
           RegisterWithUpload(master, upload, finYear, allocDate, uploadedAt, pdfUrl), outcome)
  {
    var validRows;
    errors, validRows := ValidateUpload(upload, master, finYear);
    if errors != [] || pdfUrl == "" {
      return errors, false;
    }
    var newRows := Table(upload.columns, validRows);
    saved := sheet.UpdateFromTable(RegisterWithUpload(master, newRows, finYear, allocDate, uploadedAt, pdfUrl), outcome);
  }

  // ---------------------------------------------------------------------
  // Reassignment
  // ---------------------------------------------------------------------

  predicate Matches(row: Row, gstin: Cell, finYear: Cell) {
    PdEq(Get(row, "GSTIN"), gstin) && PdEq(Get(row, "Financial Year"), finYear)
  }

  /** The position of the first row from `from` on with this GSTIN and year. */
  function FirstMatch(rows: seq<Row>, gstin: Cell, finYear: Cell, from: nat): (r: Option<nat>)
    requires from <= |rows|
    ensures r.Some? ==> from <= r.value < |rows| && Matches(rows[r.value], gstin, finYear)
    ensures r.Some? ==> forall j :: from <= j < r.value ==> !Matches(rows[j], gstin, finYear)
    ensures r.None? ==> forall j :: from <= j < |rows| ==> !Matches(rows[j], gstin, finYear)
    decreases |rows| - from
  {
    if from == |rows| then None
    else if Matches(rows[from], gstin, finYear) then Some(from)
    else FirstMatch(rows, gstin, finYear, from + 1)
  }

  /** The row after reassignment: the old numbers kept aside, the new ones, date and order link set. */
  function ReassignedRow(row: Row, details: Row, newGroup: Cell, newCircle: Cell, reallocDate: string, pdfUrl: string): Row {
    row["Reassigned Flag" := Bool(true)]
      ["Old Group Number" := Get(details, GroupColumn)]["Old Circle Number" := Get(details, "Allocated Circle")]
      [GroupColumn := newGroup]["Allocated Circle" := newCircle]
      ["Allocated Date" := Str(reallocDate)]["Office Order PDF Path" := Str(pdfUrl)]
  }

  const ReassignFields: seq<string> := [
    "Reassigned Flag", "Old Group Number", "Old Circle Number", GroupColumn,
    "Allocated Circle", "Allocated Date", "Office Order PDF Path"]

  /** The columns after the reassignment fields are assigned in turn: the missing ones are added in that order. */
  function ReassignedColumns(columns: seq<string>): seq<string>
  {
    AddColumn(AddColumn(AddColumn(AddColumn(AddColumn(AddColumn(AddColumn(columns,
      "Reassigned Flag"), "Old Group Number"), "Old Circle Number"), GroupColumn),
      "Allocated Circle"), "Allocated Date"), "Office Order PDF Path")
  }

  function Reassigned(master: Table, i: nat, details: Row, newGroup: Cell, newCircle: Cell, reallocDate: string, pdfUrl: string): (t: Table)
    requires i < |master.rows|
    ensures |t.rows| == |master.rows|
  {
    Table(ReassignedColumns(master.columns),
          master.rows[i := ReassignedRow(master.rows[i], details, newGroup, newCircle, reallocDate, pdfUrl)])
  }

  /** Reassignment rewrites one row only: every other row is as it was. */
  lemma ReassignKeepsOtherRows(master: Table, i: nat, details: Row, newGroup: Cell, newCircle: Cell,
                               reallocDate: string, pdfUrl: string, j: nat)
    requires i < |master.rows| && j < |master.rows| && j != i
    ensures Reassigned(master, i, details, newGroup, newCircle, reallocDate, pdfUrl).rows[j] == master.rows[j]
  {
  }

  /**
   * In the rewritten row the old group and circle are kept aside, the new
   * ones are set, and every field outside the reassignment is as it was.
   */
  lemma ReassignedRowFields(row: Row, details: Row, newGroup: Cell, newCircle: Cell, reallocDate: string, pdfUrl: string, k: string)
    ensures var r := ReassignedRow(row, details, newGroup, newCircle, reallocDate, pdfUrl);
      Get(r, "Reassigned Flag") == Bool(true)
      && Get(r, "Old Group Number") == Get(details, GroupColumn)
      && Get(r, "Old Circle Number") == Get(details, "Allocated Circle")
      && Get(r, GroupColumn) == newGroup && Get(r, "Allocated Circle") == newCircle
      && Get(r, "Office Order PDF Path") == Str(pdfUrl)
      && (k !in ReassignFields ==> Get(r, k) == Get(row, k))
  {
  }

  datatype ReassignStatus = KeyMissing | NotFound | UploadFailed | Saved | SaveFailed

  /**
   * `process_reassignment` on the register as read into `frame`: find the
   * first row with the record's GSTIN and year, set its fields one by one
   * in place, and write the frame back. A register or record without
   * those keys raises before anything changes. (The read itself never
   * yields None: on failure it gives an empty table, which has no keys.)
   */
  method ProcessReassignment(sheet: Sheets.Spreadsheet, frame: DataFrame, details: Row, newGroup: Cell, newCircle: Cell,
                             reallocDate: string, pdfUrl: string, outcome: Sheets.WriteOutcome)
    returns (status: ReassignStatus)
    modifies sheet, frame
    ensures status.KeyMissing? <==>
      "GSTIN" !in old(frame.columns) || "Financial Year" !in old(frame.columns) || "GSTIN" !in details || "Financial Year" !in details
    ensures !status.KeyMissing? ==>
      var found := FirstMatch(old(frame.rows), details["GSTIN"], details["Financial Year"], 0);
      (status.NotFound? <==> found.None?)
      && (found.Some? ==> (status.UploadFailed? <==> pdfUrl == ""))
      && (found.Some? && pdfUrl != "" ==>
            frame.Snapshot() == Reassigned(old(frame.Snapshot()), found.value, details, newGroup, newCircle, reallocDate, pdfUrl)
            && (status.Saved? <==> outcome.Written?)
            && sheet.values == Sheets.AfterWrite(old(sheet.values), frame.Snapshot(), outcome))
    ensures !status.Saved? && !status.SaveFailed? ==>
      sheet.values == old(sheet.values) && frame.Snapshot() == old(frame.Snapshot())
  {
    if "GSTIN" !in frame.columns || "Financial Year" !in frame.columns || "GSTIN" !in details || "Financial Year" !in details {
      return KeyMissing;
    }
    var found := FirstMatch(frame.rows, details["GSTIN"], details["Financial Year"], 0);
    if found.None? {
      return NotFound;
    }
    if pdfUrl == "" {
      return UploadFailed;
    }
    RewriteRow(frame, found.value, details, newGroup, newCircle, reallocDate, pdfUrl);
    var ok := sheet.UpdateFromTable(frame.Snapshot(), outcome);
    status := if ok then Saved else SaveFailed;
  }

  /** The seven `.loc` assignments to the found row. */
  method RewriteRow(frame: DataFrame, i: nat, details: Row, newGroup: Cell, newCircle: Cell, reallocDate: string, pdfUrl: string)
    requires i < |frame.rows|
    modifies frame
    ensures frame.Snapshot() == Reassigned(old(frame.Snapshot()), i, details, newGroup, newCircle, reallocDate, pdfUrl)
  {
    RecordOldAllocation(frame, i, details);
    AssignNewAllocation(frame, i, newGroup, newCircle, reallocDate, pdfUrl);
  }

  /** The first three assignments: the flag and the group and circle the case had before. */
  method RecordOldAllocation(frame: DataFrame, i: nat, details: Row)
    requires i < |frame.rows|
    modifies frame
    ensures frame.rows == old(frame.rows)[i := old(frame.rows)[i]["Reassigned Flag" := Bool(true)]
      ["Old Group Number" := Get(details, GroupColumn)]["Old Circle Number" := Get(details, "Allocated Circle")]]
    ensures frame.columns == AddColumn(AddColumn(AddColumn(old(frame.columns),
      "Reassigned Flag"), "Old Group Number"), "Old Circle Number")
  {
    frame.SetAt(i, "Reassigned Flag", Bool(true));
    frame.SetAt(i, "Old Group Number", Get(details, GroupColumn));
    frame.SetAt(i, "Old Circle Number", Get(details, "Allocated Circle"));
  }

  /** The last four assignments: the new group, circle, date and office order. */
  method AssignNewAllocation(frame: DataFrame, i: nat, newGroup: Cell, newCircle: Cell, reallocDate: string, pdfUrl: string)
    requires i < |frame.rows|
    modifies frame
    ensures frame.rows == old(frame.rows)[i := old(frame.rows)[i][GroupColumn := newGroup]["Allocated Circle" := newCircle]
      ["Allocated Date" := Str(reallocDate)]["Office Order PDF Path" := Str(pdfUrl)]]
    ensures frame.columns == AddColumn(AddColumn(AddColumn(AddColumn(old(frame.columns),
      GroupColumn), "Allocated Circle"), "Allocated Date"), "Office Order PDF Path")
  {
    frame.SetAt(i, GroupColumn, newGroup);
    frame.SetAt(i, "Allocated Circle", newCircle);
    frame.SetAt(i, "Allocated Date", Str(reallocDate));
    frame.SetAt(i, "Office Order PDF Path", Str(pdfUrl));
  }

  /** The register gains exactly the reassignment fields it lacked, after its own columns. */
  lemma ReassignAddsFields(columns: seq<string>, c: string)
    ensures |ReassignedColumns(columns)| >= |columns|
    ensures c in ReassignedColumns(columns) <==> c in columns || c in ReassignFields
  {
    var c1 := AddColumn(columns, "Reassigned Flag");
    var c2 := AddColumn(c1, "Old Group Number");
    var c3 := AddColumn(c2, "Old Circle Number");
    var c4 := AddColumn(c3, GroupColumn);
    var c5 := AddColumn(c4, "Allocated Circle");
    var c6 := AddColumn(c5, "Allocated Date");
    var c7 := AddColumn(c6, "Office Order PDF Path");
    AddColumnKeeps(columns, "Reassigned Flag");
    AddColumnKeeps(c1, "Old Group Number");
    AddColumnKeeps(c2, "Old Circle Number");
    AddColumnKeeps(c3, GroupColumn);
    AddColumnKeeps(c4, "Allocated Circle");
    AddColumnKeeps(c5, "Allocated Date");
    AddColumnKeeps(c6, "Office Order PDF Path");
    assert c7 == ReassignedColumns(columns);
  }

  // ---------------------------------------------------------------------
  // Deletions
  // ---------------------------------------------------------------------

  /** The rows kept when a batch is deleted: every row whose upload time differs. */
  function WithoutBatch(rows: seq<Row>, uploadedAt: Cell): (r: seq<Row>)
    ensures |r| <= |rows|
    ensures forall x :: x in r <==> x in rows && !PdEq(Get(x, "Uploaded Date"), uploadedAt)
    decreases |rows|
  {
    if |rows| == 0 then []
    else
      var init := rows[..|rows| - 1];
      var last := rows[|rows| - 1];
      assert rows == init + [last];
      WithoutBatch(init, uploadedAt) + (if PdEq(Get(last, "Uploaded Date"), uploadedAt) then [] else [last])
  }

  /** The mask of the batch deletion: the rows uploaded at another time. */
  function OtherBatch(uploadedAt: Cell): Row -> bool {
    x => !PdEq(Get(x, "Uploaded Date"), uploadedAt)
  }

  /** The rows kept are the masked rows: in their order, repeats kept. */
  lemma {:induction false} WithoutBatchIsMask(rows: seq<Row>, uploadedAt: Cell)
    ensures WithoutBatch(rows, uploadedAt) == Masked(rows, OtherBatch(uploadedAt))
    decreases |rows|
  {
    if |rows| > 0 {
      WithoutBatchIsMask(rows[..|rows| - 1], uploadedAt);
      MaskedSnoc(rows, OtherBatch(uploadedAt));
    }
  }

  /**
   * The batch is picked by year, time and order link, but the deletion
   * matches the time alone: a row of another year uploaded at the same
   * time goes too.
   */
  lemma BatchDeletionMatchesTimeOnly(rows: seq<Row>, uploadedAt: Cell, x: Row)
    requires x in rows && PdEq(Get(x, "Uploaded Date"), uploadedAt)
    ensures x !in WithoutBatch(rows, uploadedAt)
  {
  }

  predicate GstinRecord(row: Row, gstin: string, finYear: Cell) {
    PdEq(Get(row, "GSTIN"), Str(Strip(gstin))) && PdEq(Get(row, "Financial Year"), finYear)
  }

  /** The rows kept when one GSTIN's record for a year is deleted. */
  function WithoutGstin(rows: seq<Row>, gstin: string, finYear: Cell): (r: seq<Row>)
    ensures |r| <= |rows|
    ensures forall x :: x in r <==> x in rows && !GstinRecord(x, gstin, finYear)
    ensures (forall x :: x in rows ==> !GstinRecord(x, gstin, finYear)) ==> r == rows
    decreases |rows|
  {
    if |rows| == 0 then []
    else
      var init := rows[..|rows| - 1];
      var last := rows[|rows| - 1];
      assert rows == init + [last];
      WithoutGstin(init, gstin, finYear) + (if GstinRecord(last, gstin, finYear) then [] else [last])
  }

  /** The mask of the GSTIN deletion: the rows that are not that GSTIN's record for the year. */
  function OtherRecord(gstin: string, finYear: Cell): Row -> bool {
    x => !GstinRecord(x, gstin, finYear)
  }

  /** The rows written back are the masked rows: in their order, repeats kept. */
  lemma {:induction false} WithoutGstinIsMask(rows: seq<Row>, gstin: string, finYear: Cell)
    ensures WithoutGstin(rows, gstin, finYear) == Masked(rows, OtherRecord(gstin, finYear))
    decreases |rows|
  {
    if |rows| > 0 {
      WithoutGstinIsMask(rows[..|rows| - 1], gstin, finYear);
      MaskedSnoc(rows, OtherRecord(gstin, finYear));
    }
  }

  datatype DeleteStatus = NotRequested | NothingFound | Deleted | DeleteFailed

  /**
   * Deleting one GSTIN for a year: nothing happens without both inputs,
   * nothing is written when no row matches, otherwise the register is
   * written without the matching rows.
   */
  method DeleteGstin(sheet: Sheets.Spreadsheet, master: Table, gstin: string, finYear: Cell, outcome: Sheets.WriteOutcome)
    returns (status: DeleteStatus)
    modifies sheet
    ensures status.NotRequested? <==> gstin == "" || !Truthy(finYear)
    ensures !status.NotRequested? ==>
      (status.NothingFound? <==> forall x :: x in master.rows ==> !GstinRecord(x, gstin, finYear))
    ensures status.NotRequested? || status.NothingFound? ==> sheet.values == old(sheet.values)
    ensures status.Deleted? || status.DeleteFailed? ==>
      (status.Deleted? <==> outcome.Written?)
      && sheet.values == Sheets.AfterWrite(old(sheet.values), Table(master.columns, WithoutGstin(master.rows, gstin, finYear)), outcome)
  {
    if gstin == "" || !Truthy(finYear) {
      return NotRequested;
    }
    var kept := WithoutGstin(master.rows, gstin, finYear);
    if |kept| == |master.rows| {
      if exists x :: x in master.rows && GstinRecord(x, gstin, finYear) {
        var x :| x in master.rows && GstinRecord(x, gstin, finYear);
        assert x !in kept;
        KeptSameLength(master.rows, gstin, finYear);
      }
      return NothingFound;
    }
    var ok := sheet.UpdateFromTable(Table(master.columns, kept), outcome);
    status := if ok then Deleted else DeleteFailed;
  }

  /** Keeping as many rows as there were means keeping all of them. */
  lemma {:induction false} KeptSameLength(rows: seq<Row>, gstin: string, finYear: Cell)
    requires |WithoutGstin(rows, gstin, finYear)| == |rows|
    ensures WithoutGstin(rows, gstin, finYear) == rows
    decreases |rows|
  {
    if |rows| > 0 {
      var init := rows[..|rows| - 1];
      assert |WithoutGstin(init, gstin, finYear)| <= |init|;
      KeptSameLength(init, gstin, finYear);
      assert rows == init + [rows[|rows| - 1]];
    }
  }
}
