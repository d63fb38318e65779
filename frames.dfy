/**
 * The slice of pandas the system leans on: a cell holds one of the values
 * a DataFrame column can hold, a row maps column names to cells, and a
 * table is a column list with its rows. The Python operations applied to
 * single cells (`pd.isna`, `str()`, truthiness, `int()`) are spelled out
 * here once.
 */
module Frames {
  import opened Basics
  import Sorting

  /**
   * A Python float: its value, and the text `str()` prints for it. The
   * shortest-round-trip printing algorithm is not modelled, so the text is
   * carried alongside the value.
   */
  datatype Float = Float(value: real, text: string)

  /** A DataFrame cell. `Null` is Python's None, `NaN` is float('nan') / pd.NA. */
  datatype Cell = Null | NaN | Bool(b: bool) | Int(i: int) | Num(f: Float) | Str(s: string)

  type Row = map<string, Cell>

  /** A DataFrame: its columns in order, and its rows (row i has index label i). */
  datatype Table = Table(columns: seq<string>, rows: seq<Row>)

  /** `pd.isna(c)` */
  predicate IsNa(c: Cell) {
    c.Null? || c.NaN?
  }

  /** `row.get(key)`: None when the row has no such column. */
  function Get(row: Row, key: string): Cell {
    if key in row then row[key] else Null
  }

  /** `df.empty`: no rows or no columns. */
  predicate IsEmpty(t: Table) {
    |t.rows| == 0 || |t.columns| == 0
  }

  /** `str(c)` */
  function Render(c: Cell): string {
    match c
    case Null => "None"
    case NaN => "nan"
    case Bool(b) => if b then "True" else "False"
    case Int(i) => IntToString(i)
    case Num(f) => f.text
    case Str(s) => s
  }

  /** `bool(c)`: note that NaN is truthy in Python. */
  predicate Truthy(c: Cell) {
    match c
    case Null => false
    case NaN => true
    case Bool(b) => b
    case Int(i) => i != 0
    case Num(f) => f.value != 0.0
    case Str(s) => s != ""
  }

  /** Truncation toward zero, as Python's `int(x)` does for a float. */
  function Trunc(x: real): (r: int)
    ensures x >= 0.0 ==> r as real <= x < r as real + 1.0
    ensures x < 0.0 ==> r as real - 1.0 < x <= r as real
  {
    if x >= 0.0 then x.Floor else -((-x).Floor)
  }

  /**
   * `int(c)`, or None where Python raises ValueError or TypeError
   * (None, NaN, text that is not an integer literal).
   */
  function ToInt(c: Cell): (r: Option<int>)
    ensures c.Int? ==> r == Some(c.i)
    ensures IsNa(c) ==> r.None?
  {
    match c
    case Null => None
    case NaN => None
    case Bool(b) => Some(if b then 1 else 0)
    case Int(i) => Some(i)
    case Num(f) => Some(Trunc(f.value))
    case Str(s) => ParseInt(s)
  }

  /**
   * Element-wise `==` between a column and a value, as pandas evaluates
   * it: a missing value (None or NaN) never compares equal. Python's
   * equality between an int and an equal float is not modelled.
   */
  predicate PdEq(a: Cell, b: Cell) {
    !IsNa(a) && !IsNa(b) && a == b
  }

  // ---------------------------------------------------------------------
  // Boolean masks
  // ---------------------------------------------------------------------

  /**
   * The index labels a boolean mask selects: the positions of the rows
   * that pass `keep`, in ascending order.
   */
  function MaskPositions<T>(s: seq<T>, keep: T -> bool): (r: seq<nat>)
    ensures forall j :: 0 <= j < |r| ==> r[j] < |s| && keep(s[r[j]])
    ensures forall a, b :: 0 <= a < b < |r| ==> r[a] < r[b]
    ensures forall i :: 0 <= i < |s| && keep(s[i]) ==> i in r
    decreases |s|
  {
    if |s| == 0 then []
    else MaskPositions(s[..|s| - 1], keep) + (if keep(s[|s| - 1]) then [|s| - 1] else [])
  }

  /** `df.loc[idx]`: the rows at the given positions, in that order. */
  function Select<T>(s: seq<T>, idx: seq<nat>): (r: seq<T>)
    requires forall j :: 0 <= j < |idx| ==> idx[j] < |s|
    ensures |r| == |idx| && forall j :: 0 <= j < |idx| ==> r[j] == s[idx[j]]
  {
    seq(|idx|, j requires 0 <= j < |idx| => s[idx[j]])
  }

  /** `df[mask]`: the rows that pass `keep`, in their order, repeats kept. */
  function Masked<T>(s: seq<T>, keep: T -> bool): seq<T> {
    Select(s, MaskPositions(s, keep))
  }

  /** Masking one more row adds it at the end exactly when it passes. */
  lemma MaskedSnoc<T>(s: seq<T>, keep: T -> bool)
    requires |s| > 0
    ensures Masked(s, keep) == Masked(s[..|s| - 1], keep) + (if keep(s[|s| - 1]) then [s[|s| - 1]] else [])
  {
    var init := s[..|s| - 1];
    var p := MaskPositions(init, keep);
    var r := Masked(s, keep);
    var q := Masked(init, keep);
    assert MaskPositions(s, keep) == p + (if keep(s[|s| - 1]) then [|s| - 1] else []);
    forall j | 0 <= j < |p| ensures r[j] == q[j] {
      assert s[p[j]] == init[p[j]];
    }
  }

  // ---------------------------------------------------------------------
  // A DataFrame built from records
  // ---------------------------------------------------------------------

  /** Every row has exactly the table's columns. */
  predicate WellFormed(t: Table) {
    forall i :: 0 <= i < |t.rows| ==> t.rows[i].Keys == Sorting.Elems(t.columns)
  }

  /** `float(i)`, with the text `str()` prints for it when |i| < 10^16. */
  function IntAsFloat(i: int): (f: Float)
    ensures f.value == i as real
  {
    Float(i as real, IntToString(i) + ".0")
  }

  predicate IsNumber(c: Cell) {
    c.Int? || c.Num?
  }

  /** The number a cell holds, whether stored as an int or as a float. */
  function NumberOf(c: Cell): (r: Option<real>)
    ensures r.Some? <==> IsNumber(c)
  {
    match c
    case Int(i) => Some(i as real)
    case Num(f) => Some(f.value)
    case _ => None
  }

  /**
   * The type pandas infers for a column of Python objects is float64
   * exactly when every cell is a number or missing, at least one is a
   * number, and not all are ints; any other column keeps its objects
   * (an all-int column stays int64).
   */
  predicate FloatColumn(cells: seq<Cell>) {
    (forall j :: 0 <= j < |cells| ==> IsNumber(cells[j]) || IsNa(cells[j]))
    && (exists j :: 0 <= j < |cells| && IsNumber(cells[j]))
    && (exists j :: 0 <= j < |cells| && !cells[j].Int?)
  }

  /** A cell stored in a float64 column: an int widens to a float, None becomes NaN. */
  function AsFloat(c: Cell): (r: Cell)
    ensures IsNa(r) <==> IsNa(c)
    ensures NumberOf(r) == NumberOf(c)
    ensures IsNumber(c) ==> r.Num?
    ensures !IsNumber(c) && !IsNa(c) ==> r == c
  {
    match c
    case Int(i) => Num(IntAsFloat(i))
    case Null => NaN
    case _ => c
  }

  /** Column `c` of the records before its type is chosen: NaN where a record lacks the key. */
  function ColumnCells(rows: seq<Row>, c: string): seq<Cell> {
    seq(|rows|, i requires 0 <= i < |rows| => if c in rows[i] then rows[i][c] else NaN)
  }

  /** Cell (i, c) of `pd.DataFrame(rows)`: record i's value, or NaN, stored as column c's type. */
  function RecordCell(rows: seq<Row>, i: nat, c: string): Cell
    requires i < |rows|
  {
    var v := if c in rows[i] then rows[i][c] else NaN;
    if FloatColumn(ColumnCells(rows, c)) then AsFloat(v) else v
  }

  /**
   * `pd.DataFrame(rows)[cols]`, once every column of `cols` exists: one
   * row per record, every cell of `cols` present.
   */
  function FromRecords(rows: seq<Row>, cols: seq<string>): (t: Table)
    ensures t.columns == cols && |t.rows| == |rows| && WellFormed(t)
  {
    Table(cols, seq(|rows|, i requires 0 <= i < |rows| => map c | c in Sorting.Elems(cols) :: RecordCell(rows, i, c)))
  }

  /**
   * A cell of a DataFrame built from records holds the record's value:
   * NaN where the record lacks the key, missing exactly where the value
   * is, the same number (as an int or widened to a float), and any other
   * value unchanged.
   */
  lemma RecordCellKeepsValue(rows: seq<Row>, cols: seq<string>, i: nat, c: string)
    requires i < |rows| && c in cols
    ensures var cell := FromRecords(rows, cols).rows[i][c];
      && (c !in rows[i] ==> cell == NaN)
      && (c in rows[i] ==>
            (IsNa(cell) <==> IsNa(rows[i][c]))
            && NumberOf(cell) == NumberOf(rows[i][c])
            && (cell == rows[i][c] || cell == AsFloat(rows[i][c]))
            && (!IsNumber(rows[i][c]) && !IsNa(rows[i][c]) ==> cell == rows[i][c]))
  {
    assert FromRecords(rows, cols).rows[i][c] == RecordCell(rows, i, c);
  }

  /**
   * The column's type decides the cell: it is widened exactly when the
   * column, over all the records, is float64.
   */
  lemma RecordCellTyped(rows: seq<Row>, cols: seq<string>, i: nat, c: string)
    requires i < |rows| && c in cols && c in rows[i]
    ensures FromRecords(rows, cols).rows[i][c] == rows[i][c] <==> !FloatColumn(ColumnCells(rows, c)) || rows[i][c] == AsFloat(rows[i][c])
  {
    assert FromRecords(rows, cols).rows[i][c] == RecordCell(rows, i, c);
  }

  /** A column holding one value in every record keeps that value. */
  lemma UniformColumnKept(rows: seq<Row>, cols: seq<string>, c: string, v: Cell, i: nat)
    requires i < |rows| && c in cols
    requires forall j :: 0 <= j < |rows| ==> c in rows[j] && rows[j][c] == v
    ensures FromRecords(rows, cols).rows[i][c] == v
  {
    var cells := ColumnCells(rows, c);
    assert FromRecords(rows, cols).rows[i][c] == RecordCell(rows, i, c);
    if FloatColumn(cells) {
      var j :| 0 <= j < |cells| && !cells[j].Int?;
      var k :| 0 <= k < |cells| && IsNumber(cells[k]);
      assert cells[j] == v && cells[k] == v;
    }
  }

  /** A column of ints with no missing value stays int64. */
  lemma IntColumnKept(rows: seq<Row>, cols: seq<string>, c: string, i: nat)
    requires i < |rows| && c in cols
    requires forall j :: 0 <= j < |rows| ==> c in rows[j] && rows[j][c].Int?
    ensures FromRecords(rows, cols).rows[i][c] == rows[i][c]
  {
    var cells := ColumnCells(rows, c);
    assert FromRecords(rows, cols).rows[i][c] == RecordCell(rows, i, c);
    assert forall j :: 0 <= j < |cells| ==> cells[j].Int?;
  }

  /**
   * A column of ints and Nones that holds both becomes float64: each int
   * is widened and each None becomes NaN.
   */
  lemma IntColumnWithNoneWidens(rows: seq<Row>, cols: seq<string>, c: string, i: nat, j: nat)
    requires i < |rows| && j < |rows| && c in cols
    requires forall l :: 0 <= l < |rows| ==> c in rows[l] && (rows[l][c].Int? || rows[l][c].Null?)
    requires rows[i][c].Int? && rows[j][c].Null?
    ensures FromRecords(rows, cols).rows[i][c] == Num(IntAsFloat(rows[i][c].i))
    ensures FromRecords(rows, cols).rows[j][c] == NaN
  {
    var cells := ColumnCells(rows, c);
    assert IsNumber(cells[i]) && !cells[j].Int?;
    assert FloatColumn(cells);
    assert FromRecords(rows, cols).rows[i][c] == RecordCell(rows, i, c);
    assert FromRecords(rows, cols).rows[j][c] == RecordCell(rows, j, c);
  }

  /** An int beside a None becomes a float, and the None becomes NaN. */
  lemma IntBesideNoneWidens(c: string)
    ensures var t := FromRecords([map[c := Int(1)], map[c := Null]], [c]);
      t.rows[0][c] == Num(Float(1.0, "1.0")) && t.rows[1][c] == NaN
  {
    var rows := [map[c := Int(1)], map[c := Null]];
    var cells := ColumnCells(rows, c);
    assert IsNumber(cells[0]) && !cells[1].Int?;
    assert FloatColumn(cells);
    assert FromRecords(rows, [c]).rows[0][c] == RecordCell(rows, 0, c);
    assert FromRecords(rows, [c]).rows[1][c] == RecordCell(rows, 1, c);
    assert IntToString(1) == "1";
  }

  // ---------------------------------------------------------------------
  // Columns, and a DataFrame changed in place
  // ---------------------------------------------------------------------

  /** The columns after a column is assigned: a new name goes at the end. */
  function AddColumn(columns: seq<string>, c: string): seq<string>
  {
    if c in columns then columns else columns + [c]
  }

  lemma AddColumnKeeps(columns: seq<string>, c: string)
    ensures var r := AddColumn(columns, c);
      c in r && |r| >= |columns| && r[..|columns|] == columns
      && forall d :: d in r <==> d in columns || d == c
  {
  }

  /** The columns of `pd.concat`: `a`, then the names of `b` that `a` lacks. */
  function Union(a: seq<string>, b: seq<string>): (r: seq<string>)
    ensures forall c :: c in r <==> c in a || c in b
    ensures |r| >= |a| && r[..|a|] == a
    decreases |b|
  {
    if |b| == 0 then a
    else
      var next := AddColumn(a, b[0]);
      AddColumnKeeps(a, b[0]);
      var r := Union(next, b[1..]);
      assert r[..|next|][..|a|] == r[..|a|];
      r
  }

  /** A DataFrame that operations change in place: `df.loc[...] = ...`, `dropna(inplace=True)`. */
  class DataFrame {
    var columns: seq<string>
    var rows: seq<Row>

    constructor (t: Table)
      ensures columns == t.columns && rows == t.rows
    {
      columns := t.columns;
      rows := t.rows;
    }

    function Snapshot(): Table
      reads this
    {
      Table(columns, rows)
    }

    /** `df.loc[i, col] = v` on a frame whose index labels are its positions. */
    method SetAt(i: nat, col: string, v: Cell)
      requires i < |rows|
      modifies this
      ensures rows == old(rows)[i := old(rows)[i][col := v]]
      ensures columns == AddColumn(old(columns), col)
    {
      rows := rows[i := rows[i][col := v]];
      columns := AddColumn(columns, col);
    }
  }
}
