/**
 * The spreadsheet side of the system: the Drive search query, reading a
 * sheet into a rectangular grid, writing a table back over a sheet, the
 * batch of row deletions, and the link of a new spreadsheet. The Google
 * services themselves are not modelled; a sheet is the grid of values it
 * holds, and the outcome of each call is a parameter.
 */
module Sheets {
  import opened Basics
  import opened Frames
  import Sorting

  // ---------------------------------------------------------------------
  // Drive search query
  // ---------------------------------------------------------------------

  function NameClause(name: string): string {
    "name = '" + name + "' and trashed = false"
  }

  function MimeClause(mimeType: string): string {
    " and mimeType = '" + mimeType + "'"
  }

  function ParentClause(parentId: string): string {
    " and '" + parentId + "' in parents"
  }

  /**
   * The query `find_drive_item_by_name` sends: the name clause, then the
   * MIME-type clause and the parent clause, each only when that argument
   * is given (None and "" both count as not given).
   */
  function DriveQuery(name: string, mimeType: Option<string>, parentId: Option<string>): (q: string)
    ensures StartsWith(q, NameClause(name))
    ensures (mimeType.None? || mimeType.value == "") && (parentId.None? || parentId.value == "")
      ==> q == NameClause(name)
    ensures parentId.Some? && parentId.value != "" ==> EndsWith(q, ParentClause(parentId.value))
    ensures mimeType.Some? && mimeType.value != "" && (parentId.None? || parentId.value == "")
      ==> EndsWith(q, MimeClause(mimeType.value))
  {
    var withMime := if mimeType.Some? && mimeType.value != "" then NameClause(name) + MimeClause(mimeType.value) else NameClause(name);
    var q := if parentId.Some? && parentId.value != "" then withMime + ParentClause(parentId.value) else withMime;
    assert q[..|NameClause(name)|] == NameClause(name);
    q
  }

  /** Both clauses appear, in order, when both arguments are given. */
  lemma QueryWithBothClauses(name: string, mimeType: string, parentId: string)
    requires mimeType != "" && parentId != ""
    ensures DriveQuery(name, Some(mimeType), Some(parentId))
      == NameClause(name) + MimeClause(mimeType) + ParentClause(parentId)
    ensures Contains(DriveQuery(name, Some(mimeType), Some(parentId)), MimeClause(mimeType))
  {
    ContainsMiddle(NameClause(name), MimeClause(mimeType), ParentClause(parentId));
  }

  /** With one argument given, the query is the name clause followed by that argument's clause alone. */
  lemma QueryWithOneClause(name: string, mimeType: Option<string>, parentId: Option<string>)
    ensures (mimeType.None? || mimeType.value == "") && parentId.Some? && parentId.value != ""
      ==> DriveQuery(name, mimeType, parentId) == NameClause(name) + ParentClause(parentId.value)
    ensures mimeType.Some? && mimeType.value != "" && (parentId.None? || parentId.value == "")
      ==> DriveQuery(name, mimeType, parentId) == NameClause(name) + MimeClause(mimeType.value)
  {
  }

  // ---------------------------------------------------------------------
  // A new spreadsheet's link
  // ---------------------------------------------------------------------

  const SpreadsheetPrefix := "https://docs.google.com/spreadsheets/d/"

  function SpreadsheetUrl(id: string): string {
    SpreadsheetPrefix + id + "/edit"
  }

  /**
   * What `create_spreadsheet` returns for the id the Drive call gave back
   * (None when the call raised): the id and its link, or nothing when
   * there is no id.
   */
  function CreatedSpreadsheet(returnedId: Option<string>): (r: Option<(string, string)>)
    ensures r.Some? <==> returnedId.Some? && returnedId.value != ""
    ensures r.Some? ==> r.value.0 == returnedId.value && StartsWith(r.value.1, SpreadsheetPrefix)
  {
    if returnedId.Some? && returnedId.value != "" then
      var id := returnedId.value;
      assert (SpreadsheetPrefix + id + "/edit")[..|SpreadsheetPrefix|] == SpreadsheetPrefix;
      Some((id, SpreadsheetUrl(id)))
    else None
  }

  /** The id can be read back from the link: it is the path segment after "/spreadsheets/d/". */
  lemma SpreadsheetUrlNamesId(id: string)
    requires '/' !in id
    ensures StartsWith(SpreadsheetUrl(id), SpreadsheetPrefix)
    ensures UpTo(SpreadsheetUrl(id)[|SpreadsheetPrefix|..], '/') == id
  {
    var url := SpreadsheetUrl(id);
    assert url[..|SpreadsheetPrefix|] == SpreadsheetPrefix;
    assert url[|SpreadsheetPrefix|..] == id + ['/'] + "edit";
    UpToAt(id, "edit", '/');
  }

  // ---------------------------------------------------------------------
  // Reading a sheet
  // ---------------------------------------------------------------------

  /** A sheet read into memory: its header row and its data rows. */
  datatype Grid = Grid(header: seq<Cell>, data: seq<seq<Cell>>)

  /** A row cut or padded with None to exactly `width` cells. */
  function PadRow(row: seq<Cell>, width: nat): (r: seq<Cell>)
    ensures |r| == width
    ensures forall j :: 0 <= j < width ==> r[j] == (if j < |row| then row[j] else Null)
    ensures |row| == width ==> r == row
  {
    if |row| < width then row + seq(width - |row|, _ => Null)
    else row[..width]
  }

  /**
   * What `read_from_spreadsheet` makes of the values the service returns
   * (None when the call raised): nothing at all, or the first row as the
   * header and every later row fitted to the header's width.
   */
  function ReadGrid(response: Option<seq<seq<Cell>>>): (g: Grid)
    ensures response.None? || response.value == [] ==> g == Grid([], [])
    ensures response.Some? && response.value != [] ==>
      g.header == response.value[0] && |g.data| == |response.value| - 1
    ensures forall i :: 0 <= i < |g.data| ==> |g.data[i]| == |g.header|
  {
    if response.None? || response.value == [] then Grid([], [])
    else
      var values := response.value;
      Grid(values[0], seq(|values| - 1, i requires 0 <= i < |values| - 1 => PadRow(values[i + 1], |values[0]|)))
  }

  /** Row i of the grid is data row i of the sheet, fitted to the header. */
  lemma ReadKeepsRowOrder(values: seq<seq<Cell>>, i: nat)
    requires values != [] && i < |values| - 1
    ensures ReadGrid(Some(values)).data[i] == PadRow(values[i + 1], |values[0]|)
  {
  }

  /** The read loop: pad short rows with None, cut long ones, keep the order. */
  method ReadFromSpreadsheet(response: Option<seq<seq<Cell>>>) returns (g: Grid)
    ensures g == ReadGrid(response)
  {
    if response.None? || response.value == [] {
      return Grid([], []);
    }
    var values := response.value;
    var header := values[0];
    var data := values[1..];
    if |data| == 0 {
      return Grid(header, []);
    }
    var numCols := |header|;
    var processed: seq<seq<Cell>> := [];
    for i := 0 to |data|
      invariant |processed| == i
      invariant forall k :: 0 <= k < i ==> processed[k] == PadRow(values[k + 1], numCols)
    {
      var newRow := data[i];
      if |newRow| < numCols {
        newRow := newRow + seq(numCols - |newRow|, _ => Null);
      } else if |newRow| > numCols {
        newRow := newRow[..numCols];
      }
      processed := processed + [newRow];
    }
    g := Grid(header, processed);
  }

  // ---------------------------------------------------------------------
  // Writing a table over a sheet
  // ---------------------------------------------------------------------

  /** `fillna('')` on one cell. */
  function Filled(c: Cell): (r: Cell)
    ensures !IsNa(r)
    ensures !IsNa(c) ==> r == c
  {
    if IsNa(c) then Str("") else c
  }

  function HeaderRow(columns: seq<string>): (r: seq<Cell>)
    ensures |r| == |columns| && forall j :: 0 <= j < |columns| ==> r[j] == Str(columns[j])
  {
    seq(|columns|, j requires 0 <= j < |columns| => Str(columns[j]))
  }

  function DataRow(row: Row, columns: seq<string>): (r: seq<Cell>)
    ensures |r| == |columns| && forall j :: 0 <= j < |columns| ==> r[j] == Filled(Get(row, columns[j]))
  {
    seq(|columns|, j requires 0 <= j < |columns| => Filled(Get(row, columns[j])))
  }

  /**
   * The values `update_spreadsheet_from_df` writes: the column names,
   * then every row in order, each cell in column order with missing
   * values written as ''.
   */
  function PreparedValues(t: Table): (v: seq<seq<Cell>>)
    ensures |v| == |t.rows| + 1 && v[0] == HeaderRow(t.columns)
    ensures forall i :: 0 <= i < |t.rows| ==> v[i + 1] == DataRow(t.rows[i], t.columns)
  {
    [HeaderRow(t.columns)] + seq(|t.rows|, i requires 0 <= i < |t.rows| => DataRow(t.rows[i], t.columns))
  }

  /**
   * Reading back what was written gives the same header and, row for row,
   * the written cells: nothing is padded or cut, and no cell is missing.
   * This takes the service to return the grid exactly as written; the
   * Sheets API drops a row's trailing empty cells, which would come back
   * here as padding.
   */
  lemma ReadBackWritten(t: Table)
    ensures ReadGrid(Some(PreparedValues(t))).header == HeaderRow(t.columns)
    ensures |ReadGrid(Some(PreparedValues(t))).data| == |t.rows|
    ensures forall i :: 0 <= i < |t.rows| ==> ReadGrid(Some(PreparedValues(t))).data[i] == DataRow(t.rows[i], t.columns)
  {
    var v := PreparedValues(t);
    forall i | 0 <= i < |t.rows|
      ensures ReadGrid(Some(v)).data[i] == DataRow(t.rows[i], t.columns)
    {
      ReadKeepsRowOrder(v, i);
    }
  }

  /** How a write went: done, failed before the sheet was cleared, or failed after. */
  datatype WriteOutcome = Written | FailedBeforeClear | FailedAfterClear

  /** The sheet's values after a write of `t` that went as `outcome` says. */
  function AfterWrite(before: seq<seq<Cell>>, t: Table, outcome: WriteOutcome): seq<seq<Cell>> {
    match outcome
    case Written => PreparedValues(t)
    case FailedBeforeClear => before
    case FailedAfterClear => []
  }

  /** A spreadsheet's first sheet: the grid of values it holds. */
  class Spreadsheet {
    var values: seq<seq<Cell>>

    constructor (initial: seq<seq<Cell>>)
      ensures values == initial
    {
      values := initial;
    }

    /**
     * `update_spreadsheet_from_df`: clear the sheet, then write the
     * table's values from the top-left cell. A failure of the write after
     * the clear leaves the sheet empty.
     */
    method UpdateFromTable(t: Table, outcome: WriteOutcome) returns (ok: bool)
      modifies this
      ensures ok <==> outcome.Written?
      ensures values == AfterWrite(old(values), t, outcome)
    {
      if outcome.FailedBeforeClear? {
        return false;
      }
      values := [];
      if outcome.FailedAfterClear? {
        return false;
      }
      values := PreparedValues(t);
      ok := true;
    }

    /**
     * `delete_spreadsheet_rows`: nothing to delete succeeds without a
     * call; otherwise one batch of requests, applied in order, or nothing
     * at all when the batch fails.
     */
    method DeleteRows(gid: int, indices: seq<int>, batchSucceeds: bool) returns (ok: bool, requests: seq<DeleteRequest>)
      modifies this
      ensures requests == DeleteRequests(gid, indices)
      ensures ok <==> indices == [] || batchSucceeds
      ensures values == if ok then ApplyRequests(old(values), requests) else old(values)
    {
      if |indices| == 0 {
        return true, [];
      }
      requests := BuildDeleteRequests(gid, indices);
      if !batchSucceeds {
        return false, requests;
      }
      values := ApplyRequests(values, requests);
      ok := true;
    }
  }

  // ---------------------------------------------------------------------
  // Deleting rows
  // ---------------------------------------------------------------------

  /** A `deleteDimension` request over rows [startIndex, endIndex) of a sheet. */
  datatype DeleteRequest = DeleteRequest(sheetId: int, startIndex: int, endIndex: int)

  function Identity(x: int): int {
    x
  }

  /** The data-row indices, largest first. */
  function Descending(indices: seq<int>): (r: seq<int>)
    ensures multiset(r) == multiset(indices) && |r| == |indices|
    ensures forall i, j :: 0 <= i < j < |r| ==> r[i] >= r[j]
  {
    var r := Sorting.SortDesc(indices, Identity);
    assert forall i, j :: 0 <= i < j < |r| ==> Identity(r[i]) >= Identity(r[j]);
    assert |multiset(r)| == |multiset(indices)|;
    r
  }

  /**
   * One request per index, largest index first; data row d is sheet row
   * d + 1 because the header is row 0.
   */
  function DeleteRequests(gid: int, indices: seq<int>): (r: seq<DeleteRequest>)
    ensures |r| == |indices|
    ensures forall i :: 0 <= i < |r| ==> r[i].sheetId == gid && r[i].endIndex == r[i].startIndex + 1
    ensures forall i, j :: 0 <= i < j < |r| ==> r[i].startIndex >= r[j].startIndex
    ensures forall i :: 0 <= i < |r| ==> r[i].startIndex == Descending(indices)[i] + 1
  {
    var sorted := Descending(indices);
    seq(|sorted|, i requires 0 <= i < |sorted| => DeleteRequest(gid, sorted[i] + 1, sorted[i] + 2))
  }

  /** The request loop over the sorted indices. */
  method BuildDeleteRequests(gid: int, indices: seq<int>) returns (requests: seq<DeleteRequest>)
    ensures requests == DeleteRequests(gid, indices)
  {
    var sorted := Descending(indices);
    requests := [];
    for i := 0 to |sorted|
      invariant requests == DeleteRequests(gid, indices)[..i]
    {
      var start := sorted[i] + 1;
      requests := requests + [DeleteRequest(gid, start, start + 1)];
    }
  }

  function RemoveAt<T>(s: seq<T>, k: nat): (r: seq<T>)
    requires k < |s|
    ensures |r| == |s| - 1
  {
    s[..k] + s[k + 1..]
  }

  /** The sheet after the requests, in order (one out of range deletes nothing). */
  function ApplyRequests<T>(rows: seq<T>, requests: seq<DeleteRequest>): seq<T>
    decreases |requests|
  {
    if |requests| == 0 then rows
    else
      var k := requests[0].startIndex;
      var next := if 0 <= k < |rows| then RemoveAt(rows, k) else rows;
      ApplyRequests(next, requests[1..])
  }

  /** The rows whose positions are not in `drop`, in order. */
  function KeepIndices<T>(s: seq<T>, drop: set<int>): (r: seq<T>)
    ensures |r| <= |s|
  {
    if |s| == 0 then []
    else KeepIndices(s[..|s| - 1], drop) + (if |s| - 1 in drop then [] else [s[|s| - 1]])
  }

  lemma {:induction false} KeepTail<T>(s: seq<T>, drop: set<int>, m: nat)
    requires m <= |s|
    requires forall d :: d in drop ==> d < m
    ensures KeepIndices(s, drop) == KeepIndices(s[..m], drop) + s[m..]
    decreases |s|
  {
    if |s| > m {
      var init := s[..|s| - 1];
      KeepTail(init, drop, m);
      assert init[..m] == s[..m];
      assert init[m..] + [s[|s| - 1]] == s[m..];
    } else {
      assert s[..m] == s;
    }
  }

  lemma {:induction false} KeepBeyond<T>(s: seq<T>, drop: set<int>, k: int)
    requires k >= |s|
    ensures KeepIndices(s, drop + {k}) == KeepIndices(s, drop)
    decreases |s|
  {
    if |s| > 0 {
      KeepBeyond(s[..|s| - 1], drop, k);
    }
  }

  lemma {:induction false} KeepNone<T>(s: seq<T>)
    ensures KeepIndices(s, {}) == s
    decreases |s|
  {
    if |s| > 0 {
      KeepNone(s[..|s| - 1]);
      assert s[..|s| - 1] + [s[|s| - 1]] == s;
    }
  }

  /** Deleting the row at k, the largest position to go, is keeping all but it. */
  lemma RemoveLargest<T>(s: seq<T>, drop: set<int>, k: nat)
    requires k < |s|
    requires forall d :: d in drop ==> d < k
    ensures KeepIndices(RemoveAt(s, k), drop) == KeepIndices(s, drop + {k})
  {
    var r := RemoveAt(s, k);
    KeepTail(r, drop, k);
    assert r[..k] == s[..k] && r[k..] == s[k + 1..];
    KeepTail(s, drop + {k}, k + 1);
    var front := s[..k + 1];
    assert front[..|front| - 1] == s[..k];
    assert KeepIndices(front, drop + {k}) == KeepIndices(s[..k], drop + {k});
    KeepBeyond(s[..k], drop, k);
  }

  function IndexSet(s: seq<int>): set<int> {
    set x | x in s
  }

  function Starts(requests: seq<DeleteRequest>): (r: seq<int>)
    ensures |r| == |requests| && forall i :: 0 <= i < |r| ==> r[i] == requests[i].startIndex
  {
    seq(|requests|, i requires 0 <= i < |requests| => requests[i].startIndex)
  }

  /**
   * Requests whose start rows strictly decrease and lie inside the sheet
   * delete exactly those rows: deleting from the bottom up never shifts a
   * row that is still to be deleted.
   */
  lemma {:induction false} BottomUpDeletion<T>(rows: seq<T>, requests: seq<DeleteRequest>)
    requires forall i :: 0 <= i < |requests| ==> 0 <= requests[i].startIndex < |rows|
    requires forall i, j :: 0 <= i < j < |requests| ==> requests[i].startIndex > requests[j].startIndex
    ensures ApplyRequests(rows, requests) == KeepIndices(rows, IndexSet(Starts(requests)))
    decreases |requests|
  {
    if |requests| == 0 {
      assert IndexSet(Starts(requests)) == {};
      KeepNone(rows);
    } else {
      var k := requests[0].startIndex;
      var rest := requests[1..];
      var smaller := IndexSet(Starts(rest));
      LaterStartsSmaller(requests);
      BottomUpDeletion(RemoveAt(rows, k), rest);
      RemoveLargest(rows, smaller, k);
    }
  }

  lemma LaterStartsSmaller(requests: seq<DeleteRequest>)
    requires |requests| > 0
    requires forall i, j :: 0 <= i < j < |requests| ==> requests[i].startIndex > requests[j].startIndex
    ensures forall d :: d in IndexSet(Starts(requests[1..])) ==> d < requests[0].startIndex
    ensures IndexSet(Starts(requests)) == IndexSet(Starts(requests[1..])) + {requests[0].startIndex}
  {
    var rest := requests[1..];
    forall d | d in IndexSet(Starts(rest)) ensures d < requests[0].startIndex {
      var j :| 0 <= j < |rest| && Starts(rest)[j] == d;
      assert requests[j + 1].startIndex == d;
    }
    assert Starts(requests) == [requests[0].startIndex] + Starts(rest);
  }

  /** Positions shifted down by one row: the header in front changes nothing else. */
  lemma {:induction false} KeepBelowHeader<T>(header: T, s: seq<T>, shifted: set<int>, drop: set<int>)
    requires forall x :: x in shifted <==> x >= 1 && x - 1 in drop
    ensures KeepIndices([header] + s, shifted) == [header] + KeepIndices(s, drop)
    decreases |s|
  {
    var whole := [header] + s;
    if |s| == 0 {
      assert whole[..0] == [];
    } else {
      var n := |s|;
      var init := s[..n - 1];
      var last: seq<T> := if n - 1 in drop then [] else [s[n - 1]];
      KeepBelowHeader(header, init, shifted, drop);
      assert whole[..n] == [header] + init;
      assert whole[n] == s[n - 1];
      assert (n in shifted) == (n - 1 in drop);
      assert KeepIndices(whole, shifted) == ([header] + KeepIndices(init, drop)) + last;
      assert KeepIndices(s, drop) == KeepIndices(init, drop) + last;
    }
  }

  predicate Distinct(s: seq<int>) {
    forall i, j :: 0 <= i < j < |s| ==> s[i] != s[j]
  }

  lemma {:induction false} DistinctCount(s: seq<int>, x: int)
    requires Distinct(s)
    ensures multiset(s)[x] <= 1
    decreases |s|
  {
    if |s| > 0 {
      var init := s[..|s| - 1];
      DistinctCount(init, x);
      assert s == init + [s[|s| - 1]];
      if s[|s| - 1] == x {
        assert x !in init;
      }
    }
  }

  /** A rearrangement of a list without repeats has no repeats. */
  lemma DistinctRearranged(a: seq<int>, b: seq<int>)
    requires Distinct(a) && multiset(a) == multiset(b)
    ensures Distinct(b)
  {
    forall i, j | 0 <= i < j < |b| ensures b[i] != b[j] {
      if b[i] == b[j] {
        var x := b[i];
        assert b == b[..j] + b[j..];
        assert x in b[..j] && x in b[j..];
        assert multiset(b)[x] == multiset(b[..j])[x] + multiset(b[j..])[x];
        DistinctCount(a, x);
        assert false;
      }
    }
  }

  /**
   * The requests built for distinct data-row indices delete exactly those
   * data rows from the sheet and leave its header and every other row in
   * order.
   */
  lemma DeleteRequestsRemoveSelectedRows<T>(gid: int, header: T, data: seq<T>, indices: seq<int>)
    requires Distinct(indices)
    requires forall i :: 0 <= i < |indices| ==> 0 <= indices[i] < |data|
    ensures ApplyRequests([header] + data, DeleteRequests(gid, indices)) == [header] + KeepIndices(data, IndexSet(indices))
  {
    var requests := DeleteRequests(gid, indices);
    RequestsBottomUp(gid, indices, |data|, requests);
    RequestStartsShifted(gid, indices, requests);
    DeleteBelowHeader(header, data, requests, IndexSet(indices));
  }

  lemma DeleteBelowHeader<T>(header: T, data: seq<T>, requests: seq<DeleteRequest>, drop: set<int>)
    requires forall i :: 0 <= i < |requests| ==> 1 <= requests[i].startIndex < 1 + |data|
    requires forall i, j :: 0 <= i < j < |requests| ==> requests[i].startIndex > requests[j].startIndex
    requires forall x :: x in IndexSet(Starts(requests)) <==> x >= 1 && x - 1 in drop
    ensures ApplyRequests([header] + data, requests) == [header] + KeepIndices(data, drop)
  {
    var rows := [header] + data;
    var shifted := IndexSet(Starts(requests));
    assert |rows| == 1 + |data|;
    BottomUpDeletion(rows, requests);
    KeepBelowHeader(header, data, shifted, drop);
  }

  /** For distinct indices inside the data, the request rows strictly decrease and lie below the header. */
  lemma RequestsBottomUp(gid: int, indices: seq<int>, dataRows: nat, requests: seq<DeleteRequest>)
    requires Distinct(indices)
    requires forall i :: 0 <= i < |indices| ==> 0 <= indices[i] < dataRows
    requires requests == DeleteRequests(gid, indices)
    ensures forall i :: 0 <= i < |requests| ==> 1 <= requests[i].startIndex < 1 + dataRows
    ensures forall i, j :: 0 <= i < j < |requests| ==> requests[i].startIndex > requests[j].startIndex
  {
    var sorted := Descending(indices);
    DistinctRearranged(indices, sorted);
    forall i | 0 <= i < |sorted| ensures 0 <= sorted[i] < dataRows {
      assert sorted[i] in multiset(indices);
      var j :| 0 <= j < |indices| && indices[j] == sorted[i];
    }
  }

  /** The request rows are the data indices moved down one row. */
  lemma RequestStartsShifted(gid: int, indices: seq<int>, requests: seq<DeleteRequest>)
    requires forall i :: 0 <= i < |indices| ==> indices[i] >= 0
    requires requests == DeleteRequests(gid, indices)
    ensures forall x :: x in IndexSet(Starts(requests)) <==> x >= 1 && x - 1 in IndexSet(indices)
  {
    forall x ensures x in IndexSet(Starts(requests)) <==> x >= 1 && x - 1 in IndexSet(indices) {
      ShiftedMembers(indices, Descending(indices), Starts(requests), x);
    }
  }

  lemma ShiftedMembers(indices: seq<int>, sorted: seq<int>, starts: seq<int>, x: int)
    requires multiset(sorted) == multiset(indices)
    requires |starts| == |sorted| && forall i :: 0 <= i < |starts| ==> starts[i] == sorted[i] + 1
    requires forall i :: 0 <= i < |indices| ==> indices[i] >= 0
    ensures x in IndexSet(starts) <==> x >= 1 && x - 1 in IndexSet(indices)
  {
    if x in IndexSet(starts) {
      var i :| 0 <= i < |starts| && starts[i] == x;
      assert sorted[i] in multiset(sorted);
      assert sorted[i] in indices;
    }
    if x >= 1 && x - 1 in IndexSet(indices) {
      assert x - 1 in indices;
      assert x - 1 in multiset(sorted);
      assert x - 1 in sorted;
      var i :| 0 <= i < |sorted| && sorted[i] == x - 1;
      assert starts[i] == x;
      assert x in starts;
    }
  }
}
