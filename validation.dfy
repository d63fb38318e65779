/**
 * The gate in front of the master sheet: every row must carry the
 * mandatory fields (header-only rows may leave the para fields blank),
 * the category and the para status must come from fixed lists, and a
 * trade name may not appear under two different categories. The result
 * is the sorted list of distinct messages; an empty list lets the rows
 * through.
 */
module Validation {
  import opened Basics
  import opened Frames
  import opened Sorting

  /** The mandatory columns, in checking order, with the names used in messages. */
  const MandatoryFields: seq<(string, string)> := [
    ("audit_group_number", "Audit Group Number"),
    ("gstin", "GSTIN"),
    ("trade_name", "Trade Name"),
    ("category", "Category"),
    ("total_amount_detected_overall_rs", "Total Amount Detected (Overall Rs)"),
    ("total_amount_recovered_overall_rs", "Total Amount Recovered (Overall Rs)"),
    ("audit_para_number", "Audit Para Number"),
    ("audit_para_heading", "Audit Para Heading"),
    ("revenue_involved_lakhs_rs", "Revenue Involved (Lakhs Rs)"),
    ("revenue_recovered_lakhs_rs", "Revenue Recovered (Lakhs Rs)"),
    ("status_of_para", "Status of para")]

  /** The para columns a header-only row may leave blank. */
  const ParaFields: set<string> := {
    "audit_para_number", "audit_para_heading",
    "revenue_involved_lakhs_rs", "revenue_recovered_lakhs_rs", "status_of_para"}

  const ValidCategories: seq<string> := ["Large", "Medium", "Small"]

  const ValidParaStatuses: seq<string> := [
    "Agreed and Paid", "Agreed yet to pay",
    "Partially agreed and paid", "Partially agreed, yet to paid",
    "Not agreed"]

  /** Python's rendering of the two lists inside messages. */
  const ValidCategoriesText := "['Large', 'Medium', 'Small']"
  const ValidParaStatusesText :=
    "['Agreed and Paid', 'Agreed yet to pay', 'Partially agreed and paid', 'Partially agreed, yet to paid', 'Not agreed']"

  const HeaderOnlyMarker := "N/A - Header Info Only"

  const NoDataMessage := "No data to validate."

  // ---------------------------------------------------------------------
  // Per-row checks
  // ---------------------------------------------------------------------

  /** A cell counts as missing when it is None, NaN, or text that is blank once stripped. */
  predicate IsMissing(c: Cell) {
    IsNa(c) || (c.Str? && IsBlank(c.s))
  }

  /** A value is present when it is neither missing nor blank once rendered. */
  predicate IsPresent(c: Cell) {
    !IsNa(c) && !IsBlank(Render(c))
  }

  /**
   * A header-only row: its heading is text starting with the marker and
   * its para number is missing. A heading that is not text (None, NaN, a
   * number) does not make the row header-only.
   */
  predicate IsHeaderOnly(row: Row) {
    var h := Get(row, "audit_para_heading");
    h.Str? && StartsWith(h.s, HeaderOnlyMarker) && IsNa(Get(row, "audit_para_number"))
  }

  /** Whether a field's blank value is excused on this row. */
  predicate Exempt(row: Row, key: string) {
    key in ParaFields && IsHeaderOnly(row)
  }

  /** "Row <index+1> (Para: <para number, or N/A without that column>)" */
  function RowId(index: nat, row: Row): string {
    var para := if "audit_para_number" in row then Render(row["audit_para_number"]) else "N/A";
    "Row " + NatToString(index + 1) + " (Para: " + para + ")"
  }

  function MissingMsg(id: string, name: string): string {
    id + ": '" + name + "' is missing or empty."
  }

  function CategoryMsg(id: string, value: string): string {
    id + ": 'Category' ('" + value + "') is invalid. Must be one of " + ValidCategoriesText + "."
  }

  function StatusInvalidMsg(id: string, value: string): string {
    id + ": 'Status of para' ('" + value + "') is invalid. Must be one of " + ValidParaStatusesText + "."
  }

  function StatusMissingMsg(id: string): string {
    id + ": 'Status of para' is missing for a data para."
  }

  /** The missing-field messages for the given fields, in order. */
  function FieldMsgs(id: string, row: Row, fields: seq<(string, string)>): (r: seq<string>)
    ensures |r| <= |fields|
    decreases |fields|
  {
    if |fields| == 0 then []
    else
      var (key, name) := fields[|fields| - 1];
      FieldMsgs(id, row, fields[..|fields| - 1])
        + (if IsMissing(Get(row, key)) && !Exempt(row, key) then [MissingMsg(id, name)] else [])
  }

  function CategoryMsgs(id: string, row: Row): seq<string> {
    var v := Get(row, "category");
    if IsPresent(v) && Render(v) !in ValidCategories then [CategoryMsg(id, Render(v))] else []
  }

  function StatusMsgs(id: string, row: Row): seq<string> {
    var v := Get(row, "status_of_para");
    if IsHeaderOnly(row) then []
    else if IsPresent(v) && Render(v) !in ValidParaStatuses then [StatusInvalidMsg(id, Render(v))]
    else if !IsPresent(v) then [StatusMissingMsg(id)]
    else []
  }

  /** Everything reported about the row at position `index`. */
  function RowMsgs(index: nat, row: Row): seq<string> {
    var id := RowId(index, row);
    FieldMsgs(id, row, MandatoryFields) + CategoryMsgs(id, row) + StatusMsgs(id, row)
  }

  /** The row messages of all rows, row by row. */
  function AllRowMsgs(rows: seq<Row>): seq<string>
    decreases |rows|
  {
    if |rows| == 0 then []
    else AllRowMsgs(rows[..|rows| - 1]) + RowMsgs(|rows| - 1, rows[|rows| - 1])
  }

  // ---------------------------------------------------------------------
  // Category consistency per trade name
  // ---------------------------------------------------------------------

  /** A row takes part in the consistency check: a present trade name and a valid category. */
  predicate Counted(row: Row) {
    var c := Get(row, "category");
    IsPresent(Get(row, "trade_name")) && IsPresent(c) && c.Str? && c.s in ValidCategories
  }

  /** What a row contributes to the trade-name table, if anything. */
  function Entry(row: Row): (e: Option<(Cell, string)>)
    ensures e.Some? <==> Counted(row)
    ensures e.Some? ==> e.value == (Get(row, "trade_name"), Get(row, "category").s)
  {
    if Counted(row) then Some((Get(row, "trade_name"), Get(row, "category").s)) else None
  }

  function Entries(rows: seq<Row>): (es: seq<Option<(Cell, string)>>)
    ensures |es| == |rows| && forall i :: 0 <= i < |rows| ==> es[i] == Entry(rows[i])
  {
    seq(|rows|, i requires 0 <= i < |rows| => Entry(rows[i]))
  }

  /**
   * `setdefault(key, set()).add(value)` over a list of entries: each key
   * maps to its values in order of first appearance, without repeats.
   */
  function Group<K(==)>(es: seq<Option<(K, string)>>): map<K, seq<string>>
    decreases |es|
  {
    if |es| == 0 then map[]
    else
      var m := Group(es[..|es| - 1]);
      var e := es[|es| - 1];
      if e.None? then m
      else
        var (k, v) := e.value;
        if k !in m then m[k := [v]]
        else if v in m[k] then m
        else m[k := m[k] + [v]]
  }

  /** The keys of the table above, in insertion order (a dict's iteration order). */
  function KeyOrder<K(==)>(es: seq<Option<(K, string)>>): seq<K>
    decreases |es|
  {
    if |es| == 0 then []
    else
      var order := KeyOrder(es[..|es| - 1]);
      var e := es[|es| - 1];
      if e.Some? && e.value.0 !in Group(es[..|es| - 1]) then order + [e.value.0] else order
  }

  function ConsistencyMsg(tn: Cell, cats: seq<string>): string {
    "Consistency Error: Trade Name '" + Render(tn) + "' has multiple categories: "
      + Join(", ", SortedUnique(cats)) + "."
  }

  /** One message per listed trade name holding more than one category. */
  function ConflictMsgs(keys: seq<Cell>, m: map<Cell, seq<string>>): seq<string>
    requires forall k :: k in keys ==> k in m
    decreases |keys|
  {
    if |keys| == 0 then []
    else
      var k := keys[|keys| - 1];
      ConflictMsgs(keys[..|keys| - 1], m) + (if |m[k]| > 1 then [ConsistencyMsg(k, m[k])] else [])
  }

  /** The trade name -> valid categories table of a table's rows. */
  function CatsMap(rows: seq<Row>): map<Cell, seq<string>> {
    Group(Entries(rows))
  }

  /** The consistency messages of some rows, trade names in order of first appearance. */
  function Conflicts(rows: seq<Row>): seq<string> {
    var es := Entries(rows);
    KeyOrderInGroup(es);
    ConflictMsgs(KeyOrder(es), Group(es))
  }

  /** The consistency messages; the check runs only when both columns exist. */
  function Consistency(t: Table): seq<string> {
    if "trade_name" in t.columns && "category" in t.columns then Conflicts(t.rows) else []
  }

  /** What the validator returns for a table. */
  function Validation(t: Table): (r: seq<string>)
    ensures StrictlySorted(r)
  {
    if IsEmpty(t) then [NoDataMessage]
    else SortedUnique(AllRowMsgs(t.rows) + Consistency(t))
  }

  // ---------------------------------------------------------------------
  // The validator itself
  // ---------------------------------------------------------------------

  /**
   * Validates the rows of `t`: per-row checks first, then the trade-name
   * table, then the sorted, de-duplicated message list. As the code is
   * written, a row whose heading cell holds something other than text
   * stops the validator with AttributeError (see `ValidateAsWritten`).
   */
  method ValidateDataForSheet(t: Table) returns (result: Result<seq<string>, string>)
    ensures result == ValidateAsWritten(t)
  {
    if IsEmpty(t) {
      return Ok([NoDataMessage]);
    }
    var rowChecks := CheckRows(t.rows);
    if rowChecks.Err? {
      return Err(rowChecks.error);
    }
    var found := rowChecks.value;
    if "trade_name" in t.columns && "category" in t.columns {
      var conflicts := CheckConsistency(t.rows);
      found := found + conflicts;
    } else {
      assert found + Consistency(t) == found;
    }
    result := Ok(SortedUnique(found));
  }

  /**
   * The loop over the rows: each row's messages in turn, until a row whose
   * heading is not text raises.
   */
  method CheckRows(rows: seq<Row>) returns (result: Result<seq<string>, string>)
    ensures result.Err? <==> SomeHeadingRaises(rows)
    ensures result.Err? ==> result.error == "AttributeError"
    ensures result.Ok? ==> result.value == AllRowMsgs(rows)
  {
    var found: seq<string> := [];
    var i := 0;
    while i < |rows|
      invariant 0 <= i <= |rows|
      invariant found == AllRowMsgs(rows[..i])
      invariant !SomeHeadingRaises(rows[..i])
    {
      if HeadingRaises(rows[i]) {
        assert 0 <= i < |rows| && HeadingRaises(rows[i]);
        return Err("AttributeError");
      }
      var msgs := CheckRow(i, rows[i]);
      AllRowMsgsStep(rows, i);
      NoHeadingRaisesStep(rows, i);
      found := found + msgs;
      i := i + 1;
    }
    assert rows[..i] == rows;
    result := Ok(found);
  }

  lemma NoHeadingRaisesStep(rows: seq<Row>, i: nat)
    requires i < |rows| && !SomeHeadingRaises(rows[..i]) && !HeadingRaises(rows[i])
    ensures !SomeHeadingRaises(rows[..i + 1])
  {
    assert forall j :: 0 <= j < i ==> rows[..i + 1][j] == rows[..i][j];
  }

  lemma AllRowMsgsStep(rows: seq<Row>, i: nat)
    requires i < |rows|
    ensures AllRowMsgs(rows[..i]) + RowMsgs(i, rows[i]) == AllRowMsgs(rows[..i + 1])
  {
    assert rows[..i + 1][..i] == rows[..i];
  }

  /** The checks on one row: mandatory fields, then category, then status. */
  method CheckRow(i: nat, row: Row) returns (found: seq<string>)
    ensures found == RowMsgs(i, row)
  {
    var id := RowId(i, row);
    var fields := CheckFields(id, row);
    var category := CheckCategory(id, row);
    var status := CheckStatus(id, row);
    found := fields + category + status;
  }

  method CheckFields(id: string, row: Row) returns (found: seq<string>)
    ensures found == FieldMsgs(id, row, MandatoryFields)
  {
    var k := 0;
    found := [];
    while k < |MandatoryFields|
      invariant 0 <= k <= |MandatoryFields|
      invariant found == FieldMsgs(id, row, MandatoryFields[..k])
    {
      var (key, name) := MandatoryFields[k];
      if IsMissing(Get(row, key)) && !Exempt(row, key) {
        found := found + [MissingMsg(id, name)];
      }
      assert MandatoryFields[..k + 1][..k] == MandatoryFields[..k];
      k := k + 1;
    }
    assert MandatoryFields[..k] == MandatoryFields;
  }

  method CheckCategory(id: string, row: Row) returns (found: seq<string>)
    ensures found == CategoryMsgs(id, row)
  {
    found := [];
    var category := Get(row, "category");
    if IsPresent(category) && Render(category) !in ValidCategories {
      found := [CategoryMsg(id, Render(category))];
    }
  }

  method CheckStatus(id: string, row: Row) returns (found: seq<string>)
    ensures found == StatusMsgs(id, row)
  {
    found := [];
    var status := Get(row, "status_of_para");
    if !IsHeaderOnly(row) {
      if IsPresent(status) && Render(status) !in ValidParaStatuses {
        found := [StatusInvalidMsg(id, Render(status))];
      } else if !IsPresent(status) {
        found := [StatusMissingMsg(id)];
      }
    }
  }

  /** Builds the trade name -> categories table, then reports each name with several. */
  method CheckConsistency(rows: seq<Row>) returns (conflicts: seq<string>)
    ensures conflicts == Conflicts(rows)
  {
    var es := Entries(rows);
    var cats, order := GroupEntries(es);
    KeyOrderInGroup(es);
    conflicts := ReportConflicts(order, cats);
  }

  /** The loop over the trade names in order, reporting each one with several categories. */
  method ReportConflicts(order: seq<Cell>, cats: map<Cell, seq<string>>) returns (conflicts: seq<string>)
    requires forall k :: k in order ==> k in cats
    ensures conflicts == ConflictMsgs(order, cats)
  {
    var j := 0;
    conflicts := [];
    while j < |order|
      invariant 0 <= j <= |order|
      invariant conflicts == ConflictMsgs(order[..j], cats)
    {
      var tn := order[j];
      ConflictMsgsStep(order, cats, j);
      if |cats[tn]| > 1 {
        conflicts := conflicts + [ConsistencyMsg(tn, cats[tn])];
      }
      j := j + 1;
    }
    assert order[..j] == order;
  }

  lemma ConflictMsgsStep(keys: seq<Cell>, m: map<Cell, seq<string>>, j: nat)
    requires forall k :: k in keys ==> k in m
    requires j < |keys|
    ensures ConflictMsgs(keys[..j + 1], m)
      == ConflictMsgs(keys[..j], m) + (if |m[keys[j]]| > 1 then [ConsistencyMsg(keys[j], m[keys[j]])] else [])
  {
    assert keys[..j + 1][..j] == keys[..j];
  }

  /** The `setdefault(key, set()).add(value)` loop, with the keys in insertion order. */
  method GroupEntries<K(==)>(es: seq<Option<(K, string)>>) returns (groups: map<K, seq<string>>, order: seq<K>)
    ensures groups == Group(es) && order == KeyOrder(es)
  {
    groups := map[];
    order := [];
    var i := 0;
    while i < |es|
      invariant 0 <= i <= |es|
      invariant groups == Group(es[..i]) && order == KeyOrder(es[..i])
    {
      assert es[..i + 1][..i] == es[..i];
      if es[i].Some? {
        var (k, v) := es[i].value;
        if k !in groups {
          groups := groups[k := [v]];
          order := order + [k];
        } else if v !in groups[k] {
          groups := groups[k := groups[k] + [v]];
        }
      }
      i := i + 1;
    }
    assert es[..i] == es;
  }

  // ---------------------------------------------------------------------
  // As written: a heading that is not text crashes the validator
  // ---------------------------------------------------------------------

  /**
   * The header-only test calls `startswith` on whatever the heading cell
   * holds, for every row; a present heading that is not text raises
   * AttributeError.
   */
  predicate HeadingRaises(row: Row) {
    "audit_para_heading" in row && !row["audit_para_heading"].Str?
  }

  /** Some row's heading raises. */
  predicate SomeHeadingRaises(rows: seq<Row>) {
    exists i :: 0 <= i < |rows| && HeadingRaises(rows[i])
  }

  function ValidateAsWritten(t: Table): (r: Result<seq<string>, string>)
    ensures r.Ok? ==> r.value == Validation(t)
    ensures r.Err? <==> !IsEmpty(t) && SomeHeadingRaises(t.rows)
  {
    if IsEmpty(t) then Ok([NoDataMessage])
    else if SomeHeadingRaises(t.rows) then
      Err("AttributeError")
    else Ok(Validation(t))
  }

  /**
   * A para row whose heading is None (the extractor found no heading)
   * crashes the validator as written, although the intended behaviour is
   * to report the heading as missing.
   */
  lemma NullHeadingCrashes()
    ensures var row := map["audit_para_heading" := Null];
      var t := Table(["audit_para_heading"], [row]);
      ValidateAsWritten(t).Err?
      && MissingMsg(RowId(0, row), "Audit Para Heading") in Validation(t)
  {
    var row: Row := map["audit_para_heading" := Null];
    var t := Table(["audit_para_heading"], [row]);
    var id := RowId(0, row);
    assert HeadingRaises(t.rows[0]);
    assert ValidateAsWritten(t) == Err("AttributeError");
    assert MandatoryFields[7] == ("audit_para_heading", "Audit Para Heading");
    assert !IsHeaderOnly(row) && IsMissing(Get(row, "audit_para_heading"));
    MissingFieldReported(0, row, 7);
    assert MissingMsg(id, "Audit Para Heading") in RowMsgs(0, row);
    RowMsgsInValidation(t, 0);
  }

  // ---------------------------------------------------------------------
  // Properties
  // ---------------------------------------------------------------------

  lemma {:induction false} KeyOrderInGroup<K>(es: seq<Option<(K, string)>>)
    ensures forall k :: k in KeyOrder(es) <==> k in Group(es)
    decreases |es|
  {
    if |es| > 0 {
      KeyOrderInGroup(es[..|es| - 1]);
    }
  }

  /** An empty table (no rows or no columns) gets exactly the no-data message. */
  lemma EmptyTableMessage(t: Table)
    requires IsEmpty(t)
    ensures Validation(t) == [NoDataMessage]
  {
  }

  /** Every per-row message of every row ends up in the result. */
  lemma RowMsgsInValidation(t: Table, i: nat)
    requires !IsEmpty(t) && i < |t.rows|
    ensures forall m :: m in RowMsgs(i, t.rows[i]) ==> m in Validation(t)
  {
    AllRowMsgsContains(t.rows, i);
    forall m | m in RowMsgs(i, t.rows[i]) ensures m in Validation(t) {
      assert m in AllRowMsgs(t.rows) + Consistency(t);
      assert m in Elems(AllRowMsgs(t.rows) + Consistency(t));
    }
  }

  lemma {:induction false} AllRowMsgsContains(rows: seq<Row>, i: nat)
    requires i < |rows|
    ensures forall m :: m in RowMsgs(i, rows[i]) ==> m in AllRowMsgs(rows)
    decreases |rows|
  {
    if i < |rows| - 1 {
      AllRowMsgsContains(rows[..|rows| - 1], i);
    }
  }

  /** The result holds exactly the per-row messages and the consistency messages. */
  lemma ValidationElems(t: Table)
    requires !IsEmpty(t)
    ensures Elems(Validation(t)) == Elems(AllRowMsgs(t.rows)) + Elems(Consistency(t))
  {
    assert Elems(AllRowMsgs(t.rows) + Consistency(t)) == Elems(AllRowMsgs(t.rows)) + Elems(Consistency(t));
  }

  /** Validating is deterministic and its output is already in final form. */
  lemma ValidationIdempotent(t: Table)
    ensures SortedUnique(Validation(t)) == Validation(t)
  {
    SortedUniqueness(SortedUnique(Validation(t)), Validation(t));
  }

  // ----- missing fields -----

  lemma MissingMsgInjective(id: string, a: string, b: string)
    requires MissingMsg(id, a) == MissingMsg(id, b)
    ensures a == b
  {
    var ma, mb := MissingMsg(id, a), MissingMsg(id, b);
    assert |a| == |b|;
    assert a == ma[|id| + 3..|id| + 3 + |a|];
    assert b == mb[|id| + 3..|id| + 3 + |b|];
  }

  lemma {:induction false} FieldMsgsMembers(id: string, row: Row, fields: seq<(string, string)>, m: string)
    requires m in FieldMsgs(id, row, fields)
    ensures exists k :: (0 <= k < |fields| && m == MissingMsg(id, fields[k].1)
      && IsMissing(Get(row, fields[k].0)) && !Exempt(row, fields[k].0))
    decreases |fields|
  {
    var n := |fields| - 1;
    var prefix := fields[..n];
    if m in FieldMsgs(id, row, prefix) {
      FieldMsgsMembers(id, row, prefix, m);
      var k :| 0 <= k < |prefix| && m == MissingMsg(id, prefix[k].1)
        && IsMissing(Get(row, prefix[k].0)) && !Exempt(row, prefix[k].0);
      assert fields[k] == prefix[k];
    }
  }

  lemma {:induction false} FieldMsgsContains(id: string, row: Row, fields: seq<(string, string)>, k: nat)
    requires k < |fields|
    requires IsMissing(Get(row, fields[k].0)) && !Exempt(row, fields[k].0)
    ensures MissingMsg(id, fields[k].1) in FieldMsgs(id, row, fields)
    decreases |fields|
  {
    if k < |fields| - 1 {
      assert fields[..|fields| - 1][k] == fields[k];
      FieldMsgsContains(id, row, fields[..|fields| - 1], k);
    }
  }

  /** The position of a mandatory field's display name in the list. */
  function NameIndex(name: string): int {
    if name == "Audit Group Number" then 0
    else if name == "GSTIN" then 1
    else if name == "Trade Name" then 2
    else if name == "Category" then 3
    else if name == "Total Amount Detected (Overall Rs)" then 4
    else if name == "Total Amount Recovered (Overall Rs)" then 5
    else if name == "Audit Para Number" then 6
    else if name == "Audit Para Heading" then 7
    else if name == "Revenue Involved (Lakhs Rs)" then 8
    else if name == "Revenue Recovered (Lakhs Rs)" then 9
    else if name == "Status of para" then 10
    else -1
  }

  /** The display names are distinct: each one gives back its position. */
  lemma NameIndexOf(k: nat)
    requires k < |MandatoryFields|
    ensures NameIndex(MandatoryFields[k].1) == k
  {
  }

  /**
   * A mandatory field is reported missing on a row exactly when its value
   * is None, NaN or blank text, unless it is a para field of a header-only
   * row. Header fields are reported whatever the row is.
   */
  lemma MissingFieldReported(index: nat, row: Row, k: nat)
    requires k < |MandatoryFields|
    ensures var (key, name) := MandatoryFields[k];
      MissingMsg(RowId(index, row), name) in FieldMsgs(RowId(index, row), row, MandatoryFields)
      <==> IsMissing(Get(row, key)) && !(key in ParaFields && IsHeaderOnly(row))
  {
    var id := RowId(index, row);
    var (key, name) := MandatoryFields[k];
    if IsMissing(Get(row, key)) && !Exempt(row, key) {
      FieldMsgsContains(id, row, MandatoryFields, k);
    }
    if MissingMsg(id, name) in FieldMsgs(id, row, MandatoryFields) {
      FieldMsgsMembers(id, row, MandatoryFields, MissingMsg(id, name));
      var k' :| 0 <= k' < |MandatoryFields| && MissingMsg(id, name) == MissingMsg(id, MandatoryFields[k'].1)
        && IsMissing(Get(row, MandatoryFields[k'].0)) && !Exempt(row, MandatoryFields[k'].0);
      MissingMsgInjective(id, name, MandatoryFields[k'].1);
      NameIndexOf(k);
      NameIndexOf(k');
    }
  }

  // ----- category and status -----

  /**
   * A category is flagged exactly when it is present, not blank and not
   * one of the three allowed values; a row whose category is flagged
   * never takes part in the consistency check, and a counted row is
   * never flagged.
   */
  lemma CategoryRule(index: nat, row: Row)
    ensures var v := Get(row, "category");
      |CategoryMsgs(RowId(index, row), row)| <= 1
      && (CategoryMsgs(RowId(index, row), row) != []
          <==> IsPresent(v) && Render(v) !in ValidCategories)
    ensures Counted(row) ==> CategoryMsgs(RowId(index, row), row) == []
  {
  }

  /**
   * On a header-only row the status is not checked. On any other row
   * exactly one of three things holds: the status is one of the five
   * allowed values and nothing is said, it is present but not allowed and
   * is reported invalid, or it is missing and is reported twice — as a
   * missing mandatory field and as missing for a data para.
   */
  lemma StatusRule(index: nat, row: Row)
    ensures IsHeaderOnly(row) ==> StatusMsgs(RowId(index, row), row) == []
    ensures var id := RowId(index, row);
      var v := Get(row, "status_of_para");
      !IsHeaderOnly(row) ==>
        (StatusMsgs(id, row) == [] <==> IsPresent(v) && Render(v) in ValidParaStatuses)
        && (StatusMsgs(id, row) == [StatusInvalidMsg(id, Render(v))] <==> IsPresent(v) && Render(v) !in ValidParaStatuses)
    ensures var id := RowId(index, row);
      var v := Get(row, "status_of_para");
      !IsHeaderOnly(row) && IsMissing(v) ==>
        StatusMissingMsg(id) in RowMsgs(index, row) && MissingMsg(id, "Status of para") in RowMsgs(index, row)
  {
    var id := RowId(index, row);
    var v := Get(row, "status_of_para");
    if !IsHeaderOnly(row) && IsMissing(v) {
      assert !IsPresent(v) by {
        if v.Str? {
          assert Render(v) == v.s;
        }
      }
      assert StatusMsgs(id, row) == [StatusMissingMsg(id)];
      assert MandatoryFields[10] == ("status_of_para", "Status of para");
      FieldMsgsContains(id, row, MandatoryFields, 10);
    }
  }

  // ----- consistency -----

  predicate Distinct(s: seq<string>) {
    forall i, j :: 0 <= i < j < |s| ==> s[i] != s[j]
  }

  /** Each key's values are listed once each. */
  lemma {:induction false} GroupDistinct<K>(es: seq<Option<(K, string)>>)
    ensures forall k :: k in Group(es) ==> Distinct(Group(es)[k])
    decreases |es|
  {
    if |es| > 0 {
      GroupDistinct(es[..|es| - 1]);
    }
  }

  /** The value of every entry is recorded under its key. */
  lemma {:induction false} GroupComplete<K>(es: seq<Option<(K, string)>>, i: nat)
    requires i < |es| && es[i].Some?
    ensures es[i].value.0 in Group(es) && es[i].value.1 in Group(es)[es[i].value.0]
    decreases |es|
  {
    var n := |es| - 1;
    if i < n {
      assert es[..n][i] == es[i];
      GroupComplete(es[..n], i);
    }
  }

  /** Every recorded value comes from an entry with that key. */
  lemma {:induction false} GroupSound<K>(es: seq<Option<(K, string)>>, k: K, v: string)
    requires k in Group(es) && v in Group(es)[k]
    ensures exists i :: 0 <= i < |es| && es[i] == Some((k, v))
    decreases |es|
  {
    var n := |es| - 1;
    var prefix := es[..n];
    if k in Group(prefix) && v in Group(prefix)[k] {
      GroupSound(prefix, k, v);
      var i :| 0 <= i < |prefix| && prefix[i] == Some((k, v));
      assert es[i] == prefix[i];
    } else {
      var e := es[n];
      assert e.Some? && e.value.0 == k && e.value.1 == v;
    }
  }

  lemma {:induction false} ConflictMsgsContains(keys: seq<Cell>, m: map<Cell, seq<string>>, k: nat)
    requires forall x :: x in keys ==> x in m
    requires k < |keys| && |m[keys[k]]| > 1
    ensures ConsistencyMsg(keys[k], m[keys[k]]) in ConflictMsgs(keys, m)
    decreases |keys|
  {
    if k < |keys| - 1 {
      assert keys[..|keys| - 1][k] == keys[k];
      ConflictMsgsContains(keys[..|keys| - 1], m, k);
    }
  }

  lemma {:induction false} ConflictMsgsMembers(keys: seq<Cell>, m: map<Cell, seq<string>>, msg: string)
    returns (k: Cell)
    requires forall x :: x in keys ==> x in m
    requires msg in ConflictMsgs(keys, m)
    ensures k in keys && |m[k]| > 1 && msg == ConsistencyMsg(k, m[k])
    decreases |keys|
  {
    var n := |keys| - 1;
    if msg in ConflictMsgs(keys[..n], m) {
      k := ConflictMsgsMembers(keys[..n], m, msg);
      assert k in keys;
    } else {
      k := keys[n];
    }
  }

  /** The valid categories the counted rows give a trade name. */
  function CategoriesOf(rows: seq<Row>, tn: Cell): set<string> {
    set i | 0 <= i < |rows| && Counted(rows[i]) && Get(rows[i], "trade_name") == tn
      :: Get(rows[i], "category").s
  }

  /** The categories recorded for a trade name are exactly those its counted rows carry. */
  lemma CatsMapMeaning(rows: seq<Row>, tn: Cell)
    requires tn in CatsMap(rows)
    ensures Elems(CatsMap(rows)[tn]) == CategoriesOf(rows, tn)
  {
    var es := Entries(rows);
    forall c | c in Elems(CatsMap(rows)[tn]) ensures c in CategoriesOf(rows, tn) {
      GroupSound(es, tn, c);
      var i :| 0 <= i < |es| && es[i] == Some((tn, c));
      assert es[i] == Entry(rows[i]);
      assert Counted(rows[i]) && Get(rows[i], "trade_name") == tn && Get(rows[i], "category").s == c;
    }
    forall c | c in CategoriesOf(rows, tn) ensures c in Elems(CatsMap(rows)[tn]) {
      var i :| 0 <= i < |rows| && Counted(rows[i]) && Get(rows[i], "trade_name") == tn
        && Get(rows[i], "category").s == c;
      GroupComplete(es, i);
    }
  }

  /** Two entries with one key and different values put two values under that key. */
  lemma GroupConflict<K>(es: seq<Option<(K, string)>>, i: nat, j: nat)
    requires i < |es| && j < |es| && es[i].Some? && es[j].Some?
    requires es[i].value.0 == es[j].value.0 && es[i].value.1 != es[j].value.1
    ensures es[i].value.0 in Group(es) && |Group(es)[es[i].value.0]| > 1
  {
    GroupComplete(es, i);
    GroupComplete(es, j);
    var vs := Group(es)[es[i].value.0];
    assert es[i].value.1 in vs && es[j].value.1 in vs;
  }

  /** A key holding two values got them from two entries with different values. */
  lemma GroupConflictSource<K>(es: seq<Option<(K, string)>>, k: K) returns (i: nat, j: nat)
    requires k in Group(es) && |Group(es)[k]| > 1
    ensures i < |es| && j < |es| && es[i].Some? && es[j].Some?
    ensures es[i].value.0 == k && es[j].value.0 == k && es[i].value.1 != es[j].value.1
  {
    GroupDistinct(es);
    var vs := Group(es)[k];
    assert vs[0] != vs[1];
    GroupSound(es, k, vs[0]);
    GroupSound(es, k, vs[1]);
    i :| 0 <= i < |es| && es[i] == Some((k, vs[0]));
    j :| 0 <= j < |es| && es[j] == Some((k, vs[1]));
  }

  lemma ConsistencyInValidation(t: Table, msg: string)
    requires !IsEmpty(t) && msg in Consistency(t)
    ensures msg in Validation(t)
  {
    ValidationElems(t);
    assert msg in Elems(Consistency(t));
    assert msg in Elems(Validation(t));
  }

  /**
   * Two counted rows with the same trade name and different categories
   * produce the consistency message for that name.
   */
  lemma ConflictReported(t: Table, i: nat, j: nat)
    requires !IsEmpty(t) && "trade_name" in t.columns && "category" in t.columns
    requires i < |t.rows| && j < |t.rows| && Counted(t.rows[i]) && Counted(t.rows[j])
    requires Get(t.rows[i], "trade_name") == Get(t.rows[j], "trade_name")
    requires Get(t.rows[i], "category") != Get(t.rows[j], "category")
    ensures var tn := Get(t.rows[i], "trade_name");
      tn in CatsMap(t.rows) && ConsistencyMsg(tn, CatsMap(t.rows)[tn]) in Validation(t)
  {
    var es := Entries(t.rows);
    var tn := Get(t.rows[i], "trade_name");
    assert es[i] == Entry(t.rows[i]) && es[j] == Entry(t.rows[j]);
    GroupConflict(es, i, j);
    KeyOrderInGroup(es);
    var k :| 0 <= k < |KeyOrder(es)| && KeyOrder(es)[k] == tn;
    ConflictMsgsContains(KeyOrder(es), Group(es), k);
    ConsistencyInValidation(t, ConsistencyMsg(tn, Group(es)[tn]));
  }

  /**
   * Conversely, each consistency message names a trade name seen on two
   * counted rows with different categories.
   */
  lemma ConflictOnlyForTwoCategories(t: Table, msg: string)
    requires msg in Consistency(t)
    ensures exists tn, i, j :: (0 <= i < |t.rows| && 0 <= j < |t.rows|
      && Counted(t.rows[i]) && Counted(t.rows[j])
      && Get(t.rows[i], "trade_name") == tn && Get(t.rows[j], "trade_name") == tn
      && Get(t.rows[i], "category") != Get(t.rows[j], "category")
      && tn in CatsMap(t.rows) && msg == ConsistencyMsg(tn, CatsMap(t.rows)[tn]))
  {
    var tn, i, j := ConflictSource(t, msg);
  }

  lemma ConflictSource(t: Table, msg: string) returns (tn: Cell, i: nat, j: nat)
    requires msg in Consistency(t)
    ensures i < |t.rows| && j < |t.rows|
      && Counted(t.rows[i]) && Counted(t.rows[j])
      && Get(t.rows[i], "trade_name") == tn && Get(t.rows[j], "trade_name") == tn
      && Get(t.rows[i], "category") != Get(t.rows[j], "category")
      && tn in CatsMap(t.rows) && msg == ConsistencyMsg(tn, CatsMap(t.rows)[tn])
  {
    var es := Entries(t.rows);
    KeyOrderInGroup(es);
    assert msg in ConflictMsgs(KeyOrder(es), Group(es));
    tn := ConflictMsgsMembers(KeyOrder(es), Group(es), msg);
    i, j := GroupConflictSource(es, tn);
    EntryOfRow(t.rows, i);
    EntryOfRow(t.rows, j);
  }

  /** A row with an entry is counted, and the entry holds its trade name and category. */
  lemma EntryOfRow(rows: seq<Row>, i: nat)
    requires i < |rows| && Entries(rows)[i].Some?
    ensures var e := Entries(rows)[i].value;
      Counted(rows[i]) && Get(rows[i], "trade_name") == e.0 && Get(rows[i], "category") == Str(e.1)
  {
    assert Entries(rows)[i] == Entry(rows[i]);
  }
}
