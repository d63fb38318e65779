/**
 * The login activity report: the activity log sheet (one row per login:
 * timestamp, username, role) is read, rows whose timestamp does not parse
 * are dropped from the log in place, the logins since a cutoff are kept,
 * and the report counts them per (username, role), most logins first.
 *
 * Timestamps are seconds on one clock; parsing a timestamp cell is a
 * parameter (`pd.to_datetime` with `errors='coerce'`, None for NaT), and
 * so is the current time.
 */
module LoginReport {
  import opened Basics
  import opened Frames
  import Sorting

  const LogColumns: seq<string> := ["Timestamp", "Username", "Role"]
  const ReportColumns: seq<string> := ["Username", "Role", "Login Count"]
  const SecondsPerDay := 86400

  // ---------------------------------------------------------------------
  // Reading the log
  // ---------------------------------------------------------------------

  /**
   * `get_log_data`: the log as read, unless there is no sheet id, the
   * sheet is empty, or its columns are not exactly the three log columns;
   * then an empty table with those columns.
   */
  function GetLogData(spreadsheetId: Option<string>, read: Table): (t: Table)
    ensures t.columns == LogColumns
    ensures t == read || t.rows == []
    ensures spreadsheetId.None? || spreadsheetId.value == "" ==> t.rows == []
    ensures read.columns != LogColumns ==> t.rows == []
  {
    if spreadsheetId.None? || spreadsheetId.value == "" then Table(LogColumns, [])
    else if IsEmpty(read) || read.columns != LogColumns then Table(LogColumns, [])
    else read
  }

  /** A well-shaped, non-empty log sheet is passed on unchanged. */
  lemma WellShapedLogKept(id: string, read: Table)
    requires id != "" && |read.rows| > 0 && read.columns == LogColumns
    ensures GetLogData(Some(id), read) == read
  {
  }

  // ---------------------------------------------------------------------
  // Cleaning the timestamps in place
  // ---------------------------------------------------------------------

  /** A row after `df['Timestamp'] = pd.to_datetime(..., errors='coerce')`: NaT is a missing value. */
  function ParsedRow(row: Row, parse: Cell -> Option<int>): Row {
    var t := parse(Get(row, "Timestamp"));
    row["Timestamp" := if t.Some? then Int(t.value) else Null]
  }

  function WithParsedTimestamps(rows: seq<Row>, parse: Cell -> Option<int>): (r: seq<Row>)
    ensures |r| == |rows|
    ensures forall i :: 0 <= i < |rows| ==> r[i] == ParsedRow(rows[i], parse)
  {
    seq(|rows|, i requires 0 <= i < |rows| => ParsedRow(rows[i], parse))
  }

  /** `dropna(subset=[col])`: the rows whose cell in `col` is present, in order. */
  function WithoutMissing(rows: seq<Row>, col: string): (r: seq<Row>)
    ensures |r| <= |rows|
    ensures forall x :: x in r <==> x in rows && !IsNa(Get(x, col))
    decreases |rows|
  {
    if |rows| == 0 then []
    else
      var init := rows[..|rows| - 1];
      var last := rows[|rows| - 1];
      assert rows == init + [last];
      WithoutMissing(init, col) + (if IsNa(Get(last, col)) then [] else [last])
  }

  /** The mask of `dropna(subset=[col])`: the rows holding a value in `col`. */
  function HasValue(col: string): Row -> bool {
    x => !IsNa(Get(x, col))
  }

  /** The rows kept are the masked rows: in their order, repeats kept. */
  lemma {:induction false} WithoutMissingIsMask(rows: seq<Row>, col: string)
    ensures WithoutMissing(rows, col) == Masked(rows, HasValue(col))
    decreases |rows|
  {
    if |rows| > 0 {
      WithoutMissingIsMask(rows[..|rows| - 1], col);
      MaskedSnoc(rows, HasValue(col));
    }
  }

  function CleanedRows(rows: seq<Row>, parse: Cell -> Option<int>): seq<Row> {
    WithoutMissing(WithParsedTimestamps(rows, parse), "Timestamp")
  }

  /**
   * After cleaning, a row of the log is there exactly when its timestamp
   * parsed, and then it holds the parsed time; every remaining timestamp
   * is a time.
   */
  lemma CleaningKeepsParsedRows(rows: seq<Row>, parse: Cell -> Option<int>, row: Row, x: Row)
    requires row in rows
    ensures ParsedRow(row, parse) in CleanedRows(rows, parse) <==> parse(Get(row, "Timestamp")).Some?
    ensures x in CleanedRows(rows, parse) ==> Get(x, "Timestamp").Int?
  {
    var parsed := WithParsedTimestamps(rows, parse);
    var i :| 0 <= i < |rows| && rows[i] == row;
    assert parsed[i] == ParsedRow(row, parse);
    if x in CleanedRows(rows, parse) {
      var j :| 0 <= j < |parsed| && parsed[j] == x;
    }
  }

  /**
   * The two in-place steps on the log: the timestamp column is replaced
   * by the parsed times, then the rows without one are dropped.
   */
  method CleanTimestamps(logs: DataFrame, parse: Cell -> Option<int>)
    requires "Timestamp" in logs.columns
    modifies logs
    ensures logs.columns == old(logs.columns)
    ensures logs.rows == CleanedRows(old(logs.rows), parse)
  {
    logs.rows := WithParsedTimestamps(logs.rows, parse);
    logs.rows := WithoutMissing(logs.rows, "Timestamp");
  }

  // ---------------------------------------------------------------------
  // Recent logins, counted per user and role
  // ---------------------------------------------------------------------

  /** `df[df['Timestamp'] >= cutoff]` */
  function Recent(rows: seq<Row>, cutoff: int): (r: seq<Row>)
    ensures |r| <= |rows|
    ensures forall x :: x in r <==> x in rows && Get(x, "Timestamp").Int? && Get(x, "Timestamp").i >= cutoff
    decreases |rows|
  {
    if |rows| == 0 then []
    else
      var init := rows[..|rows| - 1];
      var last := rows[|rows| - 1];
      assert rows == init + [last];
      var ts := Get(last, "Timestamp");
      Recent(init, cutoff) + (if ts.Int? && ts.i >= cutoff then [last] else [])
  }

  /** The mask `df['Timestamp'] >= cutoff`: a missing time never passes. */
  function AtOrAfter(cutoff: int): Row -> bool {
    x => Get(x, "Timestamp").Int? && Get(x, "Timestamp").i >= cutoff
  }

  /** The recent rows are the masked rows: in their order, repeats kept. */
  lemma {:induction false} RecentIsMask(rows: seq<Row>, cutoff: int)
    ensures Recent(rows, cutoff) == Masked(rows, AtOrAfter(cutoff))
    decreases |rows|
  {
    if |rows| > 0 {
      RecentIsMask(rows[..|rows| - 1], cutoff);
      MaskedSnoc(rows, AtOrAfter(cutoff));
    }
  }

  type Key = (Cell, Cell)

  /** The (username, role) key of every row, skipping rows where either is missing, as `groupby` does. */
  function KeysOf(rows: seq<Row>): (r: seq<Key>)
    ensures |r| <= |rows|
    ensures forall k :: k in r ==> !IsNa(k.0) && !IsNa(k.1)
    decreases |rows|
  {
    if |rows| == 0 then []
    else
      var init := rows[..|rows| - 1];
      var last := rows[|rows| - 1];
      var user := Get(last, "Username");
      var role := Get(last, "Role");
      KeysOf(init) + (if IsNa(user) || IsNa(role) then [] else [(user, role)])
  }

  /** One row of the report. */
  datatype LoginCount = LoginCount(username: Cell, role: Cell, count: nat)

  function KeyOf(e: LoginCount): Key {
    (e.username, e.role)
  }

  function CountOf(e: LoginCount): int {
    e.count
  }

  predicate NoRepeatedKeys(s: seq<LoginCount>) {
    forall i, j :: 0 <= i < j < |s| ==> KeyOf(s[i]) != KeyOf(s[j])
  }

  function KeySet(s: seq<LoginCount>): set<Key> {
    set e | e in s :: KeyOf(e)
  }

  /** The count recorded for a key, 0 when it has no row. */
  function CountFor(s: seq<LoginCount>, k: Key): nat
    decreases |s|
  {
    if |s| == 0 then 0
    else if KeyOf(s[0]) == k then s[0].count
    else CountFor(s[1..], k)
  }

  function Total(s: seq<LoginCount>): nat
    decreases |s|
  {
    if |s| == 0 then 0 else s[0].count + Total(s[1..])
  }

  /** One more login for a key: its row counts one more, or a new row with count 1 goes at the end. */
  function Bump(s: seq<LoginCount>, k: Key): (r: seq<LoginCount>)
    decreases |s|
  {
    if |s| == 0 then [LoginCount(k.0, k.1, 1)]
    else if KeyOf(s[0]) == k then [s[0].(count := s[0].count + 1)] + s[1..]
    else [s[0]] + Bump(s[1..], k)
  }

  /** `groupby(['Username', 'Role']).size()`: one row per key, in order of first login. */
  function Tally(keys: seq<Key>): seq<LoginCount>
    decreases |keys|
  {
    if |keys| == 0 then [] else Bump(Tally(keys[..|keys| - 1]), keys[|keys| - 1])
  }

  lemma {:induction false} BumpKeys(s: seq<LoginCount>, k: Key)
    ensures KeySet(Bump(s, k)) == KeySet(s) + {k}
    decreases |s|
  {
    var r := Bump(s, k);
    if |s| == 0 {
      assert r == [LoginCount(k.0, k.1, 1)] + [];
      KeySetCons(LoginCount(k.0, k.1, 1), []);
    } else {
      var rest := s[1..];
      assert s == [s[0]] + rest;
      KeySetCons(s[0], rest);
      if KeyOf(s[0]) == k {
        assert r == [r[0]] + rest;
        KeySetCons(r[0], rest);
      } else {
        BumpKeys(rest, k);
        assert r == [s[0]] + Bump(rest, k);
        KeySetCons(s[0], Bump(rest, k));
      }
    }
  }

  lemma {:induction false} BumpKeepsKeysApart(s: seq<LoginCount>, k: Key)
    requires NoRepeatedKeys(s)
    ensures NoRepeatedKeys(Bump(s, k))
    decreases |s|
  {
    var r := Bump(s, k);
    if |s| > 0 {
      var rest := s[1..];
      assert NoRepeatedKeys(rest);
      if KeyOf(s[0]) == k {
        forall i, j | 0 <= i < j < |r| ensures KeyOf(r[i]) != KeyOf(r[j]) {
          assert KeyOf(r[i]) == KeyOf(s[i]) && KeyOf(r[j]) == KeyOf(s[j]);
        }
      } else {
        BumpKeepsKeysApart(rest, k);
        BumpKeys(rest, k);
        KeyNotInRest(s);
        var tail := Bump(rest, k);
        assert r == [s[0]] + tail;
        forall i, j | 0 <= i < j < |r| ensures KeyOf(r[i]) != KeyOf(r[j]) {
          if i == 0 {
            assert r[j] == tail[j - 1];
            assert KeyOf(r[j]) in KeySet(tail);
          } else {
            assert r[i] == tail[i - 1] && r[j] == tail[j - 1];
          }
        }
      }
    }
  }

  lemma {:induction false} BumpCounts(s: seq<LoginCount>, k: Key)
    ensures Total(Bump(s, k)) == Total(s) + 1
    ensures forall j :: CountFor(Bump(s, k), j) == CountFor(s, j) + (if j == k then 1 else 0)
    decreases |s|
  {
    if |s| > 0 && KeyOf(s[0]) != k {
      BumpCounts(s[1..], k);
      assert Bump(s, k)[1..] == Bump(s[1..], k);
    } else if |s| > 0 {
      assert Bump(s, k)[1..] == s[1..];
    }
  }

  lemma KeySetCons(e: LoginCount, s: seq<LoginCount>)
    ensures KeySet([e] + s) == {KeyOf(e)} + KeySet(s)
  {
    assert forall x :: x in [e] + s <==> x == e || x in s;
  }

  /** The first row's key appears nowhere after it. */
  lemma KeyNotInRest(s: seq<LoginCount>)
    requires |s| > 0 && NoRepeatedKeys(s)
    ensures KeyOf(s[0]) !in KeySet(s[1..])
  {
    forall e | e in s[1..] ensures KeyOf(e) != KeyOf(s[0]) {
      var j :| 0 <= j < |s[1..]| && s[1..][j] == e;
      assert s[j + 1] == e;
    }
  }

  /**
   * The tally of a list of keys has one row per distinct key, each with
   * the number of times its key occurs, and the counts add up to the
   * number of keys.
   */
  lemma {:induction false} TallyFacts(keys: seq<Key>)
    ensures NoRepeatedKeys(Tally(keys))
    ensures KeySet(Tally(keys)) == set k | k in keys
    ensures Total(Tally(keys)) == |keys|
    ensures forall k :: CountFor(Tally(keys), k) == multiset(keys)[k]
    decreases |keys|
  {
    if |keys| > 0 {
      var init := keys[..|keys| - 1];
      var last := keys[|keys| - 1];
      assert keys == init + [last];
      TallyFacts(init);
      BumpKeys(Tally(init), last);
      BumpKeepsKeysApart(Tally(init), last);
      BumpCounts(Tally(init), last);
      assert multiset(keys) == multiset(init) + multiset{last};
    }
  }

  /** In a table without repeated keys, a row's count is the count recorded for its key. */
  lemma {:induction false} EntryCount(s: seq<LoginCount>, e: LoginCount)
    requires NoRepeatedKeys(s) && e in s
    ensures e.count == CountFor(s, KeyOf(e))
    decreases |s|
  {
    if s[0] != e {
      assert e in s[1..];
      KeyNotInRest(s);
      assert KeyOf(e) in KeySet(s[1..]);
      assert NoRepeatedKeys(s[1..]);
      EntryCount(s[1..], e);
    }
  }

  lemma {:induction false} TotalAppend(u: seq<LoginCount>, v: seq<LoginCount>)
    ensures Total(u + v) == Total(u) + Total(v)
    decreases |u|
  {
    if |u| > 0 {
      assert (u + v)[1..] == u[1..] + v;
      TotalAppend(u[1..], v);
    } else {
      assert u + v == v;
    }
  }

  lemma TotalCons(x: LoginCount, s: seq<LoginCount>)
    ensures Total([x] + s) == x.count + Total(s)
  {
    assert ([x] + s)[1..] == s;
  }

  /** The total is the count of any one row plus the total of the others. */
  lemma TotalWithout(b: seq<LoginCount>, j: nat)
    requires j < |b|
    ensures Total(b) == b[j].count + Total(b[..j] + b[j + 1..])
  {
    var pre, post := b[..j], b[j + 1..];
    assert b == pre + ([b[j]] + post);
    TotalAppend(pre, [b[j]] + post);
    TotalCons(b[j], post);
    TotalAppend(pre, post);
  }

  lemma MultisetWithout(b: seq<LoginCount>, j: nat)
    requires j < |b|
    ensures multiset(b[..j] + b[j + 1..]) == multiset(b) - multiset{b[j]}
  {
    assert b == b[..j] + [b[j]] + b[j + 1..];
  }

  lemma MultisetTail(a: seq<LoginCount>)
    requires |a| > 0
    ensures multiset(a[1..]) == multiset(a) - multiset{a[0]}
  {
    assert a == [a[0]] + a[1..];
  }

  /** Rearranging the rows does not change the total. */
  lemma {:induction false} TotalRearranged(a: seq<LoginCount>, b: seq<LoginCount>)
    requires multiset(a) == multiset(b)
    ensures Total(a) == Total(b)
    decreases |a|
  {
    if |a| == 0 {
      assert |b| == |multiset(b)| == 0;
    } else {
      var j := IndexOf(b, a[0]);
      var rest := b[..j] + b[j + 1..];
      MultisetWithout(b, j);
      MultisetTail(a);
      TotalRearranged(a[1..], rest);
      TotalWithout(b, j);
    }
  }

  /** A position at which a row occurs. */
  function IndexOf(b: seq<LoginCount>, x: LoginCount): (j: nat)
    requires x in multiset(b)
    ensures j < |b| && b[j] == x
  {
    if b[0] == x then 0 else IndexOf(b[1..], x) + 1
  }

  /** A row that occurs twice in a rearrangement occurs twice in the original. */
  lemma RepeatedRow(s: seq<LoginCount>, i: nat, j: nat)
    requires i < j < |s| && s[i] == s[j]
    ensures multiset(s)[s[i]] >= 2
  {
    var x := s[i];
    assert s == s[..j] + s[j..];
    assert x in s[..j] && x in s[j..];
    assert multiset(s)[x] == multiset(s[..j])[x] + multiset(s[j..])[x];
  }

  lemma {:induction false} SingleRows(s: seq<LoginCount>, x: LoginCount)
    requires NoRepeatedKeys(s)
    ensures multiset(s)[x] <= 1
    decreases |s|
  {
    if |s| > 0 {
      var init := s[..|s| - 1];
      assert NoRepeatedKeys(init);
      SingleRows(init, x);
      assert s == init + [s[|s| - 1]];
      if s[|s| - 1] == x {
        forall i | 0 <= i < |init| ensures init[i] != x {
          assert KeyOf(s[i]) != KeyOf(s[|s| - 1]);
        }
      }
    }
  }

  /** Two positions of a rearrangement of rows with unrepeated keys hold different rows. */
  lemma DistinctRows(a: seq<LoginCount>, b: seq<LoginCount>, i: nat, j: nat)
    requires NoRepeatedKeys(a) && multiset(a) == multiset(b) && i < j < |b|
    ensures b[i] != b[j]
  {
    if b[i] == b[j] {
      RepeatedRow(b, i, j);
      SingleRows(a, b[i]);
      assert false;
    }
  }

  /** Rearranging the rows keeps the keys unrepeated. */
  lemma NoRepeatedKeysRearranged(a: seq<LoginCount>, b: seq<LoginCount>)
    requires NoRepeatedKeys(a) && multiset(a) == multiset(b)
    ensures NoRepeatedKeys(b)
  {
    forall i, j | 0 <= i < j < |b| ensures KeyOf(b[i]) != KeyOf(b[j]) {
      DistinctRows(a, b, i, j);
      assert b[i] in multiset(a) && b[j] in multiset(a);
      var p :| 0 <= p < |a| && a[p] == b[i];
      var q :| 0 <= q < |a| && a[q] == b[j];
      if p < q {
        assert KeyOf(a[p]) != KeyOf(a[q]);
      } else {
        assert KeyOf(a[q]) != KeyOf(a[p]);
      }
    }
  }

  /** The counts, most logins first: `sort_values('Login Count', ascending=False)`. */
  function LoginCounts(rows: seq<Row>): seq<LoginCount> {
    Sorting.SortDesc(Tally(KeysOf(rows)), CountOf)
  }

  /**
   * The counts for a list of logins: one row per (username, role) that
   * logged in, counting exactly the logins with that key, most logins
   * first, and the counts add up to the number of logins with both keys.
   */
  lemma LoginCountsFacts(rows: seq<Row>)
    ensures var counts := LoginCounts(rows);
      Sorting.Descending(counts, CountOf)
      && NoRepeatedKeys(counts)
      && (forall e :: e in counts ==> e.count == multiset(KeysOf(rows))[KeyOf(e)] && e.count >= 1)
      && (forall k :: k in KeysOf(rows) ==> exists e :: e in counts && KeyOf(e) == k)
      && Total(counts) == |KeysOf(rows)|
  {
    var keys := KeysOf(rows);
    var tally := Tally(keys);
    var counts := LoginCounts(rows);
    TallyFacts(keys);
    assert multiset(counts) == multiset(tally);
    NoRepeatedKeysRearranged(tally, counts);
    TotalRearranged(tally, counts);
    forall e | e in counts ensures e.count == multiset(keys)[KeyOf(e)] && e.count >= 1 {
      assert e in multiset(tally);
      EntryCount(tally, e);
      assert KeyOf(e) in KeySet(tally);
    }
    forall k | k in keys ensures exists e :: e in counts && KeyOf(e) == k {
      assert k in KeySet(tally);
      var e :| e in tally && KeyOf(e) == k;
      assert e in multiset(counts);
    }
  }

  function CountRow(e: LoginCount): Row {
    map["Username" := e.username, "Role" := e.role, "Login Count" := Int(e.count)]
  }

  /** The report for the cleaned log: empty when no login is recent enough. */
  function ReportOf(rows: seq<Row>, cutoff: int): (t: Table)
    ensures Recent(rows, cutoff) == [] ==> t == Table([], [])
    ensures Recent(rows, cutoff) != [] ==> t.columns == ReportColumns && |t.rows| == |LoginCounts(Recent(rows, cutoff))|
  {
    var kept := Recent(rows, cutoff);
    if kept == [] then Table([], [])
    else
      var counts := LoginCounts(kept);
      Table(ReportColumns, seq(|counts|, i requires 0 <= i < |counts| => CountRow(counts[i])))
  }

  /** Reading the report back: every row counts exactly the recent logins of its username and role. */
  lemma ReportCountsLogins(rows: seq<Row>, cutoff: int)
    ensures var t := ReportOf(rows, cutoff);
      var keys := KeysOf(Recent(rows, cutoff));
      forall i :: 0 <= i < |t.rows| ==>
        ReportKeys(t.rows[i]) && t.rows[i]["Login Count"] == Int(multiset(keys)[RowKey(t.rows[i])])
  {
    var t := ReportOf(rows, cutoff);
    var kept := Recent(rows, cutoff);
    if kept != [] {
      var counts := LoginCounts(kept);
      LoginCountsFacts(kept);
      forall i | 0 <= i < |t.rows|
        ensures ReportKeys(t.rows[i]) && t.rows[i]["Login Count"] == Int(multiset(KeysOf(kept))[RowKey(t.rows[i])])
      {
        ReportRowAt(rows, cutoff, i);
        assert counts[i] in counts;
      }
    }
  }

  /** The counts never increase down the report, and no (username, role) pair has two rows. */
  lemma ReportDescending(rows: seq<Row>, cutoff: int)
    ensures var t := ReportOf(rows, cutoff);
      forall i, j :: 0 <= i < j < |t.rows| ==> InReportOrder(t.rows[i], t.rows[j])
  {
    var t := ReportOf(rows, cutoff);
    var kept := Recent(rows, cutoff);
    if kept != [] {
      forall i, j | 0 <= i < j < |t.rows| ensures InReportOrder(t.rows[i], t.rows[j]) {
        ReportRowAt(rows, cutoff, i);
        ReportRowAt(rows, cutoff, j);
        LoginCountsOrdered(kept, i, j);
      }
    }
  }

  /** Row `a` may come before row `b`: at least as many logins, and a different (username, role). */
  predicate InReportOrder(a: Row, b: Row) {
    ReportKeys(a) && ReportKeys(b)
    && a["Login Count"].i >= b["Login Count"].i && RowKey(a) != RowKey(b)
  }

  lemma LoginCountsOrdered(rows: seq<Row>, i: nat, j: nat)
    requires i < j < |LoginCounts(rows)|
    ensures var counts := LoginCounts(rows);
      counts[i].count >= counts[j].count && KeyOf(counts[i]) != KeyOf(counts[j])
  {
    var counts := LoginCounts(rows);
    LoginCountsFacts(rows);
    assert CountOf(counts[i]) >= CountOf(counts[j]);
  }

  /** Every (username, role) pair with a recent login has a row in the report. */
  lemma ReportCoversLogins(rows: seq<Row>, cutoff: int)
    ensures var t := ReportOf(rows, cutoff);
      forall k :: k in KeysOf(Recent(rows, cutoff)) ==>
        exists i :: 0 <= i < |t.rows| && ReportKeys(t.rows[i]) && RowKey(t.rows[i]) == k
  {
    var t := ReportOf(rows, cutoff);
    var kept := Recent(rows, cutoff);
    if kept != [] {
      var counts := LoginCounts(kept);
      LoginCountsFacts(kept);
      forall k | k in KeysOf(kept) ensures exists i :: 0 <= i < |t.rows| && ReportKeys(t.rows[i]) && RowKey(t.rows[i]) == k {
        var e :| e in counts && KeyOf(e) == k;
        var i :| 0 <= i < |counts| && counts[i] == e;
        ReportRowAt(rows, cutoff, i);
      }
    }
  }

  lemma ReportRowAt(rows: seq<Row>, cutoff: int, i: nat)
    requires Recent(rows, cutoff) != [] && i < |LoginCounts(Recent(rows, cutoff))|
    ensures var e := LoginCounts(Recent(rows, cutoff))[i];
      i < |ReportOf(rows, cutoff).rows| && ReportOf(rows, cutoff).rows[i] == CountRow(e)
      && ReportKeys(CountRow(e)) && RowKey(CountRow(e)) == KeyOf(e) && CountRow(e)["Login Count"] == Int(e.count)
  {
  }

  predicate ReportKeys(row: Row) {
    "Username" in row && "Role" in row && "Login Count" in row && row["Login Count"].Int?
  }

  function RowKey(row: Row): Key
    requires ReportKeys(row)
  {
    (row["Username"], row["Role"])
  }

  /**
   * `generate_login_report`: an empty log gives an empty report and is
   * left alone; otherwise the log's timestamps are cleaned in place and
   * the report counts the logins from `days` days before `now` on.
   */
  method GenerateLoginReport(logs: DataFrame, days: int, now: int, parse: Cell -> Option<int>) returns (report: Table)
    requires !IsEmpty(logs.Snapshot()) ==> "Timestamp" in logs.columns
    modifies logs
    ensures IsEmpty(old(logs.Snapshot())) ==> report == Table([], []) && logs.Snapshot() == old(logs.Snapshot())
    ensures !IsEmpty(old(logs.Snapshot())) ==>
      logs.columns == old(logs.columns)
      && logs.rows == CleanedRows(old(logs.rows), parse)
      && report == ReportOf(logs.rows, now - days * SecondsPerDay)
  {
    if IsEmpty(logs.Snapshot()) {
      return Table([], []);
    }
    CleanTimestamps(logs, parse);
    report := ReportOf(logs.rows, now - days * SecondsPerDay);
  }
}
