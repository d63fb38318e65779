/**
 * Helpers of the agenda page: Indian digit grouping for amounts, the file
 * id inside a Drive link, the circle of a group, the cleanup applied to
 * numeric columns, the default of the decision selector, and the start
 * pages printed in the compiled agenda's index.
 */
module Agenda {
  import opened Basics
  import opened Frames

  // ---------------------------------------------------------------------
  // Indian digit grouping
  // ---------------------------------------------------------------------

  /** The groups of a run of digits: one or two leading, then pairs. */
  function PairGroups(t: string): (r: seq<string>)
    requires |t| >= 1
    ensures |r| >= 1 && 1 <= |r[0]| <= 2
    ensures forall i :: 1 <= i < |r| ==> |r[i]| == 2
    ensures Concat(r) == t
    decreases |t|
  {
    if |t| <= 2 then [t]
    else
      var rest := PairGroups(t[..|t| - 2]);
      var last := t[|t| - 2..];
      ConcatSnoc(rest, last);
      assert t[..|t| - 2] + last == t;
      rest + [last]
  }

  /** The comma-separated groups of a decimal numeral in the Indian system. */
  function InrGroups(s: string): seq<string>
  {
    if |s| <= 3 then [s] else PairGroups(s[..|s| - 3]) + [s[|s| - 3..]]
  }

  /** What `format_inr` gives for a natural number. */
  function InrText(n: nat): string {
    Join(",", InrGroups(NatToString(n)))
  }

  function Reverse<T>(s: seq<T>): (r: seq<T>)
    ensures |r| == |s|
    ensures forall i :: 0 <= i < |s| ==> r[i] == s[|s| - 1 - i]
  {
    if |s| == 0 then [] else [s[|s| - 1]] + Reverse(s[..|s| - 1])
  }

  lemma {:induction false} JoinSnoc(sep: string, parts: seq<string>, x: string)
    requires |parts| >= 1
    ensures Join(sep, parts + [x]) == Join(sep, parts) + sep + x
    decreases |parts|
  {
    if |parts| > 1 {
      assert (parts + [x])[1..] == parts[1..] + [x];
      JoinSnoc(sep, parts[1..], x);
    }
  }

  /** The grouping loop: take pairs off the end of the leading digits, then reverse. */
  method GroupDigits(s: string) returns (result: string)
    requires |s| > 3
    ensures result == Join(",", InrGroups(s))
  {
    var lastThree := s[|s| - 3..];
    var remaining := s[..|s| - 3];
    var groups: seq<string> := [];
    while |remaining| > 2
      invariant 1 <= |remaining|
      invariant PairGroups(s[..|s| - 3]) == PairGroups(remaining) + Reverse(groups)
    {
      var pair := remaining[|remaining| - 2..];
      assert Reverse(groups + [pair]) == [pair] + Reverse(groups);
      groups := groups + [pair];
      remaining := remaining[..|remaining| - 2];
    }
    if |remaining| > 0 {
      assert Reverse(groups + [remaining]) == [remaining] + Reverse(groups);
      groups := groups + [remaining];
    }
    groups := Reverse(groups);
    JoinSnoc(",", groups, lastThree);
    result := Join(",", groups) + "," + lastThree;
  }

  /**
   * `format_inr(v)`: the value after `int()`, digits grouped the Indian
   * way; "0" when `int()` fails, and a leading "-" for a negative value.
   */
  method FormatInr(v: Cell) returns (r: string)
    ensures ToInt(v).None? ==> r == "0"
    ensures ToInt(v).Some? && ToInt(v).value >= 0 ==> r == InrText(ToInt(v).value)
    ensures ToInt(v).Some? && ToInt(v).value < 0 ==> r == "-" + InrText(-ToInt(v).value)
  {
    var n := ToInt(v);
    if n.None? {
      return "0";
    }
    var m := n.value;
    var sign := "";
    if m < 0 {
      sign, m := "-", -m;
    }
    if m == 0 {
      return sign + "0";
    }
    var s := NatToString(m);
    if |s| <= 3 {
      return sign + s;
    }
    r := GroupDigits(s);
    r := sign + r;
  }

  /** Numbers below 1000 are written as they are. */
  lemma InrShortNumbers(n: nat)
    requires n < 1000
    ensures InrText(n) == NatToString(n)
  {
    ShortDecimal(n);
  }

  /**
   * For a number of four digits or more, the last group has three
   * digits, the first one or two, and every group between exactly two.
   */
  lemma InrGroupSizes(n: nat)
    requires n >= 1000
    ensures var g := InrGroups(NatToString(n));
      |g| >= 2 && |g[|g| - 1]| == 3 && 1 <= |g[0]| <= 2
      && forall i :: 1 <= i < |g| - 1 ==> |g[i]| == 2
  {
    ShortDecimal(n);
  }

  /** The groups, read without their commas, are the number's decimal digits. */
  lemma InrDigits(n: nat)
    ensures FilterChars(InrText(n), c => c != ',') == NatToString(n)
  {
    var s := NatToString(n);
    var g := InrGroups(s);
    GroupsAreDigits(s);
    JoinWithoutCommas(g);
    if |s| > 3 {
      var lead := PairGroups(s[..|s| - 3]);
      ConcatSnoc(lead, s[|s| - 3..]);
      assert s == s[..|s| - 3] + s[|s| - 3..];
    } else {
      assert Concat(g) == Concat([]) + s;
    }
  }

  lemma GroupsAreDigits(s: string)
    requires AllDigits(s)
    ensures forall i :: 0 <= i < |InrGroups(s)| ==> ',' !in InrGroups(s)[i]
  {
    var g := InrGroups(s);
    if |s| > 3 {
      var lead := PairGroups(s[..|s| - 3]);
      forall i | 0 <= i < |g| ensures ',' !in g[i] {
        if i < |lead| {
          ConcatMember(lead, i);
          assert forall c :: c in lead[i] ==> c in s[..|s| - 3];
        }
      }
    }
  }

  lemma {:induction false} ConcatMember(parts: seq<string>, i: nat)
    requires i < |parts|
    ensures forall c :: c in parts[i] ==> c in Concat(parts)
    decreases |parts|
  {
    if i < |parts| - 1 {
      ConcatMember(parts[..|parts| - 1], i);
    }
  }

  lemma ConcatSnoc(parts: seq<string>, x: string)
    ensures Concat(parts + [x]) == Concat(parts) + x
  {
    assert (parts + [x])[..|parts|] == parts;
  }

  lemma {:induction false} FilterAppend(a: string, b: string, keep: char -> bool)
    ensures FilterChars(a + b, keep) == FilterChars(a, keep) + FilterChars(b, keep)
    decreases |a|
  {
    if |a| > 0 {
      assert (a + b)[0] == a[0] && (a + b)[1..] == a[1..] + b;
      FilterAppend(a[1..], b, keep);
    } else {
      assert a + b == b;
    }
  }

  /** Dropping the commas of a comma-joined list of comma-free parts concatenates the parts. */
  lemma {:induction false} JoinWithoutCommas(parts: seq<string>)
    requires forall i :: 0 <= i < |parts| ==> ',' !in parts[i]
    ensures FilterChars(Join(",", parts), c => c != ',') == Concat(parts)
    decreases |parts|
  {
    var keep := c => c != ',';
    if |parts| == 1 {
      assert Concat(parts) == Concat([]) + parts[0];
    } else if |parts| > 1 {
      JoinWithoutCommas(parts[1..]);
      FilterAppend(parts[0], "," + Join(",", parts[1..]), keep);
      FilterAppend(",", Join(",", parts[1..]), keep);
      assert parts[0] + "," + Join(",", parts[1..]) == parts[0] + ("," + Join(",", parts[1..]));
      ConcatCons(parts);
    }
  }

  lemma {:induction false} ConcatCons(parts: seq<string>)
    requires |parts| >= 1
    ensures Concat(parts) == parts[0] + Concat(parts[1..])
    decreases |parts|
  {
    if |parts| > 1 {
      ConcatCons(parts[..|parts| - 1]);
      assert parts[..|parts| - 1][1..] == parts[1..][..|parts[1..]| - 1];
    }
  }

  // ---------------------------------------------------------------------
  // The file id inside a Drive link
  // ---------------------------------------------------------------------

  /** The parts of a URL that `urlparse` separates and the code looks at. */
  datatype UrlParts = UrlParts(netloc: string, path: string, query: string)

  predicate IsSchemeChar(c: char) {
    ('a' <= c <= 'z') || ('A' <= c <= 'Z') || IsDigit(c) || c == '+' || c == '-' || c == '.'
  }

  /** The length of the scheme, when the text starts with one followed by ':'. */
  function SchemeLength(s: string): (r: Option<nat>)
    ensures r.Some? ==> r.value < |s| && s[r.value] == ':'
  {
    var name := UpTo(s, ':');
    if |name| < |s| && |name| > 0 && (('a' <= name[0] <= 'z') || ('A' <= name[0] <= 'Z'))
       && forall i :: 0 <= i < |name| ==> IsSchemeChar(name[i])
    then Some(|name|) else None
  }

  /**
   * `urlparse`, restricted to what is used here: the fragment is cut off,
   * the query follows the first '?', and the network location follows
   * "//" up to the next '/'.
   */
  function ParseUrl(s: string): UrlParts {
    var noFragment := UpTo(s, '#');
    var beforeQuery := UpTo(noFragment, '?');
    var query := if |beforeQuery| < |noFragment| then noFragment[|beforeQuery| + 1..] else "";
    var rest := match SchemeLength(beforeQuery)
                case Some(k) => beforeQuery[k + 1..]
                case None => beforeQuery;
    if StartsWith(rest, "//") then
      var netloc := UpTo(rest[2..], '/');
      UrlParts(netloc, rest[2 + |netloc|..], query)
    else UrlParts("", rest, query)
  }

  /** The first non-empty value of `name` among the '&'-separated pairs of a query. */
  function QueryValue(query: string, name: string): (r: Option<string>)
    ensures r.Some? ==> r.value != ""
    decreases |query|
  {
    var pair := UpTo(query, '&');
    var rest := if |pair| < |query| then query[|pair| + 1..] else "";
    var key := UpTo(pair, '=');
    var value := if |key| < |pair| then pair[|key| + 1..] else "";
    if key == name && |key| < |pair| && value != "" then Some(value)
    else if |pair| < |query| then QueryValue(rest, name)
    else None
  }

  /**
   * `get_file_id_from_drive_url`: on a Drive host, the path segment after
   * "/file/d/", else the first "id" query value; None otherwise.
   */
  function FileIdFromDriveUrl(url: Cell): (r: Option<string>)
    ensures !url.Str? || url.s == "" ==> r.None?
    ensures r.Some? ==> Contains(ParseUrl(url.s).netloc, "drive.google.com")
  {
    if !url.Str? || url.s == "" then None
    else
      var parts := ParseUrl(url.s);
      if !Contains(parts.netloc, "drive.google.com") then None
      else if Contains(parts.path, "/file/d/") then Some(UpTo(After(parts.path, "/file/d/"), '/'))
      else QueryValue(parts.query, "id")
  }

  lemma HttpsScheme(rest: string)
    ensures SchemeLength("https:" + rest) == Some(5)
  {
    var s := "https:" + rest;
    assert s == "https" + [':'] + rest;
    UpToAt("https", rest, ':');
    var name := UpTo(s, ':');
    assert name == "https";
    assert forall i :: 0 <= i < |name| ==> IsSchemeChar(name[i]);
  }

  /** An "https://" link without query or fragment: the host, then the path. */
  lemma HttpsUrlParts(host: string, path: string)
    requires '/' !in host && '?' !in host && '#' !in host
    requires |path| > 0 && path[0] == '/' && '?' !in path && '#' !in path
    ensures ParseUrl("https://" + host + path) == UrlParts(host, path, "")
  {
    var url := "https://" + host + path;
    var tail := host + path;
    var rest := "//" + tail;
    assert "https://" == "https:" + "//";
    Regroup("https:", "//", host, path);
    assert url == "https:" + rest;
    assert '#' !in url && '?' !in url by {
      assert '#' !in "https://" && '?' !in "https://";
    }
    NoCharUpTo(url, '#');
    NoCharUpTo(url, '?');
    HttpsScheme(rest);
    DropFront("https:", rest);
    DropFront("//", tail);
    assert path == ['/'] + path[1..];
    Regroup3(host, ['/'], path[1..]);
    UpToAt(host, path[1..], '/');
    DropFront(host, path);
  }

  /** `(a + b) + h + t` regrouped to the right. */
  lemma Regroup<T>(a: seq<T>, b: seq<T>, h: seq<T>, t: seq<T>)
    ensures a + b + h + t == a + (b + (h + t))
  {
  }

  lemma Regroup3<T>(a: seq<T>, b: seq<T>, c: seq<T>)
    ensures a + b + c == a + (b + c)
  {
  }

  lemma DropFront<T>(a: seq<T>, b: seq<T>)
    ensures (a + b)[|a|..] == b
  {
  }

  /** The Drive branch of the lookup, once the link has been taken apart. */
  lemma DriveFileIdOfParts(url: string, after: string, id: string)
    requires url != ""
    requires Contains(ParseUrl(url).netloc, "drive.google.com")
    requires ParseUrl(url).path == "/file/d/" + after
    requires UpTo(after, '/') == id
    ensures FileIdFromDriveUrl(Str(url)) == Some(id)
  {
    AfterPrefix("/file/d/", after);
  }

  /** A link to a file's page on a Drive host gives that file's id. */
  lemma FileLinkGivesId(host: string, id: string, tail: string)
    requires Contains(host, "drive.google.com")
    requires '/' !in host && '?' !in host && '#' !in host
    requires '/' !in id && '?' !in id && '#' !in id
    requires '?' !in tail && '#' !in tail
    ensures FileIdFromDriveUrl(Str("https://" + host + ("/file/d/" + (id + "/" + tail)))) == Some(id)
  {
    var after := id + "/" + tail;
    var path := "/file/d/" + after;
    var url := "https://" + host + path;
    assert ParseUrl(url) == UrlParts(host, path, "") by {
      assert '?' !in "/" && '#' !in "/";
      assert '?' !in after && '#' !in after;
      assert '?' !in "/file/d/" && '#' !in "/file/d/";
      assert path[0] == '/';
      HttpsUrlParts(host, path);
    }
    assert UpTo(after, '/') == id by {
      assert after == id + ['/'] + tail;
      UpToAt(id, tail, '/');
    }
    DriveFileIdOfParts(url, after, id);
  }

  /** Any other link on a Drive host gives the value of its "id" query parameter. */
  lemma QueryIdGivesId(url: string, v: string)
    requires url != ""
    requires Contains(ParseUrl(url).netloc, "drive.google.com")
    requires !Contains(ParseUrl(url).path, "/file/d/")
    requires ParseUrl(url).query == "id=" + v && v != "" && '&' !in v
    ensures FileIdFromDriveUrl(Str(url)) == Some(v)
  {
    SingleIdQuery(v);
  }

  lemma SingleIdQuery(v: string)
    requires v != "" && '&' !in v
    ensures QueryValue("id=" + v, "id") == Some(v)
  {
    var pair := "id=" + v;
    assert UpTo(pair, '&') == pair by {
      assert '&' !in "id=";
      NoCharUpTo(pair, '&');
    }
    assert UpTo(pair, '=') == "id" by {
      assert "id=" == "id" + ['='];
      UpToAt("id", v, '=');
    }
    assert pair[3..] == v;
  }

  /** A link that is not on the Drive host gives nothing. */
  lemma OtherHostGivesNothing(url: Cell)
    requires url.Str? && !Contains(ParseUrl(url.s).netloc, "drive.google.com")
    ensures FileIdFromDriveUrl(url).None?
  {
  }

  // ---------------------------------------------------------------------
  // Circles and groups
  // ---------------------------------------------------------------------

  /** `calculate_audit_circle_agenda`: ceil(g / 3) for a group in 1..30, 0 otherwise. */
  function CircleForAgenda(v: Cell): (r: int)
    ensures 0 <= r <= 10
    ensures r == 0 <==> !(ToInt(v).Some? && 1 <= ToInt(v).value <= 30)
    ensures r > 0 ==> 3 * r - 2 <= ToInt(v).value <= 3 * r
  {
    match ToInt(v)
    case None => 0
    case Some(g) => if 1 <= g <= 30 then (g + 2) / 3 else 0
  }

  /** The groups listed under circle c: (c-1)*3+1 up to c*3. */
  function GroupsOfCircle(c: int): (r: seq<int>)
    ensures |r| == 3 && forall i :: 0 <= i < 3 ==> r[i] == (c - 1) * 3 + 1 + i
  {
    [(c - 1) * 3 + 1, (c - 1) * 3 + 2, c * 3]
  }

  /** The groups listed under a circle are exactly the groups whose circle it is. */
  lemma GroupsOfCircleAgree(c: int, g: int)
    requires 1 <= c <= 10
    ensures g in GroupsOfCircle(c) <==> CircleForAgenda(Int(g)) == c
  {
  }

  // ---------------------------------------------------------------------
  // Numeric cleanup, decision default
  // ---------------------------------------------------------------------

  predicate NumericChar(c: char) {
    IsDigit(c) || c == '.'
  }

  /** `str(cell)` with every character other than a digit or '.' removed. */
  function CleanNumericText(c: Cell): (r: string)
    ensures forall i :: 0 <= i < |r| ==> NumericChar(r[i])
    ensures (forall i :: 0 <= i < |Render(c)| ==> NumericChar(Render(c)[i])) ==> r == Render(c)
  {
    FilterChars(Render(c), NumericChar)
  }

  /** The cleanup drops the minus sign: a negative amount comes out positive. */
  lemma CleanupDropsSign(n: nat)
    ensures CleanNumericText(Int(-(n as int))) == NatToString(n)
    ensures CleanNumericText(Int(n)) == NatToString(n)
  {
    var d := NatToString(n);
    if n > 0 {
      assert Render(Int(-(n as int))) == "-" + d;
      assert ("-" + d)[1..] == d;
    }
  }

  const DecisionOptions: seq<string> :=
    ["Para closed since recovered", "Para deferred", "Para to be pursued else issue SCN"]

  /** The selector starts on the stored decision when it is one of the options, else on the first. */
  function DecisionDefaultIndex(hasColumn: bool, decision: Cell): (r: nat)
    ensures r < |DecisionOptions|
    ensures r > 0 ==> hasColumn && decision == Str(DecisionOptions[r])
  {
    if hasColumn && decision.Str? && decision.s in DecisionOptions then
      if decision.s == DecisionOptions[0] then 0
      else if decision.s == DecisionOptions[1] then 1
      else 2
    else 0
  }

  /** A stored decision that is one of the options is preselected. */
  lemma DecisionPreselected(decision: string, i: nat)
    requires i < |DecisionOptions| && decision == DecisionOptions[i]
    ensures DecisionDefaultIndex(true, Str(decision)) == i
    ensures DecisionDefaultIndex(false, Str(decision)) == 0
  {
  }

  // ---------------------------------------------------------------------
  // Start pages of the compiled agenda's index
  // ---------------------------------------------------------------------

  /** What fetching one DAR gave: no file id, a failed download or read, or a PDF with its page count. */
  datatype DarFetch = NoFileId | FetchFailed | Fetched(pageCount: nat)

  /** The pages a DAR takes in the compiled file: 1 when it could not be read or has no pages. */
  function PagesOf(d: DarFetch): (r: nat)
    ensures r >= 1
    ensures d.Fetched? && d.pageCount > 0 ==> r == d.pageCount
  {
    if d.Fetched? && d.pageCount > 0 then d.pageCount else 1
  }

  function TotalPages(dars: seq<DarFetch>): nat {
    if |dars| == 0 then 0 else TotalPages(dars[..|dars| - 1]) + PagesOf(dars[|dars| - 1])
  }

  /**
   * The start page of each DAR: the index page follows the `before` pages
   * already compiled, the first DAR follows the index, and each next DAR
   * follows the previous one's pages.
   */
  method IndexStartPages(before: nat, dars: seq<DarFetch>) returns (starts: seq<nat>)
    ensures |starts| == |dars|
    ensures forall i :: 0 <= i < |dars| ==> starts[i] == before + 2 + TotalPages(dars[..i])
  {
    var indexStart := before + 1;
    var next := indexStart + 1;
    starts := [];
    for i := 0 to |dars|
      invariant |starts| == i
      invariant next == before + 2 + TotalPages(dars[..i])
      invariant forall j :: 0 <= j < i ==> starts[j] == before + 2 + TotalPages(dars[..j])
    {
      starts := starts + [next];
      assert dars[..i + 1][..i] == dars[..i];
      next := next + PagesOf(dars[i]);
    }
  }

  /**
   * The first DAR starts two pages after what came before, each next one
   * right after the previous DAR's pages, so starts strictly increase.
   */
  lemma StartPagesStep(before: nat, dars: seq<DarFetch>, i: nat)
    requires i + 1 < |dars|
    ensures before + 2 + TotalPages(dars[..0]) == before + 2
    ensures before + 2 + TotalPages(dars[..i + 1]) == before + 2 + TotalPages(dars[..i]) + PagesOf(dars[i])
    ensures TotalPages(dars[..i + 1]) > TotalPages(dars[..i])
  {
    assert dars[..i + 1][..i] == dars[..i];
  }
}
