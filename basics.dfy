/**
 * Small building blocks shared by every other module: an Option and a
 * Result type, and the handful of Python string operations the system
 * relies on (prefix and suffix tests, `strip`, `str(int)`, `int(str)`,
 * `str.replace`, `str.join`, slicing with `[:n]`).
 */
module Basics {

  datatype Option<+T> = None | Some(value: T)

  datatype Result<+T, +E> = Ok(value: T) | Err(error: E)

  /** A Python exception: its class name and what `str()` gives for it. */
  datatype Exc = Exc(typeName: string, message: string)

  // ---------------------------------------------------------------------
  // Prefixes, suffixes, containment
  // ---------------------------------------------------------------------

  predicate StartsWith(s: string, prefix: string) {
    |prefix| <= |s| && s[..|prefix|] == prefix
  }

  predicate EndsWith(s: string, suffix: string) {
    |suffix| <= |s| && s[|s| - |suffix|..] == suffix
  }

  /** Python's `sub in s`. */
  predicate Contains(s: string, sub: string)
    decreases |s|
  {
    StartsWith(s, sub) || (|s| > 0 && Contains(s[1..], sub))
  }

  /** Python's `s[:n]` for a non-negative n. */
  function Take(s: string, n: nat): (r: string)
    ensures |r| == if |s| <= n then |s| else n
    ensures StartsWith(s, r)
  {
    if |s| <= n then s else s[..n]
  }

  /** The index of the first occurrence of `sub` in `s`, if any. */
  function FindFirst(s: string, sub: string): (r: Option<nat>)
    ensures r.Some? ==> r.value + |sub| <= |s| && s[r.value..r.value + |sub|] == sub
    ensures r.Some? ==> forall j :: 0 <= j < r.value ==> !StartsWith(s[j..], sub)
    ensures r.None? <==> !Contains(s, sub)
    decreases |s|
  {
    if StartsWith(s, sub) then Some(0)
    else if |s| == 0 then None
    else match FindFirst(s[1..], sub)
      case None => None
      case Some(k) =>
        TailSlices(s, k, |sub|);
        Some(k + 1)
  }

  /** Slices of `s[1..]` are the slices of `s` one position further on. */
  lemma TailSlices(s: string, k: nat, n: nat)
    requires 0 < |s| && k + n <= |s| - 1
    ensures s[1..][k..k + n] == s[k + 1..k + 1 + n]
    ensures forall j :: 1 <= j < k + 1 ==> s[j..] == s[1..][j - 1..]
  {
  }

  /** The characters before the first occurrence of `c` (all of `s` if none). */
  function UpTo(s: string, c: char): (r: string)
    ensures StartsWith(s, r)
    ensures c !in r
    ensures |r| < |s| ==> s[|r|] == c
  {
    if |s| == 0 then ""
    else if s[0] == c then ""
    else [s[0]] + UpTo(s[1..], c)
  }

  /** The text of `d` occurs in any text that has it in the middle. */
  lemma {:induction false} ContainsMiddle(a: string, d: string, b: string)
    ensures Contains(a + d + b, d)
    decreases |a|
  {
    if |a| == 0 {
      assert (a + d + b)[..|d|] == d;
    } else {
      assert (a + d + b)[1..] == a[1..] + d + b;
      ContainsMiddle(a[1..], d, b);
    }
  }

  /** Text before the first `c`, across a concatenation. */
  lemma {:induction false} UpToAppend(a: string, b: string, c: char)
    requires c !in a
    ensures UpTo(a + b, c) == a + UpTo(b, c)
    decreases |a|
  {
    if |a| > 0 {
      assert (a + b)[0] == a[0] && (a + b)[1..] == a[1..] + b;
      UpToAppend(a[1..], b, c);
    } else {
      assert a + b == b;
    }
  }

  lemma UpToAt(a: string, b: string, c: char)
    requires c !in a
    ensures UpTo(a + [c] + b, c) == a
  {
    UpToAppend(a, [c] + b, c);
    assert a + [c] + b == a + ([c] + b);
  }

  lemma NoCharUpTo(s: string, c: char)
    requires c !in s
    ensures UpTo(s, c) == s
  {
  }

  /** The text after the first occurrence of `sep` (the string must contain it). */
  function After(s: string, sep: string): (r: string)
    requires Contains(s, sep)
  {
    var k := FindFirst(s, sep).value;
    s[k + |sep|..]
  }

  /** The text after a prefix. */
  lemma AfterPrefix(sep: string, x: string)
    ensures Contains(sep + x, sep) && After(sep + x, sep) == x
  {
    assert StartsWith(sep + x, sep);
    assert FindFirst(sep + x, sep) == Some(0);
  }

  // ---------------------------------------------------------------------
  // Whitespace and `str.strip`
  // ---------------------------------------------------------------------

  /**
   * The characters Python's `str.strip()` removes among the ASCII and
   * Latin-1 range: space, \t \n \v \f \r, the separators \x1c-\x1f,
   * NEL (\x85) and NBSP (\xa0).
   */
  predicate IsSpace(c: char) {
    c == ' ' || (9 <= c as int <= 13) || (28 <= c as int <= 31) || c as int == 0x85 || c as int == 0xA0
  }

  function TrimStart(s: string): (r: string)
    ensures |r| <= |s| && r == s[|s| - |r|..]
    ensures r == [] || !IsSpace(r[0])
    ensures forall i :: 0 <= i < |s| - |r| ==> IsSpace(s[i])
  {
    if |s| > 0 && IsSpace(s[0]) then TrimStart(s[1..]) else s
  }

  function TrimEnd(s: string): (r: string)
    ensures |r| <= |s| && r == s[..|r|]
    ensures r == [] || !IsSpace(r[|r| - 1])
    ensures forall i :: |r| <= i < |s| ==> IsSpace(s[i])
  {
    if |s| > 0 && IsSpace(s[|s| - 1]) then TrimEnd(s[..|s| - 1]) else s
  }

  /** Python's `s.strip()`: neither end of the result is whitespace. */
  function Strip(s: string): (r: string)
    ensures |r| <= |s|
    ensures r == [] || (!IsSpace(r[0]) && !IsSpace(r[|r| - 1]))
  {
    TrimEnd(TrimStart(s))
  }

  /**
   * `s.strip()` is a contiguous slice of `s`, and everything cut off on
   * either side is whitespace.
   */
  lemma StripSlice(s: string)
    ensures exists lo ::
              && 0 <= lo <= |s| - |Strip(s)| && Strip(s) == s[lo..][..|Strip(s)|]
              && (forall i :: 0 <= i < lo ==> IsSpace(s[i]))
              && (forall i :: lo + |Strip(s)| <= i < |s| ==> IsSpace(s[i]))
  {
    var t := TrimStart(s);
    var r := TrimEnd(t);
    var lo := |s| - |t|;
    assert t == s[lo..];
    forall i | lo + |r| <= i < |s|
      ensures IsSpace(s[i])
    {
      assert s[i] == t[i - lo];
    }
    assert r == Strip(s);
    assert && 0 <= lo <= |s| - |r| && r == s[lo..][..|r|]
           && (forall i :: 0 <= i < lo ==> IsSpace(s[i]))
           && (forall i :: lo + |r| <= i < |s| ==> IsSpace(s[i]));
  }

  predicate AllSpace(s: string) {
    forall i :: 0 <= i < |s| ==> IsSpace(s[i])
  }

  /** `not s.strip()`: the text is empty once stripped. */
  predicate IsBlank(s: string) {
    Strip(s) == ""
  }

  lemma BlankIffAllSpace(s: string)
    ensures IsBlank(s) <==> AllSpace(s)
  {
    var t := TrimStart(s);
    if IsBlank(s) {
      assert TrimEnd(t) == [];
    }
  }

  // ---------------------------------------------------------------------
  // Decimal text: `str(n)` and `int(s)`
  // ---------------------------------------------------------------------

  predicate IsDigit(c: char) {
    '0' <= c <= '9'
  }

  predicate AllDigits(s: string) {
    forall i :: 0 <= i < |s| ==> IsDigit(s[i])
  }

  function DigitChar(d: nat): (c: char)
    requires d < 10
    ensures IsDigit(c) && (c as int) - ('0' as int) == d
  {
    (('0' as int) + d) as char
  }

  function DigitValue(c: char): nat
    requires IsDigit(c)
  {
    (c as int) - ('0' as int)
  }

  /** Python's `str(n)` for a natural number. */
  function NatToString(n: nat): (r: string)
    ensures 1 <= |r| && AllDigits(r)
    ensures n > 0 ==> r[0] != '0'
    ensures |r| == 1 <==> n < 10
    decreases n
  {
    if n < 10 then [DigitChar(n)] else NatToString(n / 10) + [DigitChar(n % 10)]
  }

  /** Numbers below 1000 are exactly those written with at most three digits. */
  lemma {:induction false} ShortDecimal(n: nat)
    ensures |NatToString(n)| <= 2 <==> n < 100
    ensures |NatToString(n)| <= 3 <==> n < 1000
  {
    if n >= 10 {
      assert |NatToString(n)| == |NatToString(n / 10)| + 1;
      if n >= 100 {
        assert |NatToString(n / 10)| == |NatToString(n / 100)| + 1;
      }
    }
  }

  /** Python's `str(i)` for any integer. */
  function IntToString(i: int): (r: string)
    ensures 1 <= |r|
    ensures i < 0 <==> r[0] == '-'
  {
    if i < 0 then "-" + NatToString(-i) else NatToString(i)
  }

  /** The value of a non-empty run of decimal digits. */
  function DigitsValue(s: string): nat
    requires AllDigits(s)
    decreases |s|
  {
    if s == [] then 0 else DigitsValue(s[..|s| - 1]) * 10 + DigitValue(s[|s| - 1])
  }

  lemma {:induction false} NatToStringValue(n: nat)
    ensures DigitsValue(NatToString(n)) == n
    decreases n
  {
    var r := NatToString(n);
    if n >= 10 {
      NatToStringValue(n / 10);
      assert r[..|r| - 1] == NatToString(n / 10);
    }
  }

  /**
   * Python's `int(s)` on text: surrounding whitespace is ignored, one
   * optional sign, then at least one decimal digit. (Underscore digit
   * separators and non-ASCII digits are not accepted here.)
   */
  function ParseInt(s: string): (r: Option<int>)
  {
    ParseSigned(Strip(s))
  }

  /** `int(t)` for text without surrounding whitespace. */
  function ParseSigned(t: string): (r: Option<int>)
  {
    if |t| > 0 && (t[0] == '-' || t[0] == '+') then
      if |t| > 1 && AllDigits(t[1..]) then
        var v: int := if t[0] == '-' then -(DigitsValue(t[1..]) as int) else DigitsValue(t[1..]);
        Some(v)
      else None
    else if |t| > 0 && AllDigits(t) then Some(DigitsValue(t))
    else None
  }

  /** Text without surrounding whitespace is left alone by `strip`. */
  lemma StripUnpadded(s: string)
    requires |s| > 0 && !IsSpace(s[0]) && !IsSpace(s[|s| - 1])
    ensures Strip(s) == s
  {
    assert TrimStart(s) == s;
  }

  /** Digits, or a minus sign and digits, are left alone by `strip`. */
  lemma DigitsUnpadded(d: string)
    requires |d| > 0 && AllDigits(d)
    ensures Strip(d) == d && Strip("-" + d) == "-" + d
  {
    assert IsDigit(d[0]) && IsDigit(d[|d| - 1]);
    StripUnpadded(d);
    var r := "-" + d;
    assert r[|r| - 1] == d[|d| - 1];
    StripUnpadded(r);
  }

  lemma ParseDigits(d: string)
    requires |d| > 0 && AllDigits(d)
    ensures ParseSigned(d) == Some(DigitsValue(d) as int)
  {
  }

  lemma ParseMinus(d: string)
    requires |d| > 0 && AllDigits(d)
    ensures ParseSigned("-" + d) == Some(-(DigitsValue(d) as int))
  {
    assert ("-" + d)[1..] == d;
  }

  /** `int` reads back a run of digits, with or without a minus sign in front. */
  lemma ParseSignedDigits(d: string, n: nat)
    requires |d| > 0 && AllDigits(d) && DigitsValue(d) == n
    ensures ParseInt(d) == Some(n as int)
    ensures ParseInt("-" + d) == Some(-(n as int))
  {
    DigitsUnpadded(d);
    ParseDigits(d);
    ParseMinus(d);
  }

  lemma ParseIntOfNatString(n: nat)
    ensures ParseInt(NatToString(n)) == Some(n as int)
  {
    NatToStringValue(n);
    ParseSignedDigits(NatToString(n), n);
  }

  lemma ParseIntOfNegativeString(n: nat)
    ensures ParseInt("-" + NatToString(n)) == Some(-(n as int))
  {
    NatToStringValue(n);
    ParseSignedDigits(NatToString(n), n);
  }

  /** `int(str(i)) == i`. */
  lemma ParseIntOfIntToString(i: int)
    ensures ParseInt(IntToString(i)) == Some(i)
  {
    if i < 0 {
      ParseIntOfNegativeString(-i);
    } else {
      ParseIntOfNatString(i);
    }
  }

  // ---------------------------------------------------------------------
  // Joining and replacing
  // ---------------------------------------------------------------------

  /** Python's `sep.join(parts)`. */
  function Join(sep: string, parts: seq<string>): string
  {
    if |parts| == 0 then ""
    else if |parts| == 1 then parts[0]
    else parts[0] + sep + Join(sep, parts[1..])
  }

  /** The concatenation `"".join(parts)`. */
  function Concat(parts: seq<string>): string
  {
    if |parts| == 0 then "" else Concat(parts[..|parts| - 1]) + parts[|parts| - 1]
  }

  /**
   * Python's `s.replace(pat, rep)`: one left-to-right scan that replaces
   * non-overlapping occurrences of `pat`.
   */
  function ReplaceAll(s: string, pat: string, rep: string): string
    requires |pat| > 0
    decreases |s|
  {
    if |s| < |pat| then s
    else if s[..|pat|] == pat then rep + ReplaceAll(s[|pat|..], pat, rep)
    else [s[0]] + ReplaceAll(s[1..], pat, rep)
  }

  /** A text with no occurrence of the pattern is left as it is. */
  lemma {:induction false} ReplaceAllAbsent(s: string, pat: string, rep: string)
    requires |pat| > 0 && !Contains(s, pat)
    ensures ReplaceAll(s, pat, rep) == s
    decreases |s|
  {
    if |s| >= |pat| {
      assert !StartsWith(s, pat);
      ReplaceAllAbsent(s[1..], pat, rep);
      assert s == [s[0]] + s[1..];
    }
  }

  /** Removing occurrences never lengthens the text. */
  lemma {:induction false} ReplaceAllByEmptyShrinks(s: string, pat: string)
    requires |pat| > 0
    ensures |ReplaceAll(s, pat, "")| <= |s|
    decreases |s|
  {
    if |s| >= |pat| {
      if s[..|pat|] == pat {
        ReplaceAllByEmptyShrinks(s[|pat|..], pat);
      } else {
        ReplaceAllByEmptyShrinks(s[1..], pat);
      }
    }
  }

  /** Keep only the characters satisfying `keep`, in order. */
  function FilterChars(s: string, keep: char -> bool): (r: string)
    ensures |r| <= |s|
    ensures forall i :: 0 <= i < |r| ==> keep(r[i])
    ensures forall c :: c in r ==> c in s
    ensures (forall i :: 0 <= i < |s| ==> keep(s[i])) ==> r == s
    decreases |s|
  {
    if |s| == 0 then ""
    else if keep(s[0]) then [s[0]] + FilterChars(s[1..], keep)
    else FilterChars(s[1..], keep)
  }
}
