/** The JavaScript string built-ins the scrapers rely on, restricted to what
    the program needs: `toLowerCase` on ASCII letters, the `\s` class and
    `trim`, `replace` with a string pattern, `parseInt` and `parseFloat` on
    plain decimal notation, and `Number.prototype.toString` on integers. */
module Strings {
  import opened Wrappers
  import Sequences

  // ---------------------------------------------------------------------
  // Character classes
  // ---------------------------------------------------------------------

  /** A line terminator: what the regular-expression `.` does not match. */
  predicate IsLineTerminator(c: char) {
    c == '\n' || c == '\r' || c == '\U{2028}' || c == '\U{2029}'
  }

  /** A member of the regular-expression class `\s`; `trim` strips the same set. */
  predicate IsWhitespace(c: char) {
    || c == ' ' || c == '\t' || c == '\U{000B}' || c == '\U{000C}'
    || IsLineTerminator(c)
    || c == '\U{00A0}' || c == '\U{1680}'
    || ('\U{2000}' <= c <= '\U{200A}')
    || c == '\U{202F}' || c == '\U{205F}' || c == '\U{3000}' || c == '\U{FEFF}'
  }

  predicate IsDigit(c: char) {
    '0' <= c <= '9'
  }

  predicate AllDigits(s: string) {
    forall i :: 0 <= i < |s| ==> IsDigit(s[i])
  }

  // ---------------------------------------------------------------------
  // toLowerCase
  // ---------------------------------------------------------------------

  function ToLowerChar(c: char): char {
    if 'A' <= c <= 'Z' then (c as int + 32) as char else c
  }

  /** `s.toLowerCase()` on the ASCII letters; every other character is kept. */
  function Lower(s: string): (r: string)
    ensures |r| == |s|
    ensures forall i :: 0 <= i < |s| ==> r[i] == ToLowerChar(s[i])
  {
    seq(|s|, i requires 0 <= i < |s| => ToLowerChar(s[i]))
  }

  /** After `toLowerCase` no ASCII capital is left, lower-casing again
      changes nothing, and the conversion works character by character. */
  lemma LowerProperties(a: string, b: string)
    ensures forall i :: 0 <= i < |Lower(a)| ==> !('A' <= Lower(a)[i] <= 'Z')
    ensures Lower(Lower(a)) == Lower(a)
    ensures Lower(a + b) == Lower(a) + Lower(b)
  {
    var l := Lower(a);
    forall i | 0 <= i < |l| ensures !('A' <= l[i] <= 'Z') && ToLowerChar(l[i]) == l[i] {
      assert l[i] == ToLowerChar(a[i]);
    }
    assert Lower(l) == l;
    var ab := Lower(a + b);
    forall i | 0 <= i < |ab| ensures ab[i] == (Lower(a) + Lower(b))[i] {
      assert (a + b)[i] == if i < |a| then a[i] else b[i - |a|];
    }
  }

  // ---------------------------------------------------------------------
  // trim
  // ---------------------------------------------------------------------

  /** `s.trimStart()`: the suffix left after every leading whitespace
      character has been removed. */
  function TrimStart(s: string): (r: string)
    ensures |r| <= |s| && r == s[|s| - |r|..]
    ensures r == [] || !IsWhitespace(r[0])
    ensures forall i :: 0 <= i < |s| - |r| ==> IsWhitespace(s[i])
  {
    if |s| > 0 && IsWhitespace(s[0]) then TrimStart(s[1..]) else s
  }

  /** `s.trimEnd()`: the prefix left after every trailing whitespace
      character has been removed. */
  function TrimEnd(s: string): (r: string)
    ensures |r| <= |s| && r == s[..|r|]
    ensures r == [] || !IsWhitespace(r[|r| - 1])
    ensures forall i :: |r| <= i < |s| ==> IsWhitespace(s[i])
  {
    if |s| > 0 && IsWhitespace(s[|s| - 1]) then TrimEnd(s[..|s| - 1]) else s
  }

  /** `s.trim()`. */
  function Trim(s: string): string {
    TrimEnd(TrimStart(s))
  }

  /** What `trim` returns is a slice of its input that neither starts nor
      ends with whitespace, and everything it cut off is whitespace. */
  lemma TrimShape(s: string) returns (lo: nat, hi: nat)
    ensures lo <= hi <= |s| && Trim(s) == s[lo..hi]
    ensures Trim(s) == [] || (!IsWhitespace(Trim(s)[0]) && !IsWhitespace(Trim(s)[|Trim(s)| - 1]))
    ensures forall i :: 0 <= i < lo ==> IsWhitespace(s[i])
    ensures forall i :: hi <= i < |s| ==> IsWhitespace(s[i])
  {
    var t := TrimStart(s);
    lo := |s| - |t|;
    var r := TrimEnd(t);
    hi := lo + |r|;
    assert t == s[lo..];
    assert r == t[..hi - lo];
    assert s[lo..][..hi - lo] == s[lo..hi];
    assert Trim(s) == r;
    forall i | hi <= i < |s| ensures IsWhitespace(s[i]) {
      assert s[i] == t[i - lo];
    }
  }

  /** `trim` leaves alone a string that has no whitespace at either end. */
  lemma TrimUnchanged(s: string)
    requires s == [] || (!IsWhitespace(s[0]) && !IsWhitespace(s[|s| - 1]))
    ensures Trim(s) == s
  {
  }

  // ---------------------------------------------------------------------
  // replace with a string pattern (first occurrence only)
  // ---------------------------------------------------------------------

  predicate OccursAt(s: string, pat: string, i: nat) {
    i + |pat| <= |s| && s[i..i + |pat|] == pat
  }

  /** `s.replace(pat, rep)` for a string `pat`: only the first occurrence is
      replaced; an empty pattern matches at the very start. */
  function ReplaceFirst(s: string, pat: string, rep: string): string
    decreases |s|
  {
    if |pat| == 0 then rep + s
    else if |s| < |pat| then s
    else if s[..|pat|] == pat then rep + s[|pat|..]
    else [s[0]] + ReplaceFirst(s[1..], pat, rep)
  }

  /** Occurrences in `s[1..]` are the occurrences in `s` shifted by one. */
  lemma OccursAtTail(s: string, pat: string, j: nat)
    requires |s| > 0
    ensures OccursAt(s[1..], pat, j) <==> OccursAt(s, pat, j + 1)
  {
    if j + |pat| <= |s| - 1 {
      assert s[1..][j..j + |pat|] == s[j + 1..j + 1 + |pat|];
    }
  }

  /** The first occurrence of `pat`, and only it, is replaced. */
  lemma {:induction false} ReplaceFirstOccurrence(s: string, pat: string, rep: string, i: nat)
    requires |pat| > 0 && OccursAt(s, pat, i)
    requires forall j :: 0 <= j < i ==> !OccursAt(s, pat, j)
    ensures ReplaceFirst(s, pat, rep) == s[..i] + rep + s[i + |pat|..]
    decreases i
  {
    if i == 0 {
      assert s[..|pat|] == s[0..|pat|] == pat;
      assert s[..0] + rep + s[|pat|..] == rep + s[|pat|..];
    } else {
      assert !OccursAt(s, pat, 0);
      assert s[..|pat|] != pat;
      assert ReplaceFirst(s, pat, rep) == [s[0]] + ReplaceFirst(s[1..], pat, rep);
      forall j | 0 <= j < i - 1 ensures !OccursAt(s[1..], pat, j) {
        OccursAtTail(s, pat, j);
      }
      OccursAtTail(s, pat, i - 1);
      var t := s[1..];
      ReplaceFirstOccurrence(t, pat, rep, i - 1);
      var before := t[..i - 1];
      var after := t[i - 1 + |pat|..];
      assert s[..i] == [s[0]] + before;
      assert s[i + |pat|..] == after;
      assert [s[0]] + (before + rep + after) == ([s[0]] + before) + rep + after;
    }
  }

  /** Without an occurrence of `pat`, nothing is replaced. */
  lemma {:induction false} ReplaceFirstAbsent(s: string, pat: string, rep: string)
    requires |pat| > 0
    requires forall j :: 0 <= j <= |s| ==> !OccursAt(s, pat, j)
    ensures ReplaceFirst(s, pat, rep) == s
    decreases |s|
  {
    if |s| >= |pat| {
      assert !OccursAt(s, pat, 0);
      assert s[..|pat|] != pat;
      forall j | 0 <= j <= |s| - 1 ensures !OccursAt(s[1..], pat, j) {
        OccursAtTail(s, pat, j);
      }
      ReplaceFirstAbsent(s[1..], pat, rep);
      assert s == [s[0]] + s[1..];
    }
  }

  // ---------------------------------------------------------------------
  // Decimal digits and Number.prototype.toString on integers
  // ---------------------------------------------------------------------

  function DigitChar(d: nat): char
    requires d < 10
  {
    ('0' as int + d) as char
  }

  function DigitValue(c: char): nat
    requires IsDigit(c)
  {
    c as int - '0' as int
  }

  /** The value of a string of decimal digits, most significant first
      (0 for the empty string). */
  function DigitsValue(d: string): nat
    requires AllDigits(d)
  {
    if |d| == 0 then 0 else DigitsValue(d[..|d| - 1]) * 10 + DigitValue(d[|d| - 1])
  }

  function Pow10(n: nat): (r: nat)
    ensures r >= 1
  {
    if n == 0 then 1 else 10 * Pow10(n - 1)
  }

  /** Decimal rendering of a natural number without leading zeros. */
  function NatToString(n: nat): (r: string)
    ensures |r| > 0 && AllDigits(r)
    ensures r[0] != '0' || n == 0
  {
    if n < 10 then [DigitChar(n)] else NatToString(n / 10) + [DigitChar(n % 10)]
  }

  /** `String(n)` for an integer-valued number. */
  function IntToString(n: int): (r: string) {
    if n < 0 then "-" + NatToString(-n) else NatToString(n)
  }

  lemma {:induction false} NatToStringRoundTrip(n: nat)
    ensures DigitsValue(NatToString(n)) == n
  {
    var r := NatToString(n);
    if n >= 10 {
      NatToStringRoundTrip(n / 10);
      assert r[..|r| - 1] == NatToString(n / 10);
    }
  }

  // ---------------------------------------------------------------------
  // parseInt and parseFloat (decimal notation)
  // ---------------------------------------------------------------------

  /** The number of decimal digits at the start of `s`. */
  function LeadingDigits(s: string): (k: nat)
    ensures k <= |s| && AllDigits(s[..k])
    ensures k < |s| ==> !IsDigit(s[k])
  {
    if |s| > 0 && IsDigit(s[0]) then
      var k := 1 + LeadingDigits(s[1..]);
      assert s[..k] == [s[0]] + s[1..][..k - 1];
      k
    else 0
  }

  /** Splits off an optional leading `+` or `-`. */
  function Sign(s: string): (bool, string) {
    if |s| > 0 && (s[0] == '-' || s[0] == '+') then (s[0] == '-', s[1..]) else (false, s)
  }

  /** `parseInt(s)` with no radix: leading whitespace, an optional sign and
      the longest run of decimal digits; `None` stands for `NaN`. */
  function ParseInt(s: string): (r: Option<int>)
    ensures r.None? <==> LeadingDigits(Sign(TrimStart(s)).1) == 0
  {
    var (negative, u) := Sign(TrimStart(s));
    var k := LeadingDigits(u);
    if k == 0 then None
    else
      var v: int := DigitsValue(u[..k]);
      Some(if negative then -v else v)
  }

  /** Leading whitespace is skipped up to the first other character. */
  lemma {:induction false} TrimStartOfWhitespace(w: string, u: string)
    requires forall i :: 0 <= i < |w| ==> IsWhitespace(w[i])
    requires u == [] || !IsWhitespace(u[0])
    ensures TrimStart(w + u) == u
    decreases |w|
  {
    if |w| == 0 {
      assert w + u == u;
    } else {
      assert (w + u)[1..] == w[1..] + u;
      TrimStartOfWhitespace(w[1..], u);
    }
  }

  /** A string that does not start with whitespace has nothing to trim. */
  lemma TrimStartOfNonWhitespace(u: string)
    requires u == [] || !IsWhitespace(u[0])
    ensures TrimStart(u) == u
  {
  }

  /** A sign or a digit is not whitespace. */
  lemma SignOrDigitNotWhitespace(c: char)
    requires IsDigit(c) || c == '+' || c == '-'
    ensures !IsWhitespace(c)
  {
  }

  /** An optional sign in front of a digit is read as the sign. */
  lemma SignedRun(sg: string, v: string)
    requires sg == "" || sg == "+" || sg == "-"
    requires |v| > 0 && IsDigit(v[0])
    ensures !IsWhitespace((sg + v)[0])
    ensures Sign(sg + v) == (sg == "-", v)
  {
    var u := sg + v;
    assert u[0] == if sg == [] then v[0] else sg[0];
    SignOrDigitNotWhitespace(u[0]);
    if sg != [] {
      assert u[1..] == v;
    } else {
      assert u == v;
    }
  }

  /** A run of digits followed by a non-digit is read exactly. */
  lemma DigitRun(d: string, rest: string)
    requires |d| > 0 && AllDigits(d)
    requires rest == [] || !IsDigit(rest[0])
    ensures LeadingDigits(d + rest) == |d| && (d + rest)[..|d|] == d
    ensures IsDigit((d + rest)[0])
  {
    LeadingDigitsOfDigits(d, rest);
    assert (d + rest)[..|d|] == d;
  }

  /** `parseInt` from the three steps it takes: trim, sign, digit run. */
  lemma ParseIntOfSteps(s: string, u: string, negative: bool, v: string, d: string)
    requires TrimStart(s) == u
    requires Sign(u) == (negative, v)
    requires 0 < |d| == LeadingDigits(v) && v[..|d|] == d
    ensures AllDigits(d)
    ensures ParseInt(s) == Some(if negative then -(DigitsValue(d) as int) else DigitsValue(d) as int)
  {
  }

  /** `parseInt` of a run of digits followed by anything that does not
      start with a digit is the value of the run. */
  lemma ParseIntOfDigitRun(d: string, rest: string)
    requires |d| > 0 && AllDigits(d)
    requires rest == [] || !IsDigit(rest[0])
    ensures ParseInt(d + rest) == Some(DigitsValue(d) as int)
  {
    var v := d + rest;
    DigitRun(d, rest);
    SignOrDigitNotWhitespace(v[0]);
    TrimStartOfNonWhitespace(v);
    ParseIntOfSteps(v, v, false, v, d);
  }

  /** `parseInt` of whitespace, an optional sign, a run of digits and
      anything that does not start with a digit is the signed value of the
      digits. */
  lemma ParseIntOfParts(w: string, sg: string, d: string, rest: string)
    requires forall i :: 0 <= i < |w| ==> IsWhitespace(w[i])
    requires sg == "" || sg == "+" || sg == "-"
    requires |d| > 0 && AllDigits(d)
    requires rest == [] || !IsDigit(rest[0])
    ensures ParseInt(w + sg + d + rest) ==
              Some(if sg == "-" then -(DigitsValue(d) as int) else DigitsValue(d) as int)
  {
    var v := d + rest;
    var u := sg + v;
    DigitRun(d, rest);
    SignedRun(sg, v);
    TrimStartOfWhitespace(w, u);
    ParseIntOfSteps(w + u, u, sg == "-", v, d);
    Sequences.ConcatAssoc(w + sg, d, rest);
    Sequences.ConcatAssoc(w, sg, v);
  }

  /** `parseFloat(s)` on plain decimal notation: leading whitespace, an
      optional sign, digits, and an optional `.` followed by digits; at
      least one digit is needed. `None` stands for `NaN`. */
  function ParseFloat(s: string): (r: Option<real>)
  {
    var (negative, u) := Sign(TrimStart(s));
    ParseDecimal(negative, u)
  }

  /** The digits after a leading `.`, if any. */
  function FractionDigits(rest: string): (frac: string)
    ensures AllDigits(frac)
  {
    if |rest| > 0 && rest[0] == '.' then rest[1..][..LeadingDigits(rest[1..])] else ""
  }

  /** The unsigned decimal at the start of `u`, negated when `negative`. */
  function ParseDecimal(negative: bool, u: string): (r: Option<real>)
  {
    var k := LeadingDigits(u);
    var frac := FractionDigits(u[k..]);
    if k == 0 && |frac| == 0 then None
    else
      var v := DigitsValue(u[..k]) as real + FractionValue(frac);
      Some(if negative then -v else v)
  }

  /** The value of the digits after the decimal point. */
  function FractionValue(frac: string): (r: real)
    requires AllDigits(frac)
    ensures frac == [] ==> r == 0.0
  {
    if |frac| == 0 then 0.0 else DigitsValue(frac) as real / Pow10(|frac|) as real
  }

  /** The rendering of an integer is its sign (if negative) and its digits,
      with no whitespace in front. */
  lemma IntToStringParts(n: int)
    ensures TrimStart(IntToString(n)) == IntToString(n)
    ensures Sign(IntToString(n)) == (n < 0, NatToString(if n < 0 then -n else n))
  {
    var s := IntToString(n);
    var d := NatToString(if n < 0 then -n else n);
    assert IsDigit(d[0]);
    assert !IsWhitespace(s[0]);
  }

  /** `parseInt` reads back what `String` wrote. */
  lemma ParseIntOfIntToString(n: int)
    ensures ParseInt(IntToString(n)) == Some(n)
  {
    var m: nat := if n < 0 then -n else n;
    var d := NatToString(m);
    var s := IntToString(n);
    IntToStringParts(n);
    assert Sign(TrimStart(s)) == (n < 0, d);
    LeadingDigitsOfDigits(d, "");
    assert d + "" == d;
    assert LeadingDigits(d) == |d| > 0;
    assert d[..|d|] == d;
    NatToStringRoundTrip(m);
    assert ParseInt(s) == Some(if n < 0 then -(DigitsValue(d) as int) else DigitsValue(d));
  }

  /** `parseFloat` reads an integer rendering back as the same number. */
  lemma ParseFloatOfIntToString(n: int)
    ensures ParseFloat(IntToString(n)) == Some(n as real)
  {
    var m: nat := if n < 0 then -n else n;
    var d := NatToString(m);
    IntToStringParts(n);
    NatToStringRoundTrip(m);
    LeadingDigitsOfAllDigits(d);
    ParseFloatOfSteps(IntToString(n), IntToString(n), n < 0, d, m as real);
  }

  /** A text made only of digits is one digit run. */
  lemma LeadingDigitsOfAllDigits(d: string)
    requires AllDigits(d)
    ensures LeadingDigits(d) == |d|
  {
    LeadingDigitsOfDigits(d, []);
    Sequences.SliceAll(d);
    assert d + [] == d;
  }

  /** `parseFloat` from its steps, when the sign is followed by digits
      only: trim, sign, a digit run of value `v` and no fraction. */
  lemma ParseFloatOfSteps(s: string, u: string, negative: bool, d: string, v: real)
    requires TrimStart(s) == u
    requires Sign(u) == (negative, d)
    requires 0 < |d| == LeadingDigits(d) && AllDigits(d)
    requires v == DigitsValue(d) as real
    ensures ParseFloat(s) == Some(if negative then -v else v)
  {
    ParseDecimalOfDigits(negative, d, v);
  }

  /** A run of digits with nothing after it has no fraction. */
  lemma ParseDecimalOfDigits(negative: bool, d: string, v: real)
    requires 0 < |d| == LeadingDigits(d) && AllDigits(d)
    requires v == DigitsValue(d) as real
    ensures ParseDecimal(negative, d) == Some(if negative then -v else v)
  {
    Sequences.SliceAll(d);
    assert FractionDigits(d[|d|..]) == [];
  }

  /** A run of digits followed by a non-digit is read up to the non-digit. */
  lemma {:induction false} LeadingDigitsOfDigits(d: string, rest: string)
    requires AllDigits(d)
    requires rest == [] || !IsDigit(rest[0])
    ensures LeadingDigits(d + rest) == |d|
    decreases |d|
  {
    if |d| > 0 {
      assert (d + rest)[1..] == d[1..] + rest;
      LeadingDigitsOfDigits(d[1..], rest);
    } else {
      assert d + rest == rest;
    }
  }

  /** `parseInt` of a non-empty run of digits is the value of the digits. */
  lemma ParseIntOfDigits(d: string)
    requires |d| > 0 && AllDigits(d)
    ensures ParseInt(d) == Some(DigitsValue(d) as int)
  {
    assert IsDigit(d[0]) && !IsWhitespace(d[0]);
    assert TrimStart(d) == d;
    assert Sign(d) == (false, d);
    LeadingDigitsOfDigits(d, "");
    assert d + "" == d;
    assert d[..|d|] == d;
  }

  /** The rendering of an integer has no whitespace to trim. */
  lemma TrimIntToString(n: int)
    ensures Trim(IntToString(n)) == IntToString(n)
  {
    var s := IntToString(n);
    IntToStringParts(n);
    var d := NatToString(if n < 0 then -n else n);
    assert s[|s| - 1] == d[|d| - 1];
    assert IsDigit(d[|d| - 1]);
    assert TrimEnd(s) == s;
  }

  /** Replacing a prefix that is the pattern leaves the rest. */
  lemma ReplaceFirstAtStart(pat: string, rest: string, rep: string)
    requires |pat| > 0
    ensures ReplaceFirst(pat + rest, pat, rep) == rep + rest
  {
    var s := pat + rest;
    assert s[..|pat|] == pat;
    assert s[|pat|..] == rest;
  }
}
