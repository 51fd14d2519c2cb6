/** The IMDb scraper of `src/sources/imdb.ts`: how a search-result line is
    turned into a film name and a release year, which results are kept, how
    the score on a film's page is read, and how one film is chosen among
    equally well-matching results. The search page and the film pages are
    inputs: the text of each result line, its link, and the text of the
    score element on its page. */
module Imdb {
  import opened Wrappers
  import opened Strings
  import opened Sequences
  import opened Search

  // ---------------------------------------------------------------------
  // getName: removing `(roman numeral)` groups
  // ---------------------------------------------------------------------

  /** A letter of the class `[ivxldcm]` under the `i` flag. */
  predicate IsRomanLetter(c: char) {
    c in "ivxldcmIVXLDCM"
  }

  /** A text matched by `/\([ivxldcm]+\)/i`. */
  predicate IsRomanGroup(g: string) {
    && |g| >= 3 && g[0] == '(' && g[|g| - 1] == ')'
    && forall i :: 1 <= i < |g| - 1 ==> IsRomanLetter(g[i])
  }

  /** The number of roman letters at the start of `s`. */
  function RomanRun(s: string): (k: nat)
    ensures k <= |s|
    ensures forall i :: 0 <= i < k ==> IsRomanLetter(s[i])
    ensures k < |s| ==> !IsRomanLetter(s[k])
  {
    if |s| > 0 && IsRomanLetter(s[0]) then 1 + RomanRun(s[1..]) else 0
  }

  /** The length of the match of the pattern at the start of `s`, or 0 when
      the pattern does not match there. */
  function GroupAtStart(s: string): (n: nat)
    ensures n <= |s|
  {
    if |s| >= 3 && s[0] == '(' then
      var k := RomanRun(s[1..]);
      if k >= 1 && k + 1 < |s| && s[k + 1] == ')' then k + 2 else 0
    else 0
  }

  /** A run of `m` roman letters that is followed by something else is
      what `RomanRun` counts. */
  lemma {:induction false} RomanRunIs(t: string, m: nat)
    requires m <= |t| && forall i :: 0 <= i < m ==> IsRomanLetter(t[i])
    requires m < |t| ==> !IsRomanLetter(t[m])
    ensures RomanRun(t) == m
    decreases m
  {
    if m > 0 {
      RomanRunIs(t[1..], m - 1);
    }
  }

  /** A prefix of `s` is matched by the pattern exactly when it is the
      prefix `GroupAtStart` reports: a group cannot contain `)`, so at any
      one position the pattern matches at most one text. */
  lemma GroupAtStartMatches(s: string)
    ensures forall n :: 0 <= n <= |s| ==> (IsRomanGroup(s[..n]) <==> n > 0 && n == GroupAtStart(s))
  {
    forall n | 0 <= n <= |s| ensures IsRomanGroup(s[..n]) <==> n > 0 && n == GroupAtStart(s) {
      var g := s[..n];
      if IsRomanGroup(g) {
        forall i | 0 <= i < n - 2 ensures IsRomanLetter(s[1..][i]) {
          assert s[1..][i] == g[i + 1];
        }
        assert s[1..][n - 2] == g[n - 1] == ')';
        RomanRunIs(s[1..], n - 2);
      }
      if n > 0 && n == GroupAtStart(s) {
        forall i | 1 <= i < |g| - 1 ensures IsRomanLetter(g[i]) {
          assert g[i] == s[1..][i - 1];
        }
      }
    }
  }

  /** `name.replace(/\([ivxldcm]+\)/gi, "")`: one left-to-right pass that
      deletes every group it meets and resumes after it. */
  function StripRoman(s: string): (r: string)
    ensures |r| <= |s|
    decreases |s|
  {
    if |s| == 0 then ""
    else
      var g := GroupAtStart(s);
      if g > 0 then StripRoman(s[g..]) else [s[0]] + StripRoman(s[1..])
  }

  /** Removing groups only deletes characters: the rest keep their order. */
  lemma {:induction false} StripRomanSubsequence(s: string)
    ensures IsSubsequence(StripRoman(s), s)
    decreases |s|
  {
    if |s| > 0 {
      var g := GroupAtStart(s);
      if g > 0 {
        StripRomanSubsequence(s[g..]);
        SubsequencePrepend(StripRoman(s[g..]), s[..g], s[g..]);
        assert s[..g] + s[g..] == s;
      } else {
        StripRomanSubsequence(s[1..]);
        var r := StripRoman(s);
        assert r == [s[0]] + StripRoman(s[1..]);
        assert r[0] == s[0] && r[1..] == StripRoman(s[1..]);
      }
    }
  }

  /** A text with no group anywhere is left as it is. */
  lemma {:induction false} StripRomanWithoutGroups(s: string)
    requires forall i :: 0 <= i < |s| ==> GroupAtStart(s[i..]) == 0
    ensures StripRoman(s) == s
    decreases |s|
  {
    if |s| > 0 {
      assert GroupAtStart(s[0..]) == 0;
      assert s[0..] == s;
      forall i | 0 <= i < |s| - 1 ensures GroupAtStart(s[1..][i..]) == 0 {
        assert s[1..][i..] == s[i + 1..];
      }
      StripRomanWithoutGroups(s[1..]);
    }
  }

  /** A text with a group somewhere always loses characters, so together
      with `StripRomanWithoutGroups`: the text is unchanged exactly when it
      holds no group. */
  lemma {:induction false} StripRomanShortens(s: string, i: nat)
    requires i < |s| && GroupAtStart(s[i..]) > 0
    ensures |StripRoman(s)| < |s|
    decreases |s|
  {
    if GroupAtStart(s) == 0 {
      assert i != 0 by {
        assert s[0..] == s;
      }
      assert s[1..][i - 1..] == s[i..];
      StripRomanShortens(s[1..], i - 1);
    }
  }

  /** A group at the very start is removed and the pass resumes after it. */
  lemma StripRomanLeadingGroup(g: string, b: string)
    requires IsRomanGroup(g)
    ensures StripRoman(g + b) == StripRoman(b)
  {
    var s := g + b;
    GroupAtStartMatches(s);
    assert s[..|g|] == g;
    assert GroupAtStart(s) == |g|;
    assert s[|g|..] == b;
  }

  /** The group is removed from a title with no `(` in front of it, e.g.
      `Dune (I) (2021)` becomes `Dune  (2021)`. */
  lemma StripRomanRemovesGroup(a: string, g: string, b: string)
    requires '(' !in a && IsRomanGroup(g)
    ensures StripRoman(a + g + b) == a + StripRoman(b)
  {
    StripRomanKeepsPrefix(a, g + b);
    StripRomanLeadingGroup(g, b);
    assert a + g + b == a + (g + b);
  }

  /** A prefix without `(` holds no group and is kept as it is. */
  lemma {:induction false} StripRomanKeepsPrefix(a: string, rest: string)
    requires '(' !in a
    ensures StripRoman(a + rest) == a + StripRoman(rest)
    decreases |a|
  {
    if |a| == 0 {
      assert a + rest == rest;
    } else {
      var tail := a[1..] + rest;
      assert a == [a[0]] + a[1..];
      assert '(' !in a[1..];
      assert a + rest == [a[0]] + tail;
      StripRomanKeepsHead(a[0], tail);
      StripRomanKeepsPrefix(a[1..], rest);
      ConcatHead(a, StripRoman(rest));
    }
  }

  /** A character other than `(` cannot start a group and is kept. */
  lemma StripRomanKeepsHead(c: char, rest: string)
    requires c != '('
    ensures StripRoman([c] + rest) == [c] + StripRoman(rest)
  {
    var s := [c] + rest;
    assert GroupAtStart(s) == 0;
    assert s[1..] == rest;
  }

  // ---------------------------------------------------------------------
  // getName: collapsing whitespace runs
  // ---------------------------------------------------------------------

  /** The number of whitespace characters at the start of `s`. */
  function WhitespaceRun(s: string): (k: nat)
    ensures k <= |s|
    ensures forall i :: 0 <= i < k ==> IsWhitespace(s[i])
    ensures k < |s| ==> !IsWhitespace(s[k])
  {
    if |s| > 0 && IsWhitespace(s[0]) then 1 + WhitespaceRun(s[1..]) else 0
  }

  predicate NoAdjacentWhitespace(s: string) {
    forall i :: 0 < i < |s| ==> !(IsWhitespace(s[i - 1]) && IsWhitespace(s[i]))
  }

  /** `name.replace(/\s\s+/g, " ")`: every run of two or more whitespace
      characters becomes one space; a single whitespace character is kept
      as it is. The result has no two whitespace characters in a row, and it
      starts with whitespace exactly when its input does. */
  function Collapse(s: string): (r: string)
    ensures |r| <= |s|
    ensures |s| > 0 ==> |r| > 0 && (IsWhitespace(r[0]) <==> IsWhitespace(s[0]))
    ensures NoAdjacentWhitespace(r)
    decreases |s|
  {
    if |s| == 0 then ""
    else
      var w := WhitespaceRun(s);
      if w >= 2 then " " + Collapse(s[w..]) else [s[0]] + Collapse(s[1..])
  }

  /** The characters of `s` that are not whitespace, in order. */
  function Words(s: string): string {
    if |s| == 0 then "" else (if IsWhitespace(s[0]) then "" else [s[0]]) + Words(s[1..])
  }

  lemma {:induction false} WordsOfWhitespace(s: string, n: nat)
    requires n <= |s| && forall i :: 0 <= i < n ==> IsWhitespace(s[i])
    ensures Words(s) == Words(s[n..])
    decreases n
  {
    if n > 0 {
      WordsOfWhitespace(s[1..], n - 1);
      assert s[1..][n - 1..] == s[n..];
    }
  }

  /** Collapsing only ever touches whitespace: the other characters are
      the same, in the same order. */
  lemma {:induction false} CollapseKeepsWords(s: string)
    ensures Words(Collapse(s)) == Words(s)
    decreases |s|
  {
    if |s| > 0 {
      var w := WhitespaceRun(s);
      if w >= 2 {
        CollapseKeepsWords(s[w..]);
        WordsOfWhitespace(s, w);
        var r := Collapse(s);
        assert r == " " + Collapse(s[w..]);
        assert r[1..] == Collapse(s[w..]);
      } else {
        CollapseKeepsWords(s[1..]);
        var r := Collapse(s);
        assert r[1..] == Collapse(s[1..]);
      }
    }
  }

  /** A text without two whitespace characters in a row is left alone. */
  lemma {:induction false} CollapseUnchanged(s: string)
    requires NoAdjacentWhitespace(s)
    ensures Collapse(s) == s
    decreases |s|
  {
    if |s| > 0 {
      assert WhitespaceRun(s) < 2 by {
        if |s| > 1 && IsWhitespace(s[0]) {
          assert !IsWhitespace(s[1]);
        }
      }
      CollapseUnchanged(s[1..]);
      assert [s[0]] + s[1..] == s;
    }
  }

  /** A whitespace run that stops inside `a` is not lengthened by what
      follows `a`. */
  lemma {:induction false} WhitespaceRunPrefix(a: string, t: string)
    requires |a| > 0 && !IsWhitespace(a[|a| - 1])
    ensures WhitespaceRun(a + t) == WhitespaceRun(a) < |a|
    decreases |a|
  {
    if IsWhitespace(a[0]) {
      assert |a| > 1;
      assert (a + t)[1..] == a[1..] + t;
      WhitespaceRunPrefix(a[1..], t);
    }
  }

  /** A whitespace run of known length, followed by something else. */
  lemma {:induction false} WhitespaceRunIs(w: string, b: string)
    requires forall i :: 0 <= i < |w| ==> IsWhitespace(w[i])
    requires b == [] || !IsWhitespace(b[0])
    ensures WhitespaceRun(w + b) == |w|
    decreases |w|
  {
    if |w| > 0 {
      assert (w + b)[1..] == w[1..] + b;
      WhitespaceRunIs(w[1..], b);
    } else {
      assert w + b == b;
    }
  }

  /** Collapsing can be split after any character that is not whitespace. */
  lemma {:induction false} CollapseSplit(a: string, t: string)
    requires a == [] || !IsWhitespace(a[|a| - 1])
    ensures Collapse(a + t) == Collapse(a) + Collapse(t)
    decreases |a|
  {
    if |a| == 0 {
      assert a + t == t;
    } else {
      var s := a + t;
      WhitespaceRunPrefix(a, t);
      var w := WhitespaceRun(a);
      if w >= 2 {
        assert s[w..] == a[w..] + t;
        CollapseSplit(a[w..], t);
        assert " " + (Collapse(a[w..]) + Collapse(t)) == " " + Collapse(a[w..]) + Collapse(t);
      } else {
        assert s[1..] == a[1..] + t;
        CollapseSplit(a[1..], t);
        ConcatAssoc([a[0]], Collapse(a[1..]), Collapse(t));
      }
    }
  }

  /** A run of two or more whitespace characters at the start becomes one
      space. */
  lemma CollapseLeadingRun(w: string, b: string)
    requires |w| >= 2 && forall i :: 0 <= i < |w| ==> IsWhitespace(w[i])
    requires b == [] || !IsWhitespace(b[0])
    ensures Collapse(w + b) == " " + Collapse(b)
  {
    WhitespaceRunIs(w, b);
    assert (w + b)[|w|..] == b;
  }

  /** `replace(/\s\s+/g, " ")` turns a run of two or more whitespace
      characters between two other characters into a single space, and
      collapses either side independently. */
  lemma CollapseRun(a: string, w: string, b: string)
    requires a == [] || !IsWhitespace(a[|a| - 1])
    requires |w| >= 2 && forall i :: 0 <= i < |w| ==> IsWhitespace(w[i])
    requires b == [] || !IsWhitespace(b[0])
    ensures Collapse(a + w + b) == Collapse(a) + " " + Collapse(b)
  {
    CollapseSplit(a, w + b);
    CollapseLeadingRun(w, b);
    ConcatAssoc(a, w, b);
    ConcatAssoc(Collapse(a), " ", Collapse(b));
  }

  /** `getName`: roman-numeral groups removed, whitespace runs collapsed,
      and the ends trimmed. */
  function CleanName(text: string): string {
    Trim(Collapse(StripRoman(text)))
  }

  /** A slice of a text without two whitespace characters in a row has
      none either. */
  lemma NoAdjacentWhitespaceSlice(s: string, lo: nat, hi: nat)
    requires lo <= hi <= |s| && NoAdjacentWhitespace(s)
    ensures NoAdjacentWhitespace(s[lo..hi])
  {
    var t := s[lo..hi];
    forall i | 0 < i < |t| ensures !(IsWhitespace(t[i - 1]) && IsWhitespace(t[i])) {
      assert t[i - 1] == s[lo + i - 1] && t[i] == s[lo + i];
    }
  }

  /** A `(` that does not open a roman letter, followed by text without
      `(`, is kept as it is. */
  lemma StripRomanOpenParen(rest: string)
    requires |rest| > 0 && !IsRomanLetter(rest[0]) && '(' !in rest
    ensures StripRoman(['('] + rest) == ['('] + rest
  {
    var s := ['('] + rest;
    assert s[1..] == rest;
    assert RomanRun(rest) == 0;
    assert GroupAtStart(s) == 0;
    StripRomanKeepsPrefix(rest, []);
    assert rest + [] == rest;
  }

  /** The year in parentheses that ends an IMDb result name. */
  function YearInParens(d: string): string {
    "(" + d + ")"
  }

  /** A year in parentheses holds no group. */
  lemma YearInParensKept(d: string)
    requires |d| > 0 && AllDigits(d)
    ensures StripRoman(YearInParens(d)) == YearInParens(d)
  {
    var rest := d + ")";
    assert YearInParens(d) == ['('] + rest;
    assert rest[0] == d[0] && IsDigit(d[0]);
    assert '(' !in rest by {
      forall i | 0 <= i < |rest| ensures rest[i] != '(' {
        if i < |d| {
          assert rest[i] == d[i] && IsDigit(d[i]);
        }
      }
    }
    StripRomanOpenParen(rest);
  }

  /** A year in parentheses holds no whitespace. */
  lemma YearInParensSolid(d: string)
    requires AllDigits(d)
    ensures forall i :: 0 <= i < |YearInParens(d)| ==> !IsWhitespace(YearInParens(d)[i])
  {
    var y := YearInParens(d);
    forall i | 0 <= i < |y| ensures !IsWhitespace(y[i]) {
      if 0 < i < |y| - 1 {
        assert y[i] == d[i - 1] && IsDigit(d[i - 1]);
      }
    }
  }

  /** Two single spaces in a row are the two-space run. */
  lemma TwoSpaces(a: string, y: string)
    ensures a + " " + (" " + y) == a + "  " + y
  {
    ConcatAssoc(a, " ", " " + y);
    ConcatAssoc(" ", " ", y);
    ConcatAssoc(a, "  ", y);
  }

  /** Removing the group of `title (I) (year)` leaves two spaces between
      the title and the year. */
  lemma StripRomanOfNumberedTitle(a: string, g: string, d: string)
    requires '(' !in a && IsRomanGroup(g)
    requires |d| > 0 && AllDigits(d)
    ensures StripRoman(a + " " + g + " " + YearInParens(d)) == a + "  " + YearInParens(d)
  {
    var y := YearInParens(d);
    var u := [' '] + y;
    var head := a + " ";
    StripRomanRemovesGroup(head, g, u);
    ConcatAssoc(head + g, " ", y);
    StripRomanKeepsHead(' ', y);
    YearInParensKept(d);
    TwoSpaces(a, y);
  }

  /** `getName` of `title (I) (year)`: the roman group is removed and the
      two spaces it leaves become one, as in `Dune (I) (2021)` becoming
      `Dune (2021)`. */
  lemma CleanNameOfNumberedTitle(a: string, g: string, d: string)
    requires '(' !in a && IsRomanGroup(g)
    requires |a| > 0 && !IsWhitespace(a[0]) && !IsWhitespace(a[|a| - 1]) && NoAdjacentWhitespace(a)
    requires |d| > 0 && AllDigits(d)
    ensures CleanName(a + " " + g + " " + YearInParens(d)) == a + " " + YearInParens(d)
  {
    var y := YearInParens(d);
    StripRomanOfNumberedTitle(a, g, d);
    YearInParensSolid(d);
    assert NoAdjacentWhitespace(y);
    CollapseRun(a, "  ", y);
    CollapseUnchanged(a);
    CollapseUnchanged(y);
    var r := a + " " + y;
    assert r[0] == a[0] && r[|r| - 1] == y[|y| - 1];
    TrimUnchanged(r);
  }

  /** The parts of `Dune (I) (2021)`. */
  lemma DuneParts()
    ensures "Dune" + " " + "(I)" + " " + YearInParens("2021") == "Dune (I) (2021)"
    ensures "Dune" + " " + YearInParens("2021") == "Dune (2021)"
    ensures IsRomanGroup("(I)") && NoAdjacentWhitespace("Dune") && AllDigits("2021")
  {
  }

  /** `getName("Dune (I) (2021)")` is `"Dune (2021)"`. */
  lemma DuneExample()
    ensures CleanName("Dune (I) (2021)") == "Dune (2021)"
  {
    DuneParts();
    CleanNameOfNumberedTitle("Dune", "(I)", "2021");
  }

  /** A cleaned name neither starts nor ends with whitespace and has no two
      whitespace characters in a row. */
  lemma CleanNameShape(text: string)
    ensures var n := CleanName(text);
            n == [] || (!IsWhitespace(n[0]) && !IsWhitespace(n[|n| - 1]))
    ensures NoAdjacentWhitespace(CleanName(text))
  {
    var c := Collapse(StripRoman(text));
    var lo, hi := TrimShape(c);
    NoAdjacentWhitespaceSlice(c, lo, hi);
  }

  // ---------------------------------------------------------------------
  // getYear and getIsReleased
  // ---------------------------------------------------------------------

  predicate NoLineTerminator(s: string) {
    forall i :: 0 <= i < |s| ==> !IsLineTerminator(s[i])
  }

  /** The number of decimal digits at the end of `s`. */
  function TrailingDigits(s: string): (k: nat)
    ensures k <= |s| && AllDigits(s[|s| - k..])
    ensures k < |s| ==> !IsDigit(s[|s| - k - 1])
  {
    if |s| > 0 && IsDigit(s[|s| - 1]) then
      var k := 1 + TrailingDigits(s[..|s| - 1]);
      assert s[|s| - k..] == s[..|s| - 1][|s| - k..] + [s[|s| - 1]];
      k
    else 0
  }

  /** Where the digits of a name matching `/^.* \(([0-9]+)\)$/` start (the
      `.` matches no line terminator), or 0 when the name does not match. */
  function YearDigitsAt(name: string): (j: nat)
    ensures j > 0 ==> 2 <= j < |name| - 1 && name[|name| - 1] == ')' && name[j - 2..j] == " ("
    ensures j > 0 ==> AllDigits(name[j..|name| - 1]) && NoLineTerminator(name[..j - 2])
  {
    if |name| == 0 || name[|name| - 1] != ')' then 0
    else
      var body := name[..|name| - 1];
      var k := TrailingDigits(body);
      var j := |body| - k;
      if k == 0 || j < 2 || body[j - 1] != '(' || body[j - 2] != ' ' || !NoLineTerminator(body[..j - 2]) then 0
      else
        assert name[j..|name| - 1] == body[j..];
        assert name[..j - 2] == body[..j - 2];
        j
  }

  /** `getYear`: the digits captured by the pattern, passed to `parseInt`;
      -1 when the name does not match or the digits do not parse. */
  function GetYear(name: string): int {
    var j := YearDigitsAt(name);
    if j == 0 then -1
    else
      match ParseInt(name[j..|name| - 1])
      case None => -1
      case Some(year) => year
  }

  /** `getIsReleased`: the name carries a year. */
  predicate IsReleased(name: string) {
    GetYear(name) != -1
  }

  /** A name `p (digits)` whose `p` has no line terminator has the digits as
      its year. */
  lemma GetYearOfSuffix(p: string, d: string)
    requires NoLineTerminator(p) && |d| > 0 && AllDigits(d)
    ensures GetYear(p + " (" + d + ")") == DigitsValue(d)
  {
    var name := p + " (" + d + ")";
    var body := name[..|name| - 1];
    assert body == (p + " (") + d;
    assert body[|body| - |d|..] == d;
    TrailingDigitsIs(body, |d|);
    var j := |body| - |d|;
    assert body[..j - 2] == p;
    assert YearDigitsAt(name) == j;
    assert name[j..|name| - 1] == d;
    ParseIntOfDigits(d);
  }

  /** A run of `m` digits at the end, with a non-digit before it, is what
      `TrailingDigits` counts. */
  lemma {:induction false} TrailingDigitsIs(s: string, m: nat)
    requires m <= |s| && AllDigits(s[|s| - m..])
    requires m < |s| ==> !IsDigit(s[|s| - m - 1])
    ensures TrailingDigits(s) == m
    decreases m
  {
    if m > 0 {
      var t := s[..|s| - 1];
      var ds := s[|s| - m..];
      assert IsDigit(s[|s| - 1]) by {
        assert ds[m - 1] == s[|s| - 1];
      }
      var us := t[|t| - (m - 1)..];
      assert AllDigits(us) by {
        forall i | 0 <= i < m - 1 ensures IsDigit(us[i]) {
          assert us[i] == ds[i];
        }
      }
      TrailingDigitsIs(t, m - 1);
      assert TrailingDigits(s) == 1 + TrailingDigits(t);
    } else {
      assert |s| > 0 ==> !IsDigit(s[|s| - 1]);
    }
  }

  /** Every name with a year has the shape `p (digits)` with no line
      terminator in `p`, and the year is the value of those digits. */
  lemma {:induction false} GetYearFound(name: string) returns (p: string, d: string)
    requires GetYear(name) != -1
    ensures name == p + " (" + d + ")"
    ensures NoLineTerminator(p) && |d| > 0 && AllDigits(d)
    ensures GetYear(name) == DigitsValue(d)
  {
    assert YearDigitsAt(name) > 0;
    p, d := YearShape(name);
  }

  /** The parts of a name that matches the year pattern. */
  lemma {:induction false} YearShape(name: string) returns (p: string, d: string)
    requires YearDigitsAt(name) > 0
    ensures name == p + " (" + d + ")"
    ensures NoLineTerminator(p) && |d| > 0 && AllDigits(d)
    ensures GetYear(name) == DigitsValue(d)
  {
    var j := YearDigitsAt(name);
    p := name[..j - 2];
    d := name[j..|name| - 1];
    var n := |name|;
    assert name[..j] == p + " (";
    assert name[..n - 1] == name[..j] + d;
    assert name == name[..n - 1] + [name[n - 1]];
    ParseIntOfDigits(d);
  }

  /** Names without a trailing ` (digits)` carry no year: nothing after the
      `)`, and a space before the `(`, are both required. */
  lemma NotReleasedExamples()
    ensures !IsReleased("Shrek")
    ensures !IsReleased("Shrek (2001) ")
    ensures !IsReleased("Shrek(2001)")
  {
    var b := "Shrek(2001)"[..10];
    assert b == "Shrek(2001";
    assert b[6..] == "2001";
    TrailingDigitsIs(b, 4);
  }

  // ---------------------------------------------------------------------
  // getScoreFromPage and absoluteUrl
  // ---------------------------------------------------------------------

  /** An IMDb score: a rating or `"not found"`. */
  datatype ImdbScore = Rating(value: real) | NotFound

  /** `getScoreFromPage`, given the text of the rating element: `"not
      found"` when the trimmed text is empty or `parseFloat` gives `NaN`. */
  function ScoreFromPage(scoreText: string): ImdbScore {
    var t := Trim(scoreText);
    if t == "" then NotFound
    else
      match ParseFloat(t)
      case None => NotFound
      case Some(f) => Rating(f)
  }

  /** A score is found exactly when the trimmed text parses as a number,
      and then it is that number: the test for `""` only anticipates what
      `parseFloat` reports. */
  lemma ScoreFromPageParses(scoreText: string)
    ensures ScoreFromPage(scoreText).NotFound? <==> ParseFloat(Trim(scoreText)).None?
    ensures ScoreFromPage(scoreText).Rating? ==> ParseFloat(Trim(scoreText)) == Some(ScoreFromPage(scoreText).value)
  {
    assert LeadingDigits("") == 0;
  }

  /** A whole number printed on the page reads back as itself. */
  lemma ScoreFromPageOfInt(n: int)
    ensures ScoreFromPage(IntToString(n)) == Rating(n as real)
  {
    TrimIntToString(n);
    IntToStringParts(n);
    ParseFloatOfIntToString(n);
  }

  const ImdbOrigin := "https://www.imdb.com"

  /** `absoluteUrl`: the site's origin followed by the relative link, which
      can be read back off the end. */
  function AbsoluteUrl(relativeUrl: string): (url: string)
    ensures |url| == |ImdbOrigin| + |relativeUrl|
    ensures url[..|ImdbOrigin|] == ImdbOrigin && url[|ImdbOrigin|..] == relativeUrl
  {
    ImdbOrigin + relativeUrl
  }

  // ---------------------------------------------------------------------
  // search and getImdbData
  // ---------------------------------------------------------------------

  /** One line of the search results: its text, the `href` of its link
      (`None` when the attribute is absent), and the text of the rating
      element on the page that link leads to. */
  datatype Candidate = Candidate(text: string, href: Option<string>, scoreText: string)

  /** `SearchResult.getName`. */
  function NameOf(c: Candidate): string {
    CleanName(c.text)
  }

  /** `SearchResult.getScore`. */
  function ScoreOf(c: Candidate): ImdbScore {
    ScoreFromPage(c.scoreText)
  }

  /** `getUrl` calls `bug()` unless the link has a non-empty `href`. */
  predicate HasHref(c: Candidate) {
    c.href.Some? && c.href.value != ""
  }

  /** `searchResults.filter(result => result.getIsReleased())`. */
  function Released(cs: seq<Candidate>): (r: seq<Candidate>)
    ensures forall c :: c in r <==> c in cs && IsReleased(NameOf(c))
  {
    if |cs| == 0 then []
    else
      var rest := Released(cs[1..]);
      assert forall c :: c in cs <==> c == cs[0] || c in cs[1..];
      (if IsReleased(NameOf(cs[0])) then [cs[0]] else []) + rest
  }

  /** The map that `buildMapFromAsyncOptional` builds, in its insertion
      order `completion`: every result whose score was found, paired with
      that score. */
  function Scored(completion: seq<Candidate>): (r: seq<(Candidate, real)>)
    ensures forall e :: e in r <==> e.0 in completion && ScoreOf(e.0) == Rating(e.1)
  {
    if |completion| == 0 then []
    else
      var c := completion[0];
      var rest := Scored(completion[1..]);
      assert forall x :: x in completion <==> x == c || x in completion[1..];
      match ScoreOf(c)
      case NotFound => rest
      case Rating(v) => [(c, v)] + rest
  }

  /** The entry the loop over the map settles on: a later entry replaces the
      running best only with a strictly greater score. */
  function BestEntry(es: seq<(Candidate, real)>): (r: Option<(Candidate, real)>)
    ensures r.None? <==> |es| == 0
    ensures r.Some? ==> r.value in es
  {
    if |es| == 0 then None
    else
      var best := BestEntry(es[..|es| - 1]);
      var e := es[|es| - 1];
      if best.None? || e.1 > best.value.1 then Some(e) else best
  }

  /** The loop picks the FIRST entry with the greatest score: no entry has
      a higher score, and every earlier entry has a strictly lower one. */
  lemma {:induction false} BestEntryIsFirstMaximum(es: seq<(Candidate, real)>) returns (j: nat)
    requires |es| > 0
    ensures j < |es| && BestEntry(es) == Some(es[j])
    ensures forall k :: 0 <= k < |es| ==> es[k].1 <= es[j].1
    ensures forall k :: 0 <= k < j ==> es[k].1 < es[j].1
  {
    if |es| == 1 {
      j := 0;
    } else {
      var init := es[..|es| - 1];
      var i := BestEntryIsFirstMaximum(init);
      forall k | 0 <= k < |init| ensures es[k] == init[k] { }
      if es[|es| - 1].1 > init[i].1 {
        j := |es| - 1;
      } else {
        j := i;
      }
    }
  }

  /** Lines 63-73 of `search`: the loop over the scored matches. */
  method PickBest(searchResultScores: seq<(Candidate, real)>) returns (bestResult: Option<Candidate>)
    ensures bestResult == (match BestEntry(searchResultScores)
                           case None => None
                           case Some(e) => Some(e.0))
  {
    var bestScore: Option<real> := None;
    bestResult := None;
    for i := 0 to |searchResultScores|
      invariant bestScore.None? <==> bestResult.None?
      invariant bestScore.None? ==> BestEntry(searchResultScores[..i]).None?
      invariant bestScore.Some? ==>
                  BestEntry(searchResultScores[..i]) == Some((bestResult.value, bestScore.value))
    {
      assert searchResultScores[..i + 1][..i] == searchResultScores[..i];
      var (result, score) := searchResultScores[i];
      if bestScore.None? || score > bestScore.value {
        bestResult := Some(result);
        bestScore := Some(score);
      }
    }
    assert searchResultScores[..|searchResultScores|] == searchResultScores;
  }

  /** What `getImdbData` returns. */
  datatype ImdbResult = ImdbResult(name: string, url: string, score: ImdbScore)

  /** What `search` and `getImdbData` make of the closest `matches` when
      their scores come back in the order `completion`. A match without a
      usable link makes `getUrl` call `bug()` while its score is fetched. */
  function ChooseResult(matches: seq<Candidate>, completion: seq<Candidate>): Lookup<ImdbResult> {
    if exists c :: c in matches && !HasHref(c) then Defect
    else
      match BestEntry(Scored(completion))
      case None => NoMatch
      case Some(e) =>
        if HasHref(e.0) then Found(ImdbResult(NameOf(e.0), AbsoluteUrl(e.0.href.value), Rating(e.1)))
        else Defect
  }

  /** The outcome of `getImdbData(movie)` when the search page lists
      `candidates`. */
  function ImdbLookup(movie: string, candidates: seq<Candidate>, completion: seq<Candidate>): Lookup<ImdbResult> {
    ChooseResult(Closest(movie, Released(candidates), NameOf), completion)
  }

  /** The part of `search` after matching (lines 51-73) and of
      `getImdbData` after `search`: fetch each match's score, pick the best
      one, and build the result. */
  method ScoreAndPick(bestResults: seq<Candidate>, completion: seq<Candidate>) returns (r: Lookup<ImdbResult>)
    ensures r == ChooseResult(bestResults, completion)
  {
    // getScore calls getUrl on every match
    for i := 0 to |bestResults|
      invariant forall k :: 0 <= k < i ==> HasHref(bestResults[k])
    {
      if !HasHref(bestResults[i]) {
        assert bestResults[i] in bestResults;
        return Defect;
      }
    }
    var bestResult := PickBest(Scored(completion));
    match bestResult
    case None =>
      r := NoMatch;
    case Some(c) =>
      if HasHref(c) {
        r := Found(ImdbResult(NameOf(c), AbsoluteUrl(c.href.value), ScoreOf(c)));
      } else {
        r := Defect;
      }
  }

  /** `getImdbData` together with `search`: keep the released results, find
      the closest matches, then score them and pick one. */
  method GetImdbData(movie: string, candidates: seq<Candidate>, completion: seq<Candidate>)
    returns (r: Lookup<ImdbResult>)
    ensures r == ImdbLookup(movie, candidates, completion)
  {
    var bestResults := ClosestSearchResult(movie, Released(candidates), NameOf);
    r := ScoreAndPick(bestResults, completion);
  }

  /** Only released results of the search page can be matched. */
  lemma MatchesAreReleased(movie: string, candidates: seq<Candidate>)
    ensures forall c :: c in Closest(movie, Released(candidates), NameOf) ==> c in candidates && IsReleased(NameOf(c))
  {
    ClosestIsSubsequence(movie, Released(candidates), NameOf);
    SubsequenceElements(Closest(movie, Released(candidates), NameOf), Released(candidates));
  }

  /** The choice is a defect exactly when some match has no usable link. */
  lemma ChooseDefectIff(matches: seq<Candidate>, completion: seq<Candidate>)
    requires multiset(completion) == multiset(matches)
    ensures ChooseResult(matches, completion).Defect? <==> exists c :: c in matches && !HasHref(c)
  {
    var best := BestEntry(Scored(completion));
    if best.Some? {
      var c := best.value.0;
      assert c in completion;
      assert c in multiset(completion);
    }
  }

  /** The map is empty exactly when no fetched result has a score. */
  lemma {:induction false} ScoredEmptyIff(completion: seq<Candidate>)
    ensures Scored(completion) == [] <==> forall c :: c in completion ==> ScoreOf(c).NotFound?
  {
    if |completion| > 0 {
      ScoredEmptyIff(completion[1..]);
      assert forall x :: x in completion <==> x == completion[0] || x in completion[1..];
    }
  }

  /** Nothing is found exactly when every match has a link but none has a
      score. */
  lemma ChooseNoMatchIff(matches: seq<Candidate>, completion: seq<Candidate>)
    requires multiset(completion) == multiset(matches)
    ensures ChooseResult(matches, completion).NoMatch? <==>
              forall c :: c in matches ==> HasHref(c) && ScoreOf(c).NotFound?
  {
    SameMembers(matches, completion);
    if forall c :: c in matches ==> HasHref(c) {
      ScoredEmptyIff(completion);
      assert ChooseResult(matches, completion).NoMatch? <==> Scored(completion) == [];
    }
  }

  /** The completion order lists the same results as the matches. */
  lemma SameMembers(matches: seq<Candidate>, completion: seq<Candidate>)
    requires multiset(completion) == multiset(matches)
    ensures forall c :: c in matches <==> c in completion
  {
    forall c ensures c in matches <==> c in completion {
      assert c in matches <==> c in multiset(matches);
      assert c in completion <==> c in multiset(completion);
    }
  }

  /** The entry the loop settles on has a score no fetched result beats. */
  lemma BestScoredIsMaximal(completion: seq<Candidate>)
    requires BestEntry(Scored(completion)).Some?
    ensures forall m :: m in completion && ScoreOf(m).Rating? ==>
                          ScoreOf(m).value <= BestEntry(Scored(completion)).value.1
  {
    var es := Scored(completion);
    var j := BestEntryIsFirstMaximum(es);
    forall m | m in completion && ScoreOf(m).Rating?
      ensures ScoreOf(m).value <= es[j].1
    {
      var e := (m, ScoreOf(m).value);
      assert e in es;
      var k :| 0 <= k < |es| && es[k] == e;
    }
  }

  /** A found result is the entry the loop settles on, which has a link. */
  lemma ChooseFoundEntry(matches: seq<Candidate>, completion: seq<Candidate>)
    requires ChooseResult(matches, completion).Found?
    ensures BestEntry(Scored(completion)).Some?
    ensures var e := BestEntry(Scored(completion)).value;
            HasHref(e.0) &&
            ChooseResult(matches, completion).value == ImdbResult(NameOf(e.0), AbsoluteUrl(e.0.href.value), Rating(e.1))
  {
  }

  /** A found result is a match with a link and a score, and no match has
      a higher score. */
  lemma ChooseFoundIsBest(matches: seq<Candidate>, completion: seq<Candidate>) returns (c: Candidate)
    requires multiset(completion) == multiset(matches)
    requires ChooseResult(matches, completion).Found?
    ensures c in matches && HasHref(c) && ScoreOf(c).Rating?
    ensures ChooseResult(matches, completion).value == ImdbResult(NameOf(c), AbsoluteUrl(c.href.value), ScoreOf(c))
    ensures forall m :: m in matches && ScoreOf(m).Rating? ==> ScoreOf(m).value <= ScoreOf(c).value
  {
    ChooseFoundEntry(matches, completion);
    var e := BestEntry(Scored(completion)).value;
    c := e.0;
    assert ScoreOf(c) == Rating(e.1);
    assert c in multiset(completion);
    BestScoredIsMaximal(completion);
    forall m | m in matches ensures m in completion {
      assert m in multiset(matches);
    }
  }

  /** `getImdbData` reports a released result of the search page that is
      among the closest matches, with its cleaned name, its absolute link
      and the highest score of any match. */
  lemma ImdbLookupFound(movie: string, candidates: seq<Candidate>, completion: seq<Candidate>) returns (c: Candidate)
    requires multiset(completion) == multiset(Closest(movie, Released(candidates), NameOf))
    requires ImdbLookup(movie, candidates, completion).Found?
    ensures c in candidates && IsReleased(NameOf(c))
    ensures c in Closest(movie, Released(candidates), NameOf) && ScoreOf(c).Rating? && HasHref(c)
    ensures ImdbLookup(movie, candidates, completion).value == ImdbResult(NameOf(c), AbsoluteUrl(c.href.value), ScoreOf(c))
    ensures forall m :: m in Closest(movie, Released(candidates), NameOf) && ScoreOf(m).Rating? ==>
                          ScoreOf(m).value <= ScoreOf(c).value
  {
    c := ChooseFoundIsBest(Closest(movie, Released(candidates), NameOf), completion);
    MatchesAreReleased(movie, candidates);
  }
}
