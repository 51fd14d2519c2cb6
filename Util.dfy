/** The helpers of `src/util.ts` that the scrapers and the CSV output use:
    `getHighest` (a tie-breaking maximum), the CSV field quoting of
    `escapeDoubleQuotes` and `csvFriendly`, and the value helpers
    `printable` and `numberOr`. */
module Util {
  import opened Wrappers
  import opened Strings

  // ---------------------------------------------------------------------
  // getHighest
  // ---------------------------------------------------------------------

  /** What `getHighest` returns: scanning left to right, a later element
      replaces the running best whenever `comparator(best, element) <= 0`. */
  function Highest<T>(arr: seq<T>, comparator: (T, T) -> int): (r: Option<T>)
    ensures r.None? <==> |arr| == 0
    ensures r.Some? ==> r.value in arr
  {
    if |arr| == 0 then None
    else if |arr| == 1 then Some(arr[0])
    else
      var best := Highest(arr[..|arr| - 1], comparator).value;
      var last := arr[|arr| - 1];
      if comparator(best, last) <= 0 then Some(last) else Some(best)
  }

  /** `getHighest`: `undefined` for an empty array, otherwise the loop over
      the elements after the first. */
  method GetHighest<T>(arr: seq<T>, comparator: (T, T) -> int) returns (r: Option<T>)
    ensures r == Highest(arr, comparator)
  {
    if |arr| == 0 {
      return None;
    }
    var highest := arr[0];
    assert arr[..1] == [arr[0]];
    for i := 1 to |arr|
      invariant Highest(arr[..i], comparator) == Some(highest)
    {
      var elem := arr[i];
      assert arr[..i + 1][..i] == arr[..i];
      var comparison := comparator(highest, elem);
      if comparison <= 0 {
        highest := elem;
      }
    }
    assert arr[..|arr|] == arr;
    return Some(highest);
  }

  /** When `comparator` reports `<= 0` exactly when `le` holds, and `le` is
      a total preorder on the elements, `getHighest` returns the LAST of the
      maximal elements: every element is `le` it, and no element after it is
      `le`-above it (equal elements later on replace it). */
  lemma {:induction false} HighestIsLastMaximum<T>(arr: seq<T>, comparator: (T, T) -> int, le: (T, T) -> bool)
    returns (j: nat)
    requires |arr| > 0
    requires forall x, y :: comparator(x, y) <= 0 <==> le(x, y)
    requires forall x, y :: le(x, y) || le(y, x)
    requires forall x, y, z :: le(x, y) && le(y, z) ==> le(x, z)
    ensures j < |arr| && Highest(arr, comparator) == Some(arr[j])
    ensures forall k :: 0 <= k < |arr| ==> le(arr[k], arr[j])
    ensures forall k :: j < k < |arr| ==> !le(arr[j], arr[k])
  {
    if |arr| == 1 {
      j := 0;
      assert le(arr[0], arr[0]);
    } else {
      var init := arr[..|arr| - 1];
      var last := arr[|arr| - 1];
      var i := HighestIsLastMaximum(init, comparator, le);
      forall k | 0 <= k < |init| ensures arr[k] == init[k] { }
      if le(init[i], last) {
        j := |arr| - 1;
        assert le(last, last);
      } else {
        j := i;
      }
    }
  }

  /** With the subtraction comparator of the unit tests, `getHighest`
      returns the largest number. */
  lemma HighestByDifference(arr: seq<int>)
    requires |arr| > 0
    ensures Highest(arr, (a: int, b: int) => a - b).Some?
    ensures forall k :: 0 <= k < |arr| ==> arr[k] <= Highest(arr, (a: int, b: int) => a - b).value
  {
    var j := HighestIsLastMaximum(arr, (a: int, b: int) => a - b, (a: int, b: int) => a <= b);
  }

  /** The cases of the unit tests: `[]`, `[2]` and `[3, 1, 2]`. */
  lemma HighestExamples()
    ensures Highest([], (a: int, b: int) => a - b) == None
    ensures Highest([2], (a: int, b: int) => a - b) == Some(2)
    ensures Highest([3, 1, 2], (a: int, b: int) => a - b) == Some(3)
  {
    var arr := [3, 1, 2];
    assert arr[..2] == [3, 1];
    assert arr[..2][..1] == [3];
  }

  // ---------------------------------------------------------------------
  // escapeDoubleQuotes and csvFriendly
  // ---------------------------------------------------------------------

  /** `escapeDoubleQuotes(s, replacement)`: every `"` becomes `replacement`. */
  function EscapeDoubleQuotes(s: string, replacement: string): (r: string)
  {
    if |s| == 0 then ""
    else (if s[0] == '"' then replacement else [s[0]]) + EscapeDoubleQuotes(s[1..], replacement)
  }

  function CountQuotes(s: string): nat {
    if |s| == 0 then 0 else (if s[0] == '"' then 1 else 0) + CountQuotes(s[1..])
  }

  /** Every `"` is replaced and every other character kept: the output grows
      by `|replacement| - 1` per quote. */
  lemma {:induction false} EscapeDoubleQuotesLength(s: string, replacement: string)
    ensures |EscapeDoubleQuotes(s, replacement)| == |s| + CountQuotes(s) * (|replacement| - 1)
  {
    if |s| > 0 {
      var grow := |replacement| - 1;
      var c := CountQuotes(s[1..]);
      EscapeDoubleQuotesLength(s[1..], replacement);
      if s[0] == '"' {
        assert CountQuotes(s) * grow == grow + c * grow by {
          assert CountQuotes(s) == 1 + c;
        }
      }
    }
  }

  /** A string without quotes is left as it is. */
  lemma {:induction false} EscapeDoubleQuotesWithoutQuotes(s: string, replacement: string)
    requires CountQuotes(s) == 0
    ensures EscapeDoubleQuotes(s, replacement) == s
  {
    if |s| > 0 {
      EscapeDoubleQuotesWithoutQuotes(s[1..], replacement);
      assert s == [s[0]] + s[1..];
    }
  }

  /** The cases of the unit tests. */
  lemma EscapeDoubleQuotesExamples()
    ensures EscapeDoubleQuotes("", "\"\"") == ""
    ensures EscapeDoubleQuotes("str", "\"\"") == "str"
    ensures EscapeDoubleQuotes("\"", "\"\"") == "\"\""
    ensures EscapeDoubleQuotes("\"\"", "\"\"") == "\"\"\"\""
  {
    assert "str"[1..] == "tr";
    assert "tr"[1..] == "r";
    assert "\"\""[1..] == "\"";
  }

  /** The field content as a CSV reader sees it between the outer quotes
      (section 2, rule 7, of RFC 4180): `""` stands for one `"`. */
  function UndoubleQuotes(t: string): string
    decreases |t|
  {
    if |t| == 0 then ""
    else if |t| >= 2 && t[0] == '"' && t[1] == '"' then "\"" + UndoubleQuotes(t[2..])
    else [t[0]] + UndoubleQuotes(t[1..])
  }

  /** Every `"` of `t` is one of an adjacent pair, so `t` may stand between
      the outer quotes of a CSV field. */
  predicate QuotesPaired(t: string)
    decreases |t|
  {
    if |t| == 0 then true
    else if t[0] == '"' then |t| >= 2 && t[1] == '"' && QuotesPaired(t[2..])
    else QuotesPaired(t[1..])
  }

  /** Doubling the quotes produces paired quotes, and reading them back
      gives the original. */
  lemma {:induction false} DoubledQuotesRoundTrip(s: string)
    ensures QuotesPaired(EscapeDoubleQuotes(s, "\"\""))
    ensures UndoubleQuotes(EscapeDoubleQuotes(s, "\"\"")) == s
  {
    if |s| > 0 {
      var rest := EscapeDoubleQuotes(s[1..], "\"\"");
      DoubledQuotesRoundTrip(s[1..]);
      var e := EscapeDoubleQuotes(s, "\"\"");
      if s[0] == '"' {
        assert e == "\"\"" + rest;
        assert e[2..] == rest;
      } else {
        assert e == [s[0]] + rest;
        assert e[1..] == rest;
      }
      assert s == [s[0]] + s[1..];
    }
  }

  /** The characters that make `csvFriendly` quote a field. A lone `\r`
      is not one of them. */
  predicate NeedsQuoting(s: string) {
    ',' in s || '\n' in s || '"' in s
  }

  /** `csvFriendly`: the string itself when it has no `,`, newline or `"`,
      otherwise the string with doubled quotes between double quotes. */
  function CsvFriendly(s: string): string {
    if !NeedsQuoting(s) then s
    else "\"" + EscapeDoubleQuotes(s, "\"\"") + "\""
  }

  /** How a CSV reader recovers a field: an enclosed field loses its outer
      quotes and its doubled quotes; any other field is taken as it is. */
  function ReadCsvField(t: string): string {
    if |t| >= 2 && t[0] == '"' && t[|t| - 1] == '"' then UndoubleQuotes(t[1..|t| - 1]) else t
  }

  /** A field is left as it is exactly when it has none of `,`, newline or
      `"`; otherwise it is enclosed in quotes with its quotes paired. */
  lemma CsvFriendlyShape(s: string)
    ensures CsvFriendly(s) == s <==> !NeedsQuoting(s)
    ensures NeedsQuoting(s) ==>
              var r := CsvFriendly(s);
              |r| >= 2 && r[0] == '"' && r[|r| - 1] == '"' && QuotesPaired(r[1..|r| - 1])
  {
    if NeedsQuoting(s) {
      var e := EscapeDoubleQuotes(s, "\"\"");
      var r := CsvFriendly(s);
      assert r == "\"" + e + "\"";
      EscapeDoubleQuotesLength(s, "\"\"");
      assert |r| == |e| + 2 > |s|;
      DoubledQuotesRoundTrip(s);
      assert r[1..|r| - 1] == e;
    }
  }

  /** Reading back what `csvFriendly` wrote gives the original string. */
  lemma CsvFriendlyRoundTrip(s: string)
    ensures ReadCsvField(CsvFriendly(s)) == s
  {
    if NeedsQuoting(s) {
      var r := CsvFriendly(s);
      DoubledQuotesRoundTrip(s);
      assert r[1..|r| - 1] == EscapeDoubleQuotes(s, "\"\"");
    }
  }

  /** A carriage return alone does not cause quoting. */
  lemma CsvFriendlyKeepsCarriageReturn()
    ensures CsvFriendly("a\rb") == "a\rb"
  {
    assert !NeedsQuoting("a\rb");
  }

  // ---------------------------------------------------------------------
  // printable and numberOr
  // ---------------------------------------------------------------------

  /** A JavaScript value of the kinds these helpers receive; numbers are
      integer-valued here. */
  datatype JsValue = Undefined | Num(n: int) | Str(s: string)

  /** `printable`: `""` for `undefined`, otherwise `val.toString()`. */
  function Printable(val: JsValue): string {
    match val
    case Undefined => ""
    case Num(n) => IntToString(n)
    case Str(s) => s
  }

  /** `printable` prints nothing only for `undefined` and the empty string,
      and a printed number reads back as the same number. */
  lemma PrintableProperties(val: JsValue)
    ensures Printable(val) == "" <==> val == Undefined || val == Str("")
    ensures val.Num? ==> ParseInt(Printable(val)) == Some(val.n)
  {
    if val.Num? {
      ParseIntOfIntToString(val.n);
      assert |NatToString(if val.n < 0 then -val.n else val.n)| > 0;
    }
  }

  /** `numberOr`: the value when it is a number, otherwise the fallback. */
  function NumberOr(val: JsValue, fallback: JsValue): JsValue {
    if val.Num? then val else fallback
  }

  /** `numberOr` returns its value exactly when that value is a number (or
      already equals the fallback), and returns a number whenever either
      argument is one. */
  lemma NumberOrProperties(val: JsValue, fallback: JsValue)
    ensures NumberOr(val, fallback) == val <==> val.Num? || val == fallback
    ensures NumberOr(val, fallback).Num? <==> val.Num? || fallback.Num?
    ensures NumberOr(NumberOr(val, fallback), fallback) == NumberOr(val, fallback)
  {
  }
}
