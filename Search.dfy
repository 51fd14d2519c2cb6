/** The closest-title matcher of `src/search.ts`: candidates are ranked by
    the length of the longest common subsequence (LCS) of their sanitised
    name with the sanitised query, ties on LCS by edit distance, and every
    candidate that is best on both counts is returned, in input order. */
module Search {
  import opened Strings
  import opened Sequences

  // ---------------------------------------------------------------------
  // sanitise
  // ---------------------------------------------------------------------

  /** The characters that survive `/[^a-z0-9\(\)]/g`. */
  predicate IsKept(c: char) {
    ('a' <= c <= 'z') || ('0' <= c <= '9') || c == '(' || c == ')'
  }

  /** `s` with every character outside `[a-z0-9()]` removed. */
  function KeepOnly(s: string): (r: string)
    ensures forall i :: 0 <= i < |r| ==> IsKept(r[i])
    ensures |r| <= |s|
  {
    if |s| == 0 then ""
    else if IsKept(s[0]) then [s[0]] + KeepOnly(s[1..])
    else KeepOnly(s[1..])
  }

  /** `sanitise`: lowercase, then keep only `a-z`, `0-9`, `(` and `)`. */
  function Sanitise(s: string): string {
    KeepOnly(Lower(s))
  }

  /** What `KeepOnly` returns is a sub-sequence of its input. */
  lemma {:induction false} KeepOnlySubsequence(s: string)
    ensures IsSubsequence(KeepOnly(s), s)
  {
    if |s| > 0 {
      KeepOnlySubsequence(s[1..]);
      assert s == [s[0]] + s[1..];
      if IsKept(s[0]) {
        assert ([s[0]] + KeepOnly(s[1..]))[1..] == KeepOnly(s[1..]);
      } else {
        SubsequenceCons(KeepOnly(s[1..]), s[1..], s[0]);
      }
    }
  }

  /** `KeepOnly` changes nothing in a string that is already clean. */
  lemma {:induction false} KeepOnlyOfKept(s: string)
    requires forall i :: 0 <= i < |s| ==> IsKept(s[i])
    ensures KeepOnly(s) == s
  {
    if |s| > 0 {
      KeepOnlyOfKept(s[1..]);
      assert s == [s[0]] + s[1..];
    }
  }

  /** `sanitise` yields only `a-z`, `0-9`, `(` and `)`, drops characters of
      the lowercased input without reordering them, and is idempotent. */
  lemma SanitiseProperties(s: string)
    ensures forall i :: 0 <= i < |Sanitise(s)| ==> IsKept(Sanitise(s)[i])
    ensures IsSubsequence(Sanitise(s), Lower(s))
    ensures Sanitise(Sanitise(s)) == Sanitise(s)
  {
    var r := Sanitise(s);
    KeepOnlySubsequence(Lower(s));
    assert Lower(r) == r by {
      forall i | 0 <= i < |r| ensures Lower(r)[i] == r[i] {
        assert IsKept(r[i]);
      }
    }
    KeepOnlyOfKept(r);
  }

  /** `sanitise` works character by character: it distributes over
      concatenation, and a single character is kept, lowercased, exactly
      when its lowercase form is in `[a-z0-9()]`. */
  lemma SanitiseCharwise(a: string, b: string, c: char)
    ensures Sanitise(a + b) == Sanitise(a) + Sanitise(b)
    ensures Sanitise([c]) == if IsKept(ToLowerChar(c)) then [ToLowerChar(c)] else []
  {
    LowerProperties(a, b);
    KeepOnlyConcat(Lower(a), Lower(b));
    var l := Lower([c]);
    assert l == [ToLowerChar(c)];
    assert l[1..] == [];
  }

  // ---------------------------------------------------------------------
  // The two similarity measures (libraries js-lcs and fastest-levenshtein)
  // ---------------------------------------------------------------------

  function Max(a: int, b: int): int { if a >= b then a else b }
  function Min(a: int, b: int): int { if a <= b then a else b }

  /** Length of a longest common subsequence of `a` and `b`. */
  function Lcs(a: string, b: string): (r: nat)
    ensures r <= |a| && r <= |b|
    decreases |a| + |b|
  {
    if |a| == 0 || |b| == 0 then 0
    else if a[0] == b[0] then 1 + Lcs(a[1..], b[1..])
    else Max(Lcs(a[1..], b), Lcs(a, b[1..]))
  }

  /** Unit-cost edit distance: the fewest single-character insertions,
      deletions and substitutions that turn `a` into `b`. */
  function Levenshtein(a: string, b: string): nat
    decreases |a| + |b|
  {
    if |a| == 0 then |b|
    else if |b| == 0 then |a|
    else
      Min(Min(Levenshtein(a[1..], b) + 1, Levenshtein(a, b[1..]) + 1),
          Levenshtein(a[1..], b[1..]) + (if a[0] == b[0] then 0 else 1))
  }

  /** When `a` is a sub-sequence of `b`, all of `a` is common to both. */
  lemma {:induction false} LcsOfSubsequence(a: string, b: string)
    requires IsSubsequence(a, b)
    ensures Lcs(a, b) == |a|
    decreases |b|
  {
    if |a| > 0 {
      if a[0] == b[0] {
        LcsOfSubsequence(a[1..], b[1..]);
      } else {
        LcsOfSubsequence(a, b[1..]);
      }
    }
  }

  /** The edit distance is at least the difference in length. */
  lemma {:induction false} LevenshteinAtLeastLengthGap(a: string, b: string)
    ensures Levenshtein(a, b) >= |a| - |b| && Levenshtein(a, b) >= |b| - |a|
    decreases |a| + |b|
  {
    if |a| > 0 && |b| > 0 {
      LevenshteinAtLeastLengthGap(a[1..], b);
      LevenshteinAtLeastLengthGap(a, b[1..]);
      LevenshteinAtLeastLengthGap(a[1..], b[1..]);
    }
  }

  /** Appending `t` to `a` costs at most `|t|` insertions. */
  lemma {:induction false} LevenshteinOfExtension(a: string, t: string)
    ensures Levenshtein(a, a + t) <= |t|
    decreases |a|
  {
    if |a| > 0 {
      assert (a + t)[1..] == a[1..] + t;
      assert (a + t)[0] == a[0];
      LevenshteinOfExtension(a[1..], t);
    } else {
      assert a + t == t;
    }
  }

  // ---------------------------------------------------------------------
  // Scores of the candidates
  // ---------------------------------------------------------------------

  /** `matchLevenshtein`: a distance, or the initial `Infinity`. */
  datatype Distance = Finite(n: nat) | Infinity

  /** `d <= bound` with `Infinity` above every distance. */
  predicate AtMost(d: nat, bound: Distance) {
    bound.Infinity? || d <= bound.n
  }

  function LcsOf<T>(sq: string, getName: T -> string, p: T): nat {
    Lcs(sq, Sanitise(getName(p)))
  }

  function DistanceOf<T>(sq: string, getName: T -> string, p: T): nat {
    Levenshtein(sq, Sanitise(getName(p)))
  }

  /** The greatest LCS of any candidate (0 when there is none). */
  function MaxLcs<T>(sq: string, ps: seq<T>, getName: T -> string): nat {
    if |ps| == 0 then 0
    else Max(MaxLcs(sq, ps[..|ps| - 1], getName), LcsOf(sq, getName, ps[|ps| - 1]))
  }

  /** The least edit distance among the candidates whose LCS is `m`;
      `Infinity` when no candidate has LCS `m`. */
  function MinDistanceAt<T>(sq: string, ps: seq<T>, getName: T -> string, m: nat): Distance {
    if |ps| == 0 then Infinity
    else
      var d := MinDistanceAt(sq, ps[..|ps| - 1], getName, m);
      var p := ps[|ps| - 1];
      if LcsOf(sq, getName, p) == m && AtMost(DistanceOf(sq, getName, p), d)
      then Finite(DistanceOf(sq, getName, p)) else d
  }

  /** The candidates with LCS `m` and distance `d`, in input order. */
  function Matches<T>(sq: string, ps: seq<T>, getName: T -> string, m: nat, d: Distance): seq<T> {
    if |ps| == 0 then []
    else
      var p := ps[|ps| - 1];
      Matches(sq, ps[..|ps| - 1], getName, m, d)
        + (if LcsOf(sq, getName, p) == m && Finite(DistanceOf(sq, getName, p)) == d then [p] else [])
  }

  /** What `closestSearchResult` computes: the candidates whose LCS is the
      running best that started at the floor 3, and whose distance is the
      least among those. */
  function Closest<T>(movie: string, ps: seq<T>, getName: T -> string): seq<T> {
    var sq := Sanitise(movie);
    var m := Max(3, MaxLcs(sq, ps, getName));
    Matches(sq, ps, getName, m, MinDistanceAt(sq, ps, getName, m))
  }

  // ---------------------------------------------------------------------
  // closestSearchResult
  // ---------------------------------------------------------------------

  /** `closestSearchResult`: one pass over the products, keeping the best
      LCS so far (floor 3), the best distance for it, and the list of the
      products that reach both. */
  method ClosestSearchResult<T>(movie: string, products: seq<T>, getName: T -> string)
    returns (bestMatches: seq<T>)
    ensures bestMatches == Closest(movie, products, getName)
  {
    if |products| == 0 {
      return [];
    }
    var movieSanitised := Sanitise(movie);
    bestMatches := [];
    var matchLcs: nat := 3;
    var matchLevenshtein := Infinity;

    for i := 0 to |products|
      invariant matchLcs == Max(3, MaxLcs(movieSanitised, products[..i], getName))
      invariant matchLevenshtein == MinDistanceAt(movieSanitised, products[..i], getName, matchLcs)
      invariant bestMatches == Matches(movieSanitised, products[..i], getName, matchLcs, matchLevenshtein)
    {
      var product := products[i];
      var name := Sanitise(getName(product));
      var productLcs := Lcs(movieSanitised, name);
      assert products[..i + 1] == products[..i] + [product];

      if productLcs > matchLcs {
        StepNewBest(movieSanitised, products[..i], product, getName);
        matchLcs := productLcs;
        matchLevenshtein := Finite(Levenshtein(movieSanitised, name));
        bestMatches := [];
        bestMatches := bestMatches + [product];
      } else if productLcs == matchLcs && AtMost(Levenshtein(movieSanitised, name), matchLevenshtein) {
        var productLeven := Levenshtein(movieSanitised, name);
        StepSameLcs(movieSanitised, products[..i], product, getName, matchLcs);
        if Finite(productLeven) != matchLevenshtein {
          bestMatches := [];
        }
        matchLevenshtein := Finite(productLeven);
        bestMatches := bestMatches + [product];
      } else {
        StepUnchanged(movieSanitised, products[..i], product, getName, matchLcs);
      }
    }
    assert products[..|products|] == products;

    if |bestMatches| == 0 {
      return [];
    }
  }

  // ---------------------------------------------------------------------
  // Facts about the running maxima
  // ---------------------------------------------------------------------

  lemma {:induction false} MaxLcsIsUpperBound<T>(sq: string, ps: seq<T>, getName: T -> string)
    ensures forall k :: 0 <= k < |ps| ==> LcsOf(sq, getName, ps[k]) <= MaxLcs(sq, ps, getName)
  {
    if |ps| > 0 {
      var init := ps[..|ps| - 1];
      MaxLcsIsUpperBound(sq, init, getName);
      forall k | 0 <= k < |ps| - 1 ensures ps[k] == init[k] { }
    }
  }

  /** Some candidate reaches the maximum, when there is a candidate. */
  lemma {:induction false} MaxLcsIsAttained<T>(sq: string, ps: seq<T>, getName: T -> string) returns (k: nat)
    requires |ps| > 0
    ensures k < |ps| && LcsOf(sq, getName, ps[k]) == MaxLcs(sq, ps, getName)
  {
    if |ps| == 1 || LcsOf(sq, getName, ps[|ps| - 1]) >= MaxLcs(sq, ps[..|ps| - 1], getName) {
      k := |ps| - 1;
    } else {
      k := MaxLcsIsAttained(sq, ps[..|ps| - 1], getName);
    }
  }

  /** `MinDistanceAt` is a lower bound of the distances at LCS `m`, reached
      by one of them; it is `Infinity` exactly when no candidate has LCS `m`. */
  lemma {:induction false} MinDistanceIsMinimum<T>(sq: string, ps: seq<T>, getName: T -> string, m: nat)
    ensures forall k :: 0 <= k < |ps| && LcsOf(sq, getName, ps[k]) == m ==>
              MinDistanceAt(sq, ps, getName, m).Finite? &&
              MinDistanceAt(sq, ps, getName, m).n <= DistanceOf(sq, getName, ps[k])
    ensures MinDistanceAt(sq, ps, getName, m).Infinity? <==>
              forall k :: 0 <= k < |ps| ==> LcsOf(sq, getName, ps[k]) != m
    ensures MinDistanceAt(sq, ps, getName, m).Finite? ==>
              exists k :: 0 <= k < |ps| && LcsOf(sq, getName, ps[k]) == m &&
                Finite(DistanceOf(sq, getName, ps[k])) == MinDistanceAt(sq, ps, getName, m)
  {
    if |ps| > 0 {
      var init := ps[..|ps| - 1];
      MinDistanceIsMinimum(sq, init, getName, m);
      forall k | 0 <= k < |ps| - 1 ensures ps[k] == init[k] { }
    }
  }

  /** Above the maximum LCS there are neither distances nor matches. */
  lemma {:induction false} NothingAboveMax<T>(sq: string, ps: seq<T>, getName: T -> string, m: nat)
    requires m > MaxLcs(sq, ps, getName)
    ensures MinDistanceAt(sq, ps, getName, m) == Infinity
    ensures forall d :: Matches(sq, ps, getName, m, d) == []
  {
    if |ps| > 0 {
      NothingAboveMax(sq, ps[..|ps| - 1], getName, m);
    }
  }

  /** A product above the running best LCS starts a new list of its own. */
  lemma StepNewBest<T>(sq: string, before: seq<T>, p: T, getName: T -> string)
    requires LcsOf(sq, getName, p) > Max(3, MaxLcs(sq, before, getName))
    ensures var m := LcsOf(sq, getName, p);
            var d := Finite(DistanceOf(sq, getName, p));
            && Max(3, MaxLcs(sq, before + [p], getName)) == m
            && MinDistanceAt(sq, before + [p], getName, m) == d
            && Matches(sq, before + [p], getName, m, d) == [p]
  {
    NothingAboveMax(sq, before, getName, LcsOf(sq, getName, p));
    assert (before + [p])[..|before|] == before;
  }

  /** A product at the running best LCS, no farther than the best distance,
      joins the list, which it first empties when it is strictly closer. */
  lemma StepSameLcs<T>(sq: string, before: seq<T>, p: T, getName: T -> string, m: nat)
    requires m == Max(3, MaxLcs(sq, before, getName)) && LcsOf(sq, getName, p) == m
    requires AtMost(DistanceOf(sq, getName, p), MinDistanceAt(sq, before, getName, m))
    ensures var d0 := MinDistanceAt(sq, before, getName, m);
            var d := Finite(DistanceOf(sq, getName, p));
            && Max(3, MaxLcs(sq, before + [p], getName)) == m
            && MinDistanceAt(sq, before + [p], getName, m) == d
            && Matches(sq, before + [p], getName, m, d) ==
                 (if d == d0 then Matches(sq, before, getName, m, d0) else []) + [p]
  {
    var d0 := MinDistanceAt(sq, before, getName, m);
    var dp := DistanceOf(sq, getName, p);
    assert (before + [p])[..|before|] == before;
    if Finite(dp) != d0 {
      NothingBelowMin(sq, before, getName, m, dp);
    }
  }

  /** Any other product leaves the running state as it is. */
  lemma StepUnchanged<T>(sq: string, before: seq<T>, p: T, getName: T -> string, m: nat)
    requires m == Max(3, MaxLcs(sq, before, getName))
    requires LcsOf(sq, getName, p) < m ||
             (LcsOf(sq, getName, p) == m && !AtMost(DistanceOf(sq, getName, p), MinDistanceAt(sq, before, getName, m)))
    ensures var d0 := MinDistanceAt(sq, before, getName, m);
            && Max(3, MaxLcs(sq, before + [p], getName)) == m
            && MinDistanceAt(sq, before + [p], getName, m) == d0
            && Matches(sq, before + [p], getName, m, d0) == Matches(sq, before, getName, m, d0)
  {
    assert (before + [p])[..|before|] == before;
  }

  /** Below the least distance there are no matches. */
  lemma {:induction false} NothingBelowMin<T>(sq: string, ps: seq<T>, getName: T -> string, m: nat, d: nat)
    requires AtMost(d, MinDistanceAt(sq, ps, getName, m))
    requires Finite(d) != MinDistanceAt(sq, ps, getName, m)
    ensures Matches(sq, ps, getName, m, Finite(d)) == []
  {
    if |ps| > 0 {
      NothingBelowMin(sq, ps[..|ps| - 1], getName, m, d);
    }
  }

  /** Every match meets the condition and comes from the input, and the
      matches keep the input order. */
  lemma {:induction false} MatchesMeetCondition<T>(sq: string, ps: seq<T>, getName: T -> string, m: nat, d: Distance)
    ensures forall x :: x in Matches(sq, ps, getName, m, d) ==>
              (exists k :: 0 <= k < |ps| && ps[k] == x) &&
              LcsOf(sq, getName, x) == m && Finite(DistanceOf(sq, getName, x)) == d
    ensures IsSubsequence(Matches(sq, ps, getName, m, d), ps)
  {
    if |ps| > 0 {
      var init := ps[..|ps| - 1];
      var p := ps[|ps| - 1];
      MatchesMeetCondition(sq, init, getName, m, d);
      assert ps == init + [p];
      forall x | x in Matches(sq, init, getName, m, d) ensures exists k :: 0 <= k < |ps| && ps[k] == x {
        var k :| 0 <= k < |init| && init[k] == x;
        assert ps[k] == x;
      }
      if LcsOf(sq, getName, p) == m && Finite(DistanceOf(sq, getName, p)) == d {
        SubsequenceSnoc(Matches(sq, init, getName, m, d), init, p);
      } else {
        SubsequenceExtend(Matches(sq, init, getName, m, d), init, p);
        assert Matches(sq, init, getName, m, d) + [] == Matches(sq, init, getName, m, d);
      }
    }
  }

  // ---------------------------------------------------------------------
  // What the result means
  // ---------------------------------------------------------------------

  /** `x` is a best candidate among `all`: its LCS reaches the floor 3, no
      candidate has a greater LCS, and no candidate with the same LCS has a
      smaller edit distance. */
  predicate IsBest<T>(sq: string, all: seq<T>, getName: T -> string, x: T) {
    && LcsOf(sq, getName, x) >= 3
    && (forall k :: 0 <= k < |all| ==> LcsOf(sq, getName, all[k]) <= LcsOf(sq, getName, x))
    && (forall k :: 0 <= k < |all| && LcsOf(sq, getName, all[k]) == LcsOf(sq, getName, x) ==>
          DistanceOf(sq, getName, x) <= DistanceOf(sq, getName, all[k]))
  }

  /** The elements of `ps` that are best among `all`, in the order of `ps`. */
  function BestOf<T>(sq: string, all: seq<T>, getName: T -> string, ps: seq<T>): seq<T> {
    if |ps| == 0 then []
    else
      BestOf(sq, all, getName, ps[..|ps| - 1])
        + (if IsBest(sq, all, getName, ps[|ps| - 1]) then [ps[|ps| - 1]] else [])
  }

  /** `BestOf` keeps exactly the best elements. */
  lemma {:induction false} BestOfMembers<T>(sq: string, all: seq<T>, getName: T -> string, ps: seq<T>)
    ensures forall x :: x in BestOf(sq, all, getName, ps) <==> x in ps && IsBest(sq, all, getName, x)
  {
    if |ps| > 0 {
      var init := ps[..|ps| - 1];
      BestOfMembers(sq, all, getName, init);
      assert ps == init + [ps[|ps| - 1]];
    }
  }

  /** Two filters that agree on every element give the same result. */
  lemma {:induction false} MatchesAreBest<T>(sq: string, all: seq<T>, getName: T -> string, ps: seq<T>, m: nat, d: Distance)
    requires forall k :: 0 <= k < |ps| ==>
               ((LcsOf(sq, getName, ps[k]) == m && Finite(DistanceOf(sq, getName, ps[k])) == d)
                <==> IsBest(sq, all, getName, ps[k]))
    ensures Matches(sq, ps, getName, m, d) == BestOf(sq, all, getName, ps)
  {
    if |ps| > 0 {
      var init := ps[..|ps| - 1];
      forall k | 0 <= k < |init| ensures init[k] == ps[k] { }
      MatchesAreBest(sq, all, getName, init, m, d);
    }
  }

  /** The matcher returns exactly the best candidates, in input order and
      with their multiplicity: the pass with its running LCS and distance
      agrees with the definition that compares every pair of candidates. */
  lemma ClosestIsBestOf<T>(movie: string, ps: seq<T>, getName: T -> string)
    ensures Closest(movie, ps, getName) == BestOf(Sanitise(movie), ps, getName, ps)
  {
    var sq := Sanitise(movie);
    var m := Max(3, MaxLcs(sq, ps, getName));
    var d := MinDistanceAt(sq, ps, getName, m);
    MaxLcsIsUpperBound(sq, ps, getName);
    MinDistanceIsMinimum(sq, ps, getName, m);
    forall k | 0 <= k < |ps|
      ensures (LcsOf(sq, getName, ps[k]) == m && Finite(DistanceOf(sq, getName, ps[k])) == d)
              <==> IsBest(sq, ps, getName, ps[k])
    {
      var x := ps[k];
      if IsBest(sq, ps, getName, x) {
        var j := MaxLcsIsAttained(sq, ps, getName);
        assert LcsOf(sq, getName, x) == m;
        var i :| 0 <= i < |ps| && LcsOf(sq, getName, ps[i]) == m &&
                 Finite(DistanceOf(sq, getName, ps[i])) == d;
        assert DistanceOf(sq, getName, x) <= DistanceOf(sq, getName, ps[i]);
      }
    }
    MatchesAreBest(sq, ps, getName, ps, m, d);
  }

  /** The result is an order-preserving selection from the input: nothing
      is invented, duplicated or reordered. */
  lemma ClosestIsSubsequence<T>(movie: string, ps: seq<T>, getName: T -> string)
    ensures IsSubsequence(Closest(movie, ps, getName), ps)
  {
    var sq := Sanitise(movie);
    var m := Max(3, MaxLcs(sq, ps, getName));
    MatchesMeetCondition(sq, ps, getName, m, MinDistanceAt(sq, ps, getName, m));
  }

  /** A candidate is returned if and only if it is a best one: its LCS is
      the maximum LCS, which is at least 3, and its edit distance is the
      least among the candidates with that LCS. */
  lemma ClosestMembers<T>(movie: string, ps: seq<T>, getName: T -> string)
    ensures forall x :: x in Closest(movie, ps, getName) <==> x in ps && IsBest(Sanitise(movie), ps, getName, x)
  {
    ClosestIsBestOf(movie, ps, getName);
    BestOfMembers(Sanitise(movie), ps, getName, ps);
  }

  /** The result is non-empty exactly when some candidate's LCS with the
      query reaches 3 (the floor is inclusive). */
  lemma ClosestNonEmptyIff<T>(movie: string, ps: seq<T>, getName: T -> string)
    ensures Closest(movie, ps, getName) != [] <==>
            exists k :: 0 <= k < |ps| && LcsOf(Sanitise(movie), getName, ps[k]) >= 3
  {
    var sq := Sanitise(movie);
    var m := Max(3, MaxLcs(sq, ps, getName));
    var d := MinDistanceAt(sq, ps, getName, m);
    var r := Closest(movie, ps, getName);
    MatchesMeetCondition(sq, ps, getName, m, d);
    MaxLcsIsUpperBound(sq, ps, getName);
    MinDistanceIsMinimum(sq, ps, getName, m);
    if exists k :: 0 <= k < |ps| && LcsOf(sq, getName, ps[k]) >= 3 {
      var j := MaxLcsIsAttained(sq, ps, getName);
      var i :| 0 <= i < |ps| && LcsOf(sq, getName, ps[i]) == m &&
               Finite(DistanceOf(sq, getName, ps[i])) == d;
      ClosestMembers(movie, ps, getName);
      assert ps[i] in r;
    }
    if r != [] {
      assert r[0] in r;
      var k :| 0 <= k < |ps| && ps[k] == r[0];
      assert LcsOf(sq, getName, ps[k]) >= 3;
    }
  }

  /** The first element `BestOf` keeps is the first best element of `ps`. */
  lemma {:induction false} BestOfFirst<T>(sq: string, all: seq<T>, getName: T -> string, ps: seq<T>) returns (i: nat)
    requires BestOf(sq, all, getName, ps) != []
    ensures i < |ps| && ps[i] == BestOf(sq, all, getName, ps)[0] && IsBest(sq, all, getName, ps[i])
    ensures forall k :: 0 <= k < i ==> !IsBest(sq, all, getName, ps[k])
  {
    var init := ps[..|ps| - 1];
    var b := BestOf(sq, all, getName, init);
    forall k | 0 <= k < |init| ensures init[k] == ps[k] { }
    if b != [] {
      i := BestOfFirst(sq, all, getName, init);
    } else {
      BestOfMembers(sq, all, getName, init);
      forall k | 0 <= k < |init| ensures !IsBest(sq, all, getName, ps[k]) {
        assert init[k] in init;
      }
      i := |ps| - 1;
    }
  }

  /** When several candidates tie, the first of them in input order comes
      first in the result. */
  lemma ClosestFirst<T>(movie: string, ps: seq<T>, getName: T -> string) returns (i: nat)
    requires Closest(movie, ps, getName) != []
    ensures i < |ps| && ps[i] == Closest(movie, ps, getName)[0] && IsBest(Sanitise(movie), ps, getName, ps[i])
    ensures forall k :: 0 <= k < i ==> !IsBest(Sanitise(movie), ps, getName, ps[k])
  {
    ClosestIsBestOf(movie, ps, getName);
    i := BestOfFirst(Sanitise(movie), ps, getName, ps);
  }

  /** Candidates whose sanitised names agree are returned together or not
      at all: ties are never broken here. */
  lemma ClosestKeepsTies<T>(movie: string, ps: seq<T>, getName: T -> string, x: T, y: T)
    requires x in ps && y in ps
    requires Sanitise(getName(x)) == Sanitise(getName(y))
    ensures x in Closest(movie, ps, getName) <==> y in Closest(movie, ps, getName)
  {
    ClosestMembers(movie, ps, getName);
  }

  /** `KeepOnly` works character by character. */
  lemma {:induction false} KeepOnlyConcat(a: string, b: string)
    ensures KeepOnly(a + b) == KeepOnly(a) + KeepOnly(b)
  {
    if |a| > 0 {
      assert (a + b)[1..] == a[1..] + b;
      KeepOnlyConcat(a[1..], b);
    } else {
      assert a + b == b;
    }
  }

  /** The sanitised names of the worked example below. */
  lemma ShrekQuery()
    ensures Sanitise("shrek") == "shrek"
  {
    assert Lower("shrek") == "shrek";
    KeepOnlyOfKept("shrek");
  }

  /** Sanitising drops a space between two parts of a name. */
  lemma KeepOnlySkipsSpace(a: string, b: string)
    ensures KeepOnly(a + " " + b) == KeepOnly(a) + KeepOnly(b)
  {
    KeepOnlyConcat(a + " ", b);
    KeepOnlyConcat(a, " ");
    assert KeepOnly(" ") == "";
  }

  lemma ShrekFirst()
    ensures Sanitise("Shrek (2001)") == "shrek" + "(2001)"
  {
    ShrekFirstLowered();
    KeepOnlySkipsSpace("shrek", "(2001)");
    KeepOnlyOfKept("shrek");
    KeepOnlyOfKept("(2001)");
  }

  lemma ShrekSecond()
    ensures Sanitise("Shrek 2 (2004)") == "shrek" + "2(2004)"
  {
    ShrekSecondLowered();
    KeepOnlySkipsSpace("shrek" + " " + "2", "(2004)");
    ShrekSecondTitle();
    KeepOnlyOfKept("(2004)");
  }

  lemma ShrekSecondTitle()
    ensures KeepOnly("shrek" + " " + "2") == "shrek" + "2"
  {
    KeepOnlySkipsSpace("shrek", "2");
    KeepOnlyOfKept("shrek");
    KeepOnlyOfKept("2");
  }

  lemma ShrekFirstLowered()
    ensures Lower("Shrek (2001)") == "shrek" + " " + "(2001)"
  {
    assert Lower("Shrek (2001)") == "shrek (2001)";
  }

  lemma ShrekSecondLowered()
    ensures Lower("Shrek 2 (2004)") == "shrek" + " " + "2" + " " + "(2004)"
  {
    assert Lower("Shrek 2 (2004)") == "shrek 2 (2004)";
  }

  /** The scores of the worked example below. */
  lemma ShrekScores()
    ensures Lcs("shrek", Sanitise("Shrek (2001)")) == 5
    ensures Levenshtein("shrek", Sanitise("Shrek (2001)")) == 6
    ensures Lcs("shrek", Sanitise("Shrek 2 (2004)")) == 5
    ensures Levenshtein("shrek", Sanitise("Shrek 2 (2004)")) >= 7
  {
    ShrekFirst();
    ShrekSecond();
    PrefixIsSubsequence("shrek", "(2001)");
    PrefixIsSubsequence("shrek", "2(2004)");
    LcsOfSubsequence("shrek", "shrek" + "(2001)");
    LcsOfSubsequence("shrek", "shrek" + "2(2004)");
    LevenshteinOfExtension("shrek", "(2001)");
    LevenshteinAtLeastLengthGap("shrek", "shrek" + "(2001)");
    LevenshteinAtLeastLengthGap("shrek", "shrek" + "2(2004)");
  }

  /** Of two candidates with the same LCS (at least 3), the one with the
      smaller edit distance is returned alone, in either input order. */
  lemma CloserOfTwoWins<T>(movie: string, a: T, b: T, getName: T -> string)
    requires LcsOf(Sanitise(movie), getName, a) == LcsOf(Sanitise(movie), getName, b) >= 3
    requires DistanceOf(Sanitise(movie), getName, a) < DistanceOf(Sanitise(movie), getName, b)
    ensures Closest(movie, [a, b], getName) == [a]
    ensures Closest(movie, [b, a], getName) == [a]
  {
    CloserFirstWins(movie, a, b, getName);
    CloserSecondWins(movie, a, b, getName);
  }

  /** The closer candidate listed first. */
  lemma CloserFirstWins<T>(movie: string, a: T, b: T, getName: T -> string)
    requires LcsOf(Sanitise(movie), getName, a) == LcsOf(Sanitise(movie), getName, b) >= 3
    requires DistanceOf(Sanitise(movie), getName, a) < DistanceOf(Sanitise(movie), getName, b)
    ensures Closest(movie, [a, b], getName) == [a]
  {
    var sq := Sanitise(movie);
    var m := LcsOf(sq, getName, a);
    var da := DistanceOf(sq, getName, a);
    var ps := [a, b];
    assert ps[..1] == [a];
    assert ps[..1][..0] == [];
    assert MaxLcs(sq, [a], getName) == m;
    assert MaxLcs(sq, ps, getName) == m;
    assert MinDistanceAt(sq, [a], getName, m) == Finite(da);
    assert MinDistanceAt(sq, ps, getName, m) == Finite(da);
    assert Matches(sq, [a], getName, m, Finite(da)) == [a];
    assert Matches(sq, ps, getName, m, Finite(da)) == [a];
  }

  /** The closer candidate listed second. */
  lemma CloserSecondWins<T>(movie: string, a: T, b: T, getName: T -> string)
    requires LcsOf(Sanitise(movie), getName, a) == LcsOf(Sanitise(movie), getName, b) >= 3
    requires DistanceOf(Sanitise(movie), getName, a) < DistanceOf(Sanitise(movie), getName, b)
    ensures Closest(movie, [b, a], getName) == [a]
  {
    var sq := Sanitise(movie);
    var m := LcsOf(sq, getName, a);
    var da := DistanceOf(sq, getName, a);
    var ps := [b, a];
    assert ps[..1] == [b];
    assert ps[..1][..0] == [];
    assert MaxLcs(sq, [b], getName) == m;
    assert MaxLcs(sq, ps, getName) == m;
    assert MinDistanceAt(sq, [b], getName, m) == Finite(DistanceOf(sq, getName, b));
    assert MinDistanceAt(sq, ps, getName, m) == Finite(da);
    assert Matches(sq, [b], getName, m, Finite(da)) == [];
    assert Matches(sq, ps, getName, m, Finite(da)) == [a];
  }

  /** The worked example: for "shrek", "Shrek (2001)" and "Shrek 2 (2004)"
      both have LCS 5, and the smaller edit distance (6 against 7) selects
      "Shrek (2001)" alone. */
  lemma ShrekExample()
    ensures Closest("shrek", ["Shrek (2001)", "Shrek 2 (2004)"], (s: string) => s) == ["Shrek (2001)"]
  {
    ShrekQuery();
    ShrekScores();
    CloserOfTwoWins("shrek", "Shrek (2001)", "Shrek 2 (2004)", (s: string) => s);
  }
}
