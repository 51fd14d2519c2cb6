/** The Rotten Tomatoes scraper of `src/sources/rottentomatoes.ts`: the
    request headers its fetch wrapper sends, how a search-result row is named
    and scored, how one film is chosen among equally well-matching rows, and
    what is reported for it. Each row is given by its attributes and the
    attribute of the audience score on the page its link leads to. */
module RottenTomatoes {
  import opened Wrappers
  import opened Strings
  import opened Search
  import opened Util
  import Imdb
  import Sequences

  // ---------------------------------------------------------------------
  // The fetch wrapper
  // ---------------------------------------------------------------------

  const UserAgent := "Mozilla/5.0 (X11; Ubuntu; Linux x86_64; rv:103.0) Gecko/20100101 Firefox/103.0"

  /** A plain headers object, `{ [key: string]: string }`. */
  class Headers {
    var entries: map<string, string>

    constructor (entries: map<string, string>)
      ensures this.entries == entries
    {
      this.entries := entries;
    }
  }

  /** The `init` argument of `fetch`; only its `headers` matter here. */
  class RequestInit {
    var headers: Headers?

    constructor (headers: Headers?)
      ensures this.headers == headers
    {
      this.headers := headers;
    }
  }

  /** The headers that are sent given the caller's headers (`None` when the
      caller passed none): the same entries with `User-Agent` set. */
  function WithUserAgent(headers: Option<map<string, string>>): (sent: map<string, string>)
    ensures "User-Agent" in sent && sent["User-Agent"] == UserAgent
    ensures forall k :: k in sent && k != "User-Agent" <==> headers.Some? && k in headers.value && k != "User-Agent"
    ensures forall k :: k in sent && k != "User-Agent" ==> sent[k] == headers.value[k]
  {
    headers.GetOr(map[])["User-Agent" := UserAgent]
  }

  /** Sending through the wrapper twice sends the same headers as once. */
  lemma WithUserAgentIdempotent(headers: Option<map<string, string>>)
    ensures WithUserAgent(Some(WithUserAgent(headers))) == WithUserAgent(headers)
  {
  }

  /** Lines 13-15 of the wrapper: `init` and `init.headers` are created
      when absent, and the caller's own headers object, when there is one,
      gets `User-Agent` written into it; `init` is what goes to `fetch`. */
  method PrepareInit(init: RequestInit?) returns (sent: RequestInit)
    modifies init
    modifies if init != null && init.headers != null then {init.headers} else {}
    ensures init != null ==> sent == init
    ensures init == null ==> fresh(sent)
    ensures sent.headers != null
    ensures old(init != null && init.headers != null) ==> sent.headers == old(init.headers)
    ensures old(init == null || init.headers == null) ==> fresh(sent.headers)
    ensures sent.headers.entries ==
              WithUserAgent(if old(init != null && init.headers != null) then Some(old(init.headers.entries)) else None)
  {
    if init == null {
      // init = init ?? {}
      sent := new RequestInit(null);
    } else {
      sent := init;
    }
    if sent.headers == null {
      // init.headers = init.headers ?? {}
      var created := new Headers(map[]);
      sent.headers := created;
    }
    // init.headers["User-Agent"] = userAgent
    sent.headers.entries := sent.headers.entries["User-Agent" := UserAgent];
  }

  // ---------------------------------------------------------------------
  // Search results
  // ---------------------------------------------------------------------

  /** One row of the search page: the text of its title link, its
      `releaseyear` and `tomatometerscore` attributes, the `href` of its
      title link, and the `percentage` attribute of the audience score on
      the film's page. An absent attribute is `None`. */
  datatype Candidate = Candidate(
    title: string,
    releaseYear: Option<string>,
    tomatometerScore: Option<string>,
    href: Option<string>,
    audiencePercentage: Option<string>)

  /** A Rotten Tomatoes score: a percentage or `"not found"`. */
  datatype RtScore = Percent(value: int) | NotFound

  /** `getName`: the trimmed title, then the release year in parentheses. */
  function NameOf(c: Candidate): string {
    Trim(c.title) + " (" + c.releaseYear.GetOr("") + ")"
  }

  /** The name is the trimmed title and the year, which can both be read
      back: the title runs up to the last ` (`, and the year fills the
      parentheses at the end. */
  lemma NameOfParts(c: Candidate)
    ensures var n := NameOf(c);
            var t := Trim(c.title);
            var y := c.releaseYear.GetOr("");
            n[..|t|] == t && n[|t|..|t| + 2] == " (" && n[|t| + 2..|n| - 1] == y && n[|n| - 1] == ')'
  {
    var n := NameOf(c);
    var t := Trim(c.title);
    Sequences.FourParts(t, " (", c.releaseYear.GetOr(""), ")");
    assert n[|n| - 1..] == ")";
  }

  /** A row with a year of digits, and no line terminator in its title, has
      a name from which the IMDb year pattern reads that year back. */
  lemma NameOfCarriesYear(c: Candidate)
    requires Imdb.NoLineTerminator(Trim(c.title))
    requires c.releaseYear.Some? && |c.releaseYear.value| > 0 && AllDigits(c.releaseYear.value)
    ensures Imdb.GetYear(NameOf(c)) == DigitsValue(c.releaseYear.value)
  {
    Imdb.GetYearOfSuffix(Trim(c.title), c.releaseYear.value);
  }

  /** `parseInt(attribute ?? "")`, with `NaN` as `"not found"`. */
  function ScoreFromAttribute(attr: Option<string>): (r: RtScore)
    ensures r.NotFound? <==> ParseInt(attr.GetOr("")).None?
  {
    match ParseInt(attr.GetOr(""))
    case None => NotFound
    case Some(n) => Percent(n)
  }

  /** A missing attribute gives `"not found"`, and a printed percentage
      reads back as itself. */
  lemma ScoreFromAttributeProperties(n: int)
    ensures ScoreFromAttribute(None) == NotFound
    ensures ScoreFromAttribute(Some(IntToString(n))) == Percent(n)
  {
    assert LeadingDigits("") == 0;
    ParseIntOfIntToString(n);
  }

  /** An attribute that starts with a run of digits scores the value of
      that run, whatever follows a non-digit (as in `"85%"`). */
  lemma ScoreFromAttributeOfDigits(d: string, rest: string)
    requires |d| > 0 && AllDigits(d)
    requires rest == [] || !IsDigit(rest[0])
    ensures ScoreFromAttribute(Some(d + rest)) == Percent(DigitsValue(d) as int)
  {
    ParseIntOfDigitRun(d, rest);
  }

  /** `getCriticScore`. */
  function CriticScore(c: Candidate): RtScore {
    ScoreFromAttribute(c.tomatometerScore)
  }

  // ---------------------------------------------------------------------
  // Choosing among the closest matches
  // ---------------------------------------------------------------------

  /** The comparator passed to `getHighest`: a row without a critic score
      is never preferred to the next one, a row with one is preferred to a
      row without, and two scores are compared by difference. */
  function CompareCritics(result1: Candidate, result2: Candidate): int {
    var criticScore1 := CriticScore(result1);
    var criticScore2 := CriticScore(result2);
    if !criticScore1.Percent? then -1
    else if !criticScore2.Percent? then 1
    else criticScore1.value - criticScore2.value
  }

  /** The preorder the comparator encodes: rows without a critic score are
      at the bottom, rows with one are ordered by it. */
  predicate AtMostAsGood(a: Candidate, b: Candidate) {
    !CriticScore(a).Percent? || (CriticScore(b).Percent? && CriticScore(a).value <= CriticScore(b).value)
  }

  /** The comparator reports `<= 0` exactly when `AtMostAsGood` holds, and
      that relation is total and transitive. */
  lemma CompareCriticsIsPreorder()
    ensures forall x, y :: CompareCritics(x, y) <= 0 <==> AtMostAsGood(x, y)
    ensures forall x, y :: AtMostAsGood(x, y) || AtMostAsGood(y, x)
    ensures forall x, y, z :: AtMostAsGood(x, y) && AtMostAsGood(y, z) ==> AtMostAsGood(x, z)
  {
  }

  /** A running best without a critic score is always replaced. */
  lemma UnscoredIsReplaced(best: Candidate, next: Candidate)
    requires CriticScore(best).NotFound?
    ensures CompareCritics(best, next) <= 0
  {
  }

  /** The tie-break of lines 52-65 with `getHighest`, when some row has a
      critic score: the winner has the greatest critic score, and no later
      row has as great a one (the last row with that score wins). */
  lemma TieBreakScored(rows: seq<Candidate>, scored: nat) returns (j: nat)
    requires scored < |rows| && CriticScore(rows[scored]).Percent?
    ensures j < |rows| && Highest(rows, CompareCritics) == Some(rows[j])
    ensures CriticScore(rows[j]).Percent?
    ensures forall k :: 0 <= k < |rows| && CriticScore(rows[k]).Percent? ==>
                          CriticScore(rows[k]).value <= CriticScore(rows[j]).value
    ensures forall k :: j < k < |rows| && CriticScore(rows[k]).Percent? ==>
                          CriticScore(rows[k]).value < CriticScore(rows[j]).value
  {
    CompareCriticsIsPreorder();
    j := HighestIsLastMaximum(rows, CompareCritics, AtMostAsGood);
    assert AtMostAsGood(rows[scored], rows[j]);
  }

  /** When no row has a critic score, the last row wins. */
  lemma TieBreakUnscored(rows: seq<Candidate>)
    requires |rows| > 0
    requires forall k :: 0 <= k < |rows| ==> CriticScore(rows[k]).NotFound?
    ensures Highest(rows, CompareCritics) == Some(rows[|rows| - 1])
  {
    CompareCriticsIsPreorder();
    var j := HighestIsLastMaximum(rows, CompareCritics, AtMostAsGood);
    assert AtMostAsGood(rows[j], rows[|rows| - 1]);
  }

  // ---------------------------------------------------------------------
  // getRottenTomatoesData
  // ---------------------------------------------------------------------

  /** What `getRottenTomatoesData` returns. */
  datatype RottenTomatoesResult = RottenTomatoesResult(
    name: string, url: string, criticScore: RtScore, audienceScore: RtScore)

  /** `toRottenTomatoesResult`: a missing `href` gives the empty URL. */
  function ToResult(c: Candidate): RottenTomatoesResult {
    RottenTomatoesResult(NameOf(c), c.href.GetOr(""), CriticScore(c), ScoreFromAttribute(c.audiencePercentage))
  }

  /** The outcome of `getRottenTomatoesData(movie)` when the search page
      lists the rows `candidates`: `undefined` without a match, otherwise
      the tie-break winner among the closest matches. */
  function RtLookup(movie: string, candidates: seq<Candidate>): Option<RottenTomatoesResult> {
    var targetResults := Closest(movie, candidates, NameOf);
    if |targetResults| == 0 then None
    else Some(ToResult(Highest(targetResults, CompareCritics).value))
  }

  /** `getRottenTomatoesData`. */
  method GetRottenTomatoesData(movie: string, candidates: seq<Candidate>) returns (r: Option<RottenTomatoesResult>)
    ensures r == RtLookup(movie, candidates)
  {
    var targetResults := ClosestSearchResult(movie, candidates, NameOf);
    if |targetResults| == 0 {
      return None;
    }
    var bestResult := GetHighest(targetResults, CompareCritics);
    r := Some(ToResult(bestResult.value));
  }

  /** Nothing is reported exactly when no row's name shares 3 characters in
      order with the query; otherwise the report is about a closest match. */
  lemma RtLookupProperties(movie: string, candidates: seq<Candidate>)
    ensures RtLookup(movie, candidates).None? <==>
              forall k :: 0 <= k < |candidates| ==> LcsOf(Sanitise(movie), NameOf, candidates[k]) < 3
    ensures RtLookup(movie, candidates).Some? ==>
              exists c :: c in candidates && IsBest(Sanitise(movie), candidates, NameOf, c) &&
                          RtLookup(movie, candidates) == Some(ToResult(c))
  {
    ClosestNonEmptyIff(movie, candidates, NameOf);
    ClosestMembers(movie, candidates, NameOf);
    var targetResults := Closest(movie, candidates, NameOf);
    if |targetResults| > 0 {
      var w := Highest(targetResults, CompareCritics).value;
      assert w in targetResults;
    }
  }
}
