/** The Metacritic scraper of `src/sources/metacritic.ts`: how the two
    scores on a film's page are classified, which search result is taken,
    and how the reported name and URL are put together. Each search result
    is given by its texts and link, and the film's page by the texts of its
    two score elements. */
module Metacritic {
  import opened Wrappers
  import opened Strings
  import opened Search

  // ---------------------------------------------------------------------
  // getScores
  // ---------------------------------------------------------------------

  /** A Metacritic score: a number, `"tbd"`, or `"not found"`. */
  datatype MetacriticScore = Score(value: real) | Tbd | NotFound

  /** `parseScore`: empty is `"not found"`, `"tbd"` is kept, and anything
      else is `parseFloat`ed, with `NaN` as `"not found"`. */
  function ParseScore(str: string): (r: MetacriticScore)
    ensures r.Tbd? <==> str == "tbd"
    ensures r.Score? <==> str != "tbd" && ParseFloat(str).Some?
    ensures r.Score? ==> ParseFloat(str) == Some(r.value)
  {
    if str == "" then NotFound
    else if str == "tbd" then Tbd
    else
      match ParseFloat(str)
      case None => NotFound
      case Some(f) => Score(f)
  }

  /** `"not found"` comes from the empty string, and `"tbd"` is
      recognised although `parseFloat` rejects it. */
  lemma ParseScoreWords()
    ensures ParseScore("") == NotFound
    ensures ParseScore("tbd") == Tbd && ParseFloat("tbd").None?
  {
    assert LeadingDigits("") == 0;
    var t := "tbd";
    assert !IsWhitespace(t[0]) && !IsDigit(t[0]) && t[0] != '-' && t[0] != '+' && t[0] != '.';
    assert TrimStart(t) == t;
    assert Sign(t) == (false, t);
    assert LeadingDigits(t) == 0;
  }

  /** A printed whole number reads back as itself. */
  lemma ParseScoreOfInt(n: int)
    ensures ParseScore(IntToString(n)) == Score(n as real)
  {
    ParseFloatOfIntToString(n);
    IntToStringParts(n);
    assert IntToString(n) != "tbd" by {
      var d := NatToString(if n < 0 then -n else n);
      assert IsDigit(d[0]);
    }
  }

  /** The trimmed texts of the two score elements on a film's page. */
  datatype ScorePage = ScorePage(metascoreStr: string, userscoreStr: string)

  datatype BothScores = BothScores(metascore: MetacriticScore, userscore: MetacriticScore)

  /** `getScores`. */
  function GetScores(page: ScorePage): BothScores {
    BothScores(ParseScore(page.metascoreStr), ParseScore(page.userscoreStr))
  }

  /** Each score is read from its own element only: changing one element's
      text leaves the other score as it was. */
  lemma GetScoresIndependent(page: ScorePage, other: string)
    ensures GetScores(page.(userscoreStr := other)).metascore == GetScores(page).metascore
    ensures GetScores(page.(metascoreStr := other)).userscore == GetScores(page).userscore
    ensures GetScores(page).metascore == ParseScore(page.metascoreStr)
    ensures GetScores(page).userscore == ParseScore(page.userscoreStr)
  {
  }

  // ---------------------------------------------------------------------
  // search and getMetacriticData
  // ---------------------------------------------------------------------

  /** One search result: the whole text of its `.main_stats` block, the
      text and `href` of its title link (`None` when the attribute is
      absent), the text of its `<p>` line, and the film's page. */
  datatype Candidate = Candidate(
    statsText: string, linkText: string, href: Option<string>, detailsText: string, page: ScorePage)

  /** The name the matcher compares: `product.text().trim()`. */
  function MatchName(c: Candidate): string {
    Trim(c.statsText)
  }

  /** The year in the `<p>` line: `parseInt` of the text with its first
      `"Movie, "` removed and then trimmed. */
  function YearOf(c: Candidate): Option<int> {
    ParseInt(Trim(ReplaceFirst(c.detailsText, "Movie, ", "")))
  }

  /** A line `Movie, <year>` gives that year. */
  lemma YearOfMovieLine(c: Candidate, year: int)
    requires c.detailsText == "Movie, " + IntToString(year)
    ensures YearOf(c) == Some(year)
  {
    ReplaceFirstAtStart("Movie, ", IntToString(year), "");
    assert "" + IntToString(year) == IntToString(year);
    TrimIntToString(year);
    ParseIntOfIntToString(year);
  }

  const MetacriticOrigin := "https://www.metacritic.com"

  /** `absoluteUrl`: the site's origin followed by the relative link, which
      can be read back off the end. */
  function AbsoluteUrl(relativeUrl: string): (url: string)
    ensures |url| == |MetacriticOrigin| + |relativeUrl|
    ensures url[..|MetacriticOrigin|] == MetacriticOrigin && url[|MetacriticOrigin|..] == relativeUrl
  {
    MetacriticOrigin + relativeUrl
  }

  /** What `search` returns. */
  datatype TargetMovie = TargetMovie(name: string, reviewUrl: string, year: int)

  /** `search`, given the results on the search page: the first of the
      closest matches; `bug()` when its link has no `href` or its year does
      not parse. */
  function SearchTarget(movie: string, candidates: seq<Candidate>): Lookup<TargetMovie> {
    var bestResults := Closest(movie, candidates, MatchName);
    if |bestResults| == 0 then NoMatch
    else
      var bestResult := bestResults[0];
      if bestResult.href.None? || bestResult.href.value == "" then Defect
      else
        match YearOf(bestResult)
        case None => Defect
        case Some(year) =>
          Found(TargetMovie(Trim(bestResult.linkText), AbsoluteUrl(bestResult.href.value), year))
  }

  /** What `getMetacriticData` returns. */
  datatype MetacriticResult = MetacriticResult(
    name: string, url: string, metascore: MetacriticScore, userscore: MetacriticScore)

  /** `getMetacriticData`: the name `${name} (${year})`, the review URL, and
      the two scores on that page. `page` is the page `reviewUrl` leads to,
      which is that of the result `search` took. */
  function MetacriticLookup(movie: string, candidates: seq<Candidate>): Lookup<MetacriticResult> {
    match SearchTarget(movie, candidates)
    case NoMatch => NoMatch
    case Defect => Defect
    case Found(target) =>
      var scores := GetScores(Closest(movie, candidates, MatchName)[0].page);
      Found(MetacriticResult(
        target.name + " (" + IntToString(target.year) + ")", target.reviewUrl,
        scores.metascore, scores.userscore))
  }

  /** Nothing is reported exactly when no result shares 3 characters in
      order with the query. */
  lemma MetacriticNoMatchIff(movie: string, candidates: seq<Candidate>)
    ensures MetacriticLookup(movie, candidates).NoMatch? <==>
              forall k :: 0 <= k < |candidates| ==> LcsOf(Sanitise(movie), MatchName, candidates[k]) < 3
  {
    NoMatchOnlyWithoutMatches(movie, candidates);
    ClosestNonEmptyIff(movie, candidates, MatchName);
  }

  /** `undefined` comes only from an empty list of matches. */
  lemma NoMatchOnlyWithoutMatches(movie: string, candidates: seq<Candidate>)
    ensures MetacriticLookup(movie, candidates).NoMatch? <==> Closest(movie, candidates, MatchName) == []
  {
  }

  /** The result taken is the FIRST best match in page order: ties are not
      broken by score. Its link and year decide between a report and a
      defect, and a report carries its name, year, link and scores. */
  lemma MetacriticTakesFirst(movie: string, candidates: seq<Candidate>) returns (i: nat)
    requires !MetacriticLookup(movie, candidates).NoMatch?
    ensures i < |candidates| && IsBest(Sanitise(movie), candidates, MatchName, candidates[i])
    ensures forall k :: 0 <= k < i ==> !IsBest(Sanitise(movie), candidates, MatchName, candidates[k])
    ensures var c := candidates[i];
            MetacriticLookup(movie, candidates).Defect? <==>
              c.href.None? || c.href.value == "" || YearOf(c).None?
    ensures var c := candidates[i];
            MetacriticLookup(movie, candidates).Found? ==>
              MetacriticLookup(movie, candidates).value ==
                MetacriticResult(Trim(c.linkText) + " (" + IntToString(YearOf(c).value) + ")",
                                 MetacriticOrigin + c.href.value,
                                 ParseScore(c.page.metascoreStr), ParseScore(c.page.userscoreStr))
  {
    i := ClosestFirst(movie, candidates, MatchName);
  }

  /** The year in a reported name reads back as the year of the result. */
  lemma ReportedYearReadsBack(name: string, year: int)
    ensures var n := name + " (" + IntToString(year) + ")";
            n[|name| + 2..|n| - 1] == IntToString(year) && ParseInt(n[|name| + 2..|n| - 1]) == Some(year)
  {
    ParseIntOfIntToString(year);
  }
}
