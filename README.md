# What-to-Watch, modelled in Dafny

What-to-Watch looks up a film by name on IMDb, Rotten Tomatoes and
Metacritic. For each site it does four things:

1. Reads the site's search results.
2. Picks the results whose names best match the query.
3. Breaks ties between equally good matches.
4. Reports the chosen film's name, link and scores.

This project models the decision logic of that process and proves its
properties. Page contents and network replies are inputs. Each search
result is given by the texts and attributes the scrapers read from it.

| file | models |
|---|---|
| `Wrappers.dfy` | `T \| undefined` as `Option`; a lookup's outcome as `Lookup`. The outcome is found, `undefined`, or a call to `bug()`. |
| `Sequences.dfy` | Order-preserving sub-sequences. These state that an output only drops elements of its input. |
| `Strings.dfy` | The JavaScript string built-ins the program relies on: `toLowerCase` (ASCII), the `\s` class, `trim`, `replace` with a string pattern, `parseInt`/`parseFloat` on decimal notation, and `String(n)` for integers. |
| `Search.dfy` | `closestSearchResult` and `sanitise` (`src/search.ts`). |
| `Util.dfy` | `getHighest`, `escapeDoubleQuotes`, `csvFriendly`, `printable` and `numberOr` (`src/util.ts`). |
| `Limiter.dfy` | `limitConcurrent` (`src/util.ts`), as a class. It holds the in-flight counter and the queue of waiting calls. |
| `Imdb.dfy` | `src/sources/imdb.ts` |
| `RottenTomatoes.dfy` | `src/sources/rottentomatoes.ts` |
| `Metacritic.dfy` | `src/sources/metacritic.ts` |

The matcher is a method with the source's loop. Its running LCS and
edit distance, and its in-place list of best matches, are kept as
variables. The method is proved equal to a specification function,
`Closest`. A separate theorem, `ClosestIsBestOf`, shows that this
function keeps exactly the candidates that are best under a pairwise
definition:

- their LCS with the query is at least 3;
- no candidate has a greater LCS;
- no candidate with the same LCS has a smaller edit distance.

The candidates are kept in input order. The IMDb best-score loop and
`getHighest` are also methods proved equal to specification functions.
Lemmas characterise those functions: the first strictly greatest score,
and the last maximal element.

Two consequences of the matcher are worth spelling out:

- The LCS floor is inclusive. `matchLcs` starts at 3, and a product whose
  LCS equals the running best is accepted. The comment at
  src/search.ts:15-16 says so: below 3 is insignificant, but a product
  with LCS 3 can still be output. `ClosestNonEmptyIff` states this floor.
- Edit distance often decides. For the query `shrek`, the sanitised names
  of `Shrek (2001)` and `Shrek 2 (2004)` both have LCS 5 with it. The edit
  distances, 6 against at least 7, select `Shrek (2001)` alone
  (`ShrekScores`, `ShrekExample`).

## Model

| member | source | states |
|---|---|---|
| Search.ClosestSearchResult | src/search.ts:4-58 | The list the loop builds is `Closest`: candidates with the maximal LCS (at least 3) and, among those, the least edit distance. They appear in input order, and an empty input gives `[]`. |
| Search.ClosestIsBestOf | src/search.ts:15-51 | The result is exactly the input filtered by the pairwise "best" definition, in order and with multiplicity. |
| Search.ClosestMembers | src/search.ts:20-50 | A candidate is returned iff it is in the input and is best. |
| Search.ClosestNonEmptyIff | src/search.ts:15-17 | The result is non-empty iff some candidate's LCS reaches 3, so the floor is inclusive. |
| Search.ClosestIsSubsequence | src/search.ts:20-50 | The result only drops candidates: nothing is invented, duplicated or reordered. |
| Search.ClosestKeepsTies | src/search.ts:36-49 | Two candidates with the same sanitised name are returned together or not at all. |
| Search.ClosestFirst | src/search.ts:44-48 | The first returned candidate is the first best candidate in input order. |
| Search.CloserOfTwoWins | src/search.ts:36-49 | When two candidates have equal LCS of at least 3, the one with the smaller edit distance is the only result, whichever of the two comes first. |
| Search.ShrekExample | src/search.ts:4-58 | For `shrek`, `Shrek (2001)` alone is returned, not `Shrek 2 (2004)`. |
| Search.ShrekScores | src/search.ts:23-37 | Both names have LCS 5 with `shrek`. Their edit distances are 6 and at least 7. |
| Search.SanitiseProperties | src/search.ts:60-63 | `sanitise` keeps only `[a-z0-9()]`. Its output is a sub-sequence of the lower-cased input, and applying it twice changes nothing. |
| Search.SanitiseCharwise | src/search.ts:60-63 | `sanitise` distributes over concatenation. A single character gives its lowercase form if that is in `[a-z0-9()]`, and nothing otherwise. |
| Search.LcsOfSubsequence | src/search.ts:23 | The LCS of a string with any string containing it in order is its whole length. |
| Search.LevenshteinAtLeastLengthGap | src/search.ts:28 | The edit distance is at least the difference in length. |
| Search.LevenshteinOfExtension | src/search.ts:37 | Appending `t` costs at most `\|t\|` edits. |
| Util.GetHighest | src/util.ts:36-51 | The loop returns `Highest`: `undefined` iff the array is empty, otherwise an element of it. |
| Util.HighestIsLastMaximum | src/util.ts:41-47 | For a comparator encoding a total preorder, the result is the last maximal element. Everything is at most it, and nothing after it is as great. |
| Util.HighestByDifference | src/util.test.ts:22-29 | With the subtraction comparator, the result is the largest number. |
| Util.HighestExamples | src/util.test.ts:26-28 | `[]` gives `undefined`, `[2]` gives 2, and `[3,1,2]` gives 3. |
| Util.EscapeDoubleQuotesLength | src/util.ts:31-34 | Each `"` is replaced, so the output grows by `\|replacement\|-1` per quote. |
| Util.EscapeDoubleQuotesWithoutQuotes | src/util.ts:31-34 | A string without `"` is returned unchanged. |
| Util.EscapeDoubleQuotesExamples | src/util.test.ts:15-20 | The four unit-test cases. |
| Util.DoubledQuotesRoundTrip | src/util.ts:26 | Doubling quotes yields paired quotes, and undoubling them gives the input back. |
| Util.CsvFriendlyShape | src/util.ts:18-29 | A field is unchanged iff it has no `,`, newline or `"`. Otherwise it is wrapped in quotes with its inner quotes paired. |
| Util.CsvFriendlyRoundTrip | src/util.ts:18-29 | A CSV reader (RFC 4180, section 2) recovers the original string. |
| Util.CsvFriendlyKeepsCarriageReturn | src/util.ts:20 | A lone `\r` does not cause quoting. |
| Util.PrintableProperties | src/util.ts:147-150 | The output is empty iff the value is `undefined` or `""`, and a printed number parses back. |
| Util.NumberOrProperties | src/util.ts:128-132 | The value is returned iff it is a number (or equals the fallback). The result is a number iff either argument is, and applying it twice changes nothing. |
| Limiter.Limiter.constructor | src/util.ts:75-80 | Nothing is in flight and nothing is queued. |
| Limiter.Limiter.Call | src/util.ts:100-123 | A call starts iff fewer than `num` are in flight, and only when no call is queued. Otherwise it is queued at the back. One more call is outstanding, and the invariant is kept. |
| Limiter.Limiter.Settle | src/util.ts:82-98 | Success or failure reaches that call's own caller. The slot is freed and the oldest queued call, if any, starts. One fewer call is outstanding, and the invariant is kept. |
| Imdb.GroupAtStartMatches | src/sources/imdb.ts:120 | A prefix matches `/\([ivxldcm]+\)/i` iff it is the group `GroupAtStart` reports. |
| Imdb.StripRomanSubsequence | src/sources/imdb.ts:130 | Removing groups only deletes characters. |
| Imdb.StripRomanWithoutGroups | src/sources/imdb.ts:130 | A name with no group is unchanged. |
| Imdb.StripRomanShortens | src/sources/imdb.ts:130 | A name with a group somewhere always loses characters. |
| Imdb.StripRomanKeepsPrefix | src/sources/imdb.ts:130 | A prefix without `(` holds no group and is kept as it is. |
| Imdb.StripRomanRemovesGroup | src/sources/imdb.ts:119-130 | A group with no `(` before it is removed and the rest is processed, e.g. `Dune (I) (2021)`. |
| Imdb.Collapse | src/sources/imdb.ts:121-131 | After collapsing, no two whitespace characters are adjacent, it starts with whitespace iff the input does, and it is no longer than the input. |
| Imdb.CollapseKeepsWords | src/sources/imdb.ts:131 | The non-whitespace characters are unchanged and in order. |
| Imdb.CollapseUnchanged | src/sources/imdb.ts:131 | A name with no two adjacent whitespace characters is unchanged. |
| Imdb.CollapseRun | src/sources/imdb.ts:120-131 | A run of two or more whitespace characters between non-whitespace becomes one space, and each side is collapsed on its own. |
| Imdb.CleanNameShape | src/sources/imdb.ts:124-136 | `getName` has no leading or trailing whitespace and no adjacent whitespace. |
| Imdb.CleanNameOfNumberedTitle | src/sources/imdb.ts:118-136 | For `title (I) (year)`, with no `(` in the title and no stray whitespace, `getName` is `title (year)`. |
| Imdb.DuneExample | src/sources/imdb.ts:118-136 | `Dune (I) (2021)` becomes `Dune (2021)`. |
| Imdb.GetYearOfSuffix | src/sources/imdb.ts:94-117 | `p (digits)`, with no line terminator in `p`, gives the value of the digits. |
| Imdb.GetYearFound | src/sources/imdb.ts:94-117 | Every name with a year other than -1 has that shape, and the year is its digits. |
| Imdb.NotReleasedExamples | src/sources/imdb.ts:85-117 | Names without a trailing ` (digits)` are not released. |
| Imdb.ScoreFromPageParses | src/sources/imdb.ts:166-182 | The score is "not found" iff the trimmed text does not parse; otherwise it is the parsed number. |
| Imdb.ScoreFromPageOfInt | src/sources/imdb.ts:173-181 | A printed whole number reads back as itself. |
| Imdb.AbsoluteUrl | src/sources/imdb.ts:184-186 | The IMDb origin followed by the link, which can be read back. |
| Imdb.Released | src/sources/imdb.ts:46 | Exactly the released results are kept. |
| Imdb.Scored | src/sources/imdb.ts:51-58 | Exactly the fetched results with a score, paired with it. |
| Imdb.BestEntryIsFirstMaximum | src/sources/imdb.ts:63-71 | The winner has the greatest score, and every earlier entry has a strictly smaller one. |
| Imdb.PickBest | src/sources/imdb.ts:63-73 | The loop returns the result of `BestEntry`. |
| Imdb.ScoreAndPick | src/sources/imdb.ts:51-73 | Fetching scores and picking the best gives `ChooseResult`. |
| Imdb.GetImdbData | src/sources/imdb.ts:17-48 | The whole lookup gives `ImdbLookup`. |
| Imdb.MatchesAreReleased | src/sources/imdb.ts:44-48 | Only released results of the page can be matched. |
| Imdb.ChooseDefectIff | src/sources/imdb.ts:138-151 | `bug()` is reached iff some match has no usable `href`. |
| Imdb.ChooseNoMatchIff | src/sources/imdb.ts:63-73 | `undefined` iff every match has a link and none has a score. |
| Imdb.ScoredEmptyIff | src/sources/imdb.ts:51-58 | The map is empty iff no fetched result has a score. |
| Imdb.ChooseFoundIsBest | src/sources/imdb.ts:60-73 | A found result is a match with a link and a score, and no match scores higher. |
| Imdb.ImdbLookupFound | src/sources/imdb.ts:17-73 | A report is about a released, closest match with the top score, its cleaned name and its absolute link. |
| RottenTomatoes.WithUserAgent | src/sources/rottentomatoes.ts:13-15 | `User-Agent` is the fixed Firefox string, and every other header is kept with its value. |
| RottenTomatoes.WithUserAgentIdempotent | src/sources/rottentomatoes.ts:13-15 | Applying the wrapper twice sends the same headers as once. |
| RottenTomatoes.PrepareInit | src/sources/rottentomatoes.ts:9-18 | `init` and `headers` are created when absent, the caller's headers object is updated in place, and its entries become `WithUserAgent`. |
| RottenTomatoes.NameOfParts | src/sources/rottentomatoes.ts:83-89 | The name is the trimmed title, then ` (`, then the year or `""`, then `)`. |
| RottenTomatoes.NameOfCarriesYear | src/sources/rottentomatoes.ts:83-89 | A digit year in the name is read back by the year pattern. |
| RottenTomatoes.ScoreFromAttributeOfDigits | src/sources/rottentomatoes.ts:91-96 | An attribute starting with a run of digits scores the value of that run, whatever follows the first non-digit. |
| RottenTomatoes.ScoreFromAttributeProperties | src/sources/rottentomatoes.ts:94-95 | A missing attribute is "not found", and a printed percentage reads back. |
| RottenTomatoes.CompareCriticsIsPreorder | src/sources/rottentomatoes.ts:52-65 | The comparator says `<= 0` iff `AtMostAsGood`, which is total and transitive. |
| RottenTomatoes.UnscoredIsReplaced | src/sources/rottentomatoes.ts:56-58 | A running best without a critic score is always replaced. |
| RottenTomatoes.TieBreakScored | src/sources/rottentomatoes.ts:52-65 | If any row has a critic score, the winner has the greatest one, and no later row reaches it. |
| RottenTomatoes.TieBreakUnscored | src/sources/rottentomatoes.ts:52-65 | If no row has a critic score, the last row wins. |
| RottenTomatoes.GetRottenTomatoesData | src/sources/rottentomatoes.ts:30-67 | The lookup gives `RtLookup`. The URL is `href ?? ""`, and the audience score is `parseInt(percentage ?? "")`. |
| RottenTomatoes.RtLookupProperties | src/sources/rottentomatoes.ts:44-47 | `undefined` iff no row's LCS reaches 3; otherwise the report is about a best row. |
| Metacritic.ParseScore | src/sources/metacritic.ts:53-63 | "tbd" iff the text is `tbd`. A score iff the text is not `tbd` and parses, and then it is that number. |
| Metacritic.ParseScoreWords | src/sources/metacritic.ts:54-60 | `""` is "not found". `tbd` is kept although `parseFloat` rejects it. |
| Metacritic.ParseScoreOfInt | src/sources/metacritic.ts:58-62 | A printed whole number reads back. |
| Metacritic.GetScoresIndependent | src/sources/metacritic.ts:65-68 | Each score depends only on its own element's text. |
| Metacritic.YearOfMovieLine | src/sources/metacritic.ts:106-109 | `Movie, <year>` gives the year. |
| Metacritic.AbsoluteUrl | src/sources/metacritic.ts:118-120 | The Metacritic origin followed by the link, which can be read back. |
| Metacritic.MetacriticNoMatchIff | src/sources/metacritic.ts:88-94 | `undefined` iff no result's LCS reaches 3. |
| Metacritic.NoMatchOnlyWithoutMatches | src/sources/metacritic.ts:17-18 | `undefined` comes only from an empty match list. |
| Metacritic.MetacriticTakesFirst | src/sources/metacritic.ts:88-109 | The first best result in page order is taken. It gives `bug()` iff its `href` is falsy or its year does not parse; otherwise it gives `name (year)`, its absolute link and its page's scores. |
| Metacritic.ReportedYearReadsBack | src/sources/metacritic.ts:20 | The year in the reported name parses back to the year. |
| Strings.LowerProperties | src/search.ts:62 | After lower-casing, no ASCII capital is left. Lower-casing again changes nothing, and the conversion distributes over concatenation. |
| Strings.TrimShape | src/sources/imdb.ts:132 | `trim` returns a slice with no whitespace at either end, and everything cut off is whitespace. |
| Strings.ReplaceFirstOccurrence | src/sources/metacritic.ts:106 | `replace` with a string pattern replaces only the first occurrence. |
| Strings.ReplaceFirstAbsent | src/sources/metacritic.ts:106 | Without an occurrence, nothing changes. |
| Strings.ParseIntOfParts | src/sources/rottentomatoes.ts:94-95 | Leading whitespace, an optional `+` or `-`, a run of digits, then anything not starting with a digit: `parseInt` gives the signed value of the digits. |
| Strings.ParseIntOfDigitRun | src/sources/rottentomatoes.ts:94-95 | A run of digits followed by a non-digit, as in `85%`, parses to the value of the run. |
| Strings.ParseIntOfIntToString | src/sources/rottentomatoes.ts:94 | `parseInt` reads back what `String` writes. |

## Left out

- Network, HTML and URL encoding are left out. `node-fetch` requests, cheerio DOM queries and `querystring.escape` are I/O or foreign libraries. The texts and attributes they yield are inputs of the model.
- Numbers are JavaScript doubles in the source. Here integers are unbounded and parsed scores are exact reals. Rounding of very long digit strings is not modelled. The LCS and edit distance are whole numbers in the source as well, except the starting distance `Infinity`, which is the `Infinity` case of `Distance`.
- `parseInt` and `parseFloat` are modelled on decimal notation only. Hexadecimal `0x`, exponents and `Infinity` are not accepted.
- Util.PrintableProperties: `Number#toString` is modelled on integers only. A rating such as 7.8, which src/output.ts:127 writes through `printable`, is outside the model, and so is its round trip.
- Util.EscapeDoubleQuotesLength: JavaScript's `replace` gives `$$`, `$&`, `` $` `` and `$'` special meaning in the replacement string. The model copies the replacement literally. That agrees with every call in the source and its tests, which all pass `'""'`.
- `toLowerCase` lower-cases ASCII letters only. Unicode case mapping is not modelled.
- The LCS and edit-distance libraries are replaced by their textbook recursive definitions.
- `buildMapFromAsyncOptional` is not modelled. Its insertion order depends on when promises complete, so that order is an input (`completion`). The lemmas assume it lists each match once.
- The memo fields of the `SearchResult` classes are caching. Each getter is a function of its inputs.
- Limiter.Limiter.Call: calls and settlements are abstract events. Several things are not modelled:
  - the promise values passed through;
  - microtask timing;
  - liveness;
  - the unhandled rejection of `prom.finally`;
  - the slot that a synchronous throw from `func` never frees;
  - a non-integer `num`.
- The second `bug()` checks on the absolute URL (src/sources/imdb.ts:147, src/sources/metacritic.ts:104) are not modelled. They can never fire, because the URL always starts with the origin.
- Header names of `node-fetch` are case-insensitive. The model treats `User-Agent` as an exact key.
- The audience score is the `percentage` attribute of the row's film page, given as an input. Whether `fetch` accepts an empty or relative URL is not modelled.
- `average`, `once`, `bug`'s message, src/output.ts, src/main.ts and src/args.ts are outside the modelled core.
- The stale files src/imdb.ts, src/metacritic.ts and src/rottentomatoes.ts are superseded by src/sources/ and are not modelled.
