# quanthub calculators, news tagging and sitemaps in Dafny

This project models the deterministic core of the quanthub site (a Next.js/TypeScript
application) and proves properties of it:

- **Dividend (DRIP) calculator** (`DividendCalculator`). This is the yearly loop of `calculate`:
  - Each year adds twelve monthly contributions to the principal.
  - It pays `dividendRate`% of that funded principal as the year's dividend, and reinvests the dividend when DRIP is on.
  - It records a row, then grows the principal by `dividendGrowth`%.
  - The module also covers the pie-chart breakdown and the yield-on-cost figure.
  - The loop is a method proved equal to a recursive ledger function (`Run`); the properties are lemmas about that function.
- **Compound-interest calculator** (`CompoundCalculator`). It keeps one snapshot per year, `0..years`, with twelve monthly steps between two snapshots. Each step adds the contribution and then multiplies by `1 + r/12`.
  - The nested loops are two methods proved against `AfterMonths`/`Snapshots`.
  - The module also proves the closed form of an annuity due.
- **Tax estimate** (`TaxCalculator`): the three-rule table and the profit left after tax.
- **News cron route** (`NewsRoute`):
  - keyword sentiment (`analyzeSentiment`);
  - ticker tagging with the regular expression `\bSYM\b|\$SYM` and the `i` flag (`extractTickers`);
  - the processing loop, which normalises at most ten feed items, skips untitled ones and truncates the summary.
- **Daily cron route** (`DailyRoute`):
  - its own copies of the two helpers, proved to behave exactly like the news route's;
  - its own loop, which does not normalise the description;
  - a lemma stating when both routes store the same records.
- **Sitemap index route** (`SitemapIndex`): `xmlEscape`, `getBaseUrl`, and the body of a sitemap index file (the sitemaps.org Sitemap protocol 0.9) listing twenty child sitemaps.
  - Escaping is checked against the character-data rules of section 2.4 of XML 1.0: no `<` or `>`, and every `&` starts an entity.
  - Escaping is proved to round-trip through an unescaping function.
- **Chunked sitemaps** (`SitemapChunks`):
  - `generateSitemaps`, i.e. the ceiling of the row count over 2000;
  - the inclusive row range each child reads;
  - the entry list of a child: the seven static pages in chunk 0, then four pages per symbol.

`Wrappers` (an `Option` type) and `Text` (JavaScript truthiness, ASCII lower-casing, substring search, word characters) are shared helpers.

Money and rates are exact `real`s, so the projections are exact recurrences. `Math.round` is `floor(x + 0.5)`.

Behaviours of the code the model keeps:

- A dividend row records the principal **before** that year's growth step (`YearRecordsPreGrowthRow`).
- The yield-on-cost division is unguarded: with nothing paid in, it gives `NaN` or `Infinity` (`YieldOnCost`, `JsQuotient`).
- A negative `years` is not rejected. Neither loop runs: the compound calculator returns no snapshot, and the dividend calculator returns its inputs untouched.
- The index route always lists 20 children, while `generateSitemaps` computes `ceil(total / 2000)` ids; the two are not connected in the code.

## Model

| member | source | states |
|---|---|---|
| DividendCalculator.YearStep | components/calculators/DividendCalculator.tsx:33-65 | definition (no contract of its own): one loop iteration, i.e. the dividend on the funded principal, the new row and the grown principal; `YearRecordsPreGrowthRow` states what it records |
| DividendCalculator.Run | components/calculators/DividendCalculator.tsx:32-66 | after `n` iterations the loop has recorded exactly `n` rows |
| DividendCalculator.Project | components/calculators/DividendCalculator.tsx:68-74 | `max(years, 0)` rows numbered 1..years; `totalDividends` is the sum of the rows' dividends; the annual income is the last row's dividend (0 with no row); the monthly income is a twelfth of it; the final balance is the last row's principal grown once, or the initial investment when no year runs |
| DividendCalculator.Calculate | components/calculators/DividendCalculator.tsx:23-75 | the mutating loop returns exactly `Project(p)` |
| DividendCalculator.RunShape | components/calculators/DividendCalculator.tsx:32-58 | row `i` carries year `i + 1` |
| DividendCalculator.RunKeepsRows | components/calculators/DividendCalculator.tsx:54-58 | later years never rewrite earlier rows: the first `k` rows after `n` years are the rows after `k` years |
| DividendCalculator.RowOfLongerRun | components/calculators/DividendCalculator.tsx:54-58 | row `i` of any longer run is the row year `i + 1` recorded |
| DividendCalculator.RunTotals | components/calculators/DividendCalculator.tsx:51-58 | the running total equals the sum of the recorded dividends |
| DividendCalculator.LastYear | components/calculators/DividendCalculator.tsx:52-65 | the last dividend is the last row's (0 before any year); the closing principal is the last row's principal times `1 + growth/100` |
| DividendCalculator.YearRecordsPreGrowthRow | components/calculators/DividendCalculator.tsx:33-65 | year `m` pays `(previous principal + 12·monthly)·rate/100`; its row principal is that funded amount plus the dividend under DRIP, taken before the growth step; the closing principal is the row principal grown |
| DividendCalculator.NoYears | components/calculators/DividendCalculator.tsx:24-73 | with `years <= 0`: final balance = initial investment, no dividends, no rows |
| DividendCalculator.NoDripNoGrowthBalance | components/calculators/DividendCalculator.tsx:36-65 | without DRIP and growth the principal after `n` years is `initial + 12·monthly·n` |
| DividendCalculator.NextPrincipalMonotone | components/calculators/DividendCalculator.tsx:36-65 | one year maps a larger non-negative principal with DRIP to at least the result for a smaller one without DRIP, and stays non-negative |
| DividendCalculator.PrincipalNonNegative | components/calculators/DividendCalculator.tsx:36-65 | non-negative inputs and growth above -100% keep the principal non-negative |
| DividendCalculator.BalanceNonNegative | components/calculators/DividendCalculator.tsx:36-65 | the loop's principal stays non-negative under those inputs |
| DividendCalculator.PrincipalDominates | components/calculators/DividendCalculator.tsx:47-65 | year by year, the DRIP principal is at least the non-DRIP principal, which is non-negative |
| DividendCalculator.DripDominates | components/calculators/DividendCalculator.tsx:47-65 | the loop's DRIP principal is at least its non-DRIP principal after any number of years |
| DividendCalculator.DripDominatesFinalBalance | components/calculators/DividendCalculator.tsx:47-69 | the reported final balance with DRIP is at least the one without |
| DividendCalculator.ChartData | components/calculators/DividendCalculator.tsx:77-80 | the first slice is what was paid in; the two slices sum to the final balance; the gain slice is 0 before any result |
| DividendCalculator.NoDripNoGrowthGainsNothing | components/calculators/DividendCalculator.tsx:77-80 | without DRIP and growth the gain slice is exactly 0 |
| DividendCalculator.JsDivide | components/calculators/DividendCalculator.tsx:191 | JavaScript division: a finite quotient for a non-zero divisor, otherwise NaN for 0/0 and a signed infinity for x/0 |
| DividendCalculator.YieldOnCost | components/calculators/DividendCalculator.tsx:191 | 0 before a result; otherwise `yield · invested == annual income · 100`, and a non-finite value when nothing was paid in |
| DividendCalculator.FlatIncome | components/calculators/DividendCalculator.tsx:33-71 | without DRIP and growth the last year's income is the dividend rate applied to everything paid in |
| DividendCalculator.FlatYieldOnCost | components/calculators/DividendCalculator.tsx:191 | without DRIP and growth the yield on cost equals the dividend rate |
| DividendCalculator.OneYearDripExample | components/calculators/DividendCalculator.tsx:32-73 | 10,000 at 5% for one year with DRIP: 500 of dividends, balance 10,500, one row |
| CompoundCalculator.MonthStep | components/calculators/CompoundCalculator.tsx:51-52 | definition (no contract of its own): one month adds the contribution, then multiplies by `1 + r/12`; `MonthStepOfLoop` ties it to the loop |
| CompoundCalculator.AfterMonths | components/calculators/CompoundCalculator.tsx:50-53 | definition (no contract of its own): `n` monthly steps from a balance; its properties are `MonthsCompose`, `ZeroRateIsSummation` and `AnnuityDueClosedForm` |
| CompoundCalculator.Round | components/calculators/CompoundCalculator.tsx:44 | `Math.round` lies within half a unit of its argument, halves going up |
| CompoundCalculator.Snapshots | components/calculators/CompoundCalculator.tsx:41-47 | the first `n` snapshots are `n` entries |
| CompoundCalculator.SnapshotsAt | components/calculators/CompoundCalculator.tsx:41-47 | snapshot `i` is year `i`'s rounded balance and invested amount |
| CompoundCalculator.Project | components/calculators/CompoundCalculator.tsx:28-64 | `years + 1` snapshots (none for negative years) with year `i`, invested `principal + 12·monthly·i`, balance `Round(12·i monthly steps)`; future value after `12·max(years,0)` steps; interest = future value − total invested; year 0 is the principal; total invested is the last snapshot's |
| CompoundCalculator.Calculate | components/calculators/CompoundCalculator.tsx:28-64 | the yearly loop returns exactly `Project(p)` |
| CompoundCalculator.PushSnapshot | components/calculators/CompoundCalculator.tsx:42-46 | the pushed row extends the snapshots by that year's snapshot |
| CompoundCalculator.MonthlyLoop | components/calculators/CompoundCalculator.tsx:50-53 | twelve monthly steps, or none once `yr` reaches `years` |
| CompoundCalculator.MonthStepOfLoop | components/calculators/CompoundCalculator.tsx:51-52 | the two in-place updates of a month are one "add, then multiply by `1 + r/12`" step |
| CompoundCalculator.MonthsCompose | components/calculators/CompoundCalculator.tsx:41-54 | `m` steps followed by `n` steps are `m + n` steps |
| CompoundCalculator.NextYearIsTwelveMonths | components/calculators/CompoundCalculator.tsx:50-53 | consecutive snapshots are twelve steps apart |
| CompoundCalculator.ZeroRateIsSummation | components/calculators/CompoundCalculator.tsx:50-53 | at 0% the steps only add the contributions |
| CompoundCalculator.ZeroRateEarnsNothing | components/calculators/CompoundCalculator.tsx:41-53 | at 0% every year's balance equals its invested amount |
| CompoundCalculator.ZeroRateProjection | components/calculators/CompoundCalculator.tsx:35-61 | at 0%: future value = total invested = `principal + 12·monthly·years`, no interest |
| CompoundCalculator.InvestedNonDecreasing | components/calculators/CompoundCalculator.tsx:45 | with non-negative contributions the invested amount never decreases |
| CompoundCalculator.AfterMonthsIsGrow | components/calculators/CompoundCalculator.tsx:50-53 | the calculator's steps are the generic add-then-multiply recurrence |
| CompoundCalculator.AnnuityDueClosedForm | components/calculators/CompoundCalculator.tsx:50-53 | the loop equals the future value of a principal plus an annuity due: `B·(F − 1) = (b·(F − 1) + m·F)·F^n − m·F` with the monthly factor `F = 1 + r/12` |
| CompoundCalculator.FlatPrincipalExample | components/calculators/CompoundCalculator.tsx:41-53 | 10,000, nothing monthly, 0%, five years stays 10,000 |
| CompoundCalculator.OneYearOfContributionsExample | components/calculators/CompoundCalculator.tsx:41-53 | 1,000 a month at 0% for a year comes to 12,000 |
| TaxCalculator.CalculateTax | components/calculators/TaxCalculator.tsx:11-20 | US dividends: 15% of the income; Korean dividends: 15.4%, both with the sign of the income; capital gains: 22% of the excess over 2,500,000, zero exactly up to the deduction, never negative |
| TaxCalculator.Profit | components/calculators/TaxCalculator.tsx:22-23 | tax + profit = income; a non-negative income keeps between 78% and 100% of itself |
| TaxCalculator.UsDividendExample | components/calculators/TaxCalculator.tsx:12-23 | 1,000,000 of US dividends: tax 150,000, profit 850,000 |
| TaxCalculator.DividendTaxIsLinear | components/calculators/TaxCalculator.tsx:12-13 | the dividend rules are additive and homogeneous; a negative income owes a negative tax |
| TaxCalculator.MoreIncomeMoreTaxAndProfit | components/calculators/TaxCalculator.tsx:11-23 | tax and profit are monotone in the income under every rule |
| Text.OrEmpty | app/api/cron/news/route.ts:61 | `s \|\| ""`: the string when truthy, otherwise empty |
| Text.Lower | app/api/cron/news/route.ts:8 | lower-casing keeps the length and maps each character (ASCII letters) |
| NewsRoute.SentimentOf | app/api/cron/news/route.ts:7-19 | definition (no contract of its own): the classified score of a text; `AnalyzeSentiment` is proved equal to it, and `Score`, `Classify`, `NoKeywordIsNeutral` state its properties |
| NewsRoute.Hits | app/api/cron/news/route.ts:13-14 | at most one hit per keyword |
| NewsRoute.HitsCountPresence | app/api/cron/news/route.ts:13-14 | no hits iff no keyword occurs; all hits iff every keyword occurs |
| NewsRoute.NoHitsIffAbsent | app/api/cron/news/route.ts:13-14 | zero hits exactly when no keyword is a substring |
| NewsRoute.AllHitIffPresent | app/api/cron/news/route.ts:13-14 | every keyword hits exactly when each is a substring |
| NewsRoute.Score | app/api/cron/news/route.ts:8-14 | the score lies in [−10, 10] |
| NewsRoute.Classify | app/api/cron/news/route.ts:16-18 | positive iff score > 0, negative iff < 0, neutral iff 0 |
| NewsRoute.AnalyzeSentiment | app/api/cron/news/route.ts:7-19 | the counting loops return the classified score of the lower-cased text |
| NewsRoute.NoKeywordIsNeutral | app/api/cron/news/route.ts:12-18 | a text containing no keyword is neutral |
| NewsRoute.SentimentIgnoresCase | app/api/cron/news/route.ts:8 | lower-casing the text first changes nothing |
| NewsRoute.Mentions | app/api/cron/news/route.ts:26-27 | definition (no contract of its own): the symbol occurs ignoring case, either bounded by non-word characters on both sides or right after a `$` |
| NewsRoute.TagsOf | app/api/cron/news/route.ts:22-30 | definition (no contract of its own): the known symbols the text mentions, first occurrences only; characterised by `TagsOfMembers`, `TagsOfOrdered` and `TagsOfDistinct` |
| NewsRoute.CashtagMentions | app/api/cron/news/route.ts:26-27 | a cashtag `$sym`, written in lower case after any text, tags the symbol |
| NewsRoute.StandaloneWordMentions | app/api/cron/news/route.ts:26-27 | a text made of the symbol alone tags it |
| NewsRoute.TagsOfMembers | app/api/cron/news/route.ts:25-29 | a symbol is tagged iff it is known and mentioned |
| NewsRoute.TagsOfOrdered | app/api/cron/news/route.ts:23-29 | tags appear in the order of their first occurrence among the known symbols |
| NewsRoute.TagsOfDistinct | app/api/cron/news/route.ts:23-29 | no symbol is tagged twice |
| NewsRoute.ExtractTickers | app/api/cron/news/route.ts:22-30 | the set-accumulating loop returns exactly `TagsOf` |
| NewsRoute.Summary | app/api/cron/news/route.ts:85 | the first `min(|d|, 200)` characters of the description followed by "..."; "..." alone for an empty one |
| NewsRoute.NormalizeFeed | app/api/cron/news/route.ts:57-62 | at most ten articles, the first ten items in order, a missing description read as "" |
| NewsRoute.RecordsOf | app/api/cron/news/route.ts:74-85 | at most one record per article, each titled and with a summary ending in "..."; none when every title is falsy |
| NewsRoute.Titled | app/api/cron/news/route.ts:74-75 | the articles the loop keeps are exactly those with a truthy title, never more than the feed |
| NewsRoute.RecordsOfTitled | app/api/cron/news/route.ts:74-85 | every titled article is stored, in order, and only those: record `i` carries the `i`-th titled article's title, `Summary(description)`, and the sentiment and tags of `title + " " + description` |
| NewsRoute.ProcessFeed | app/api/cron/news/route.ts:74-90 | the processing loop stores exactly `RecordsOf` of the normalised feed |
| DailyRoute.AnalyzeSentiment | app/api/cron/daily/route.ts:57-65 | the duplicate returns the news route's sentiment for every text |
| DailyRoute.ExtractTickers | app/api/cron/daily/route.ts:67-74 | the duplicate returns the news route's tags for every text |
| DailyRoute.JsString | app/api/cron/daily/route.ts:91-92 | string concatenation renders a missing description as "undefined" |
| DailyRoute.ItemText | app/api/cron/daily/route.ts:91-92 | definition (no contract of its own): the analysed text `title + " " + description`, as concatenation renders it |
| DailyRoute.CapItems | app/api/cron/daily/route.ts:87 | the first `min(n, 10)` items, a prefix of the feed |
| DailyRoute.RecordsOf | app/api/cron/daily/route.ts:89-99 | at most one record per item, each titled and with a summary ending in "..." |
| DailyRoute.Titled | app/api/cron/daily/route.ts:89-90 | the items the loop keeps are exactly those with a truthy title, never more than the feed |
| DailyRoute.RecordsOfTitled | app/api/cron/daily/route.ts:89-99 | every titled item is stored, in order, and only those: record `i` carries the `i`-th titled item's title and `Summary(description \|\| "")` ("..." for a missing description), with sentiment and tags read from the text in which a missing description is "undefined" |
| DailyRoute.UpdateNews | app/api/cron/daily/route.ts:87-103 | the loop stores exactly `RecordsOf` of the capped items |
| DailyRoute.AgreesWithNewsRoute | app/api/cron/daily/route.ts:86-99 | when every item has a description, both routes store the same records |
| SitemapIndex.XmlEscape | app/sitemap.xml/route.ts:3-5 | definition (no contract of its own): three chained global replacements, `&` first; the `XmlEscape…` lemmas below state its properties |
| SitemapIndex.ReplaceAllAppend | app/sitemap.xml/route.ts:4 | a global single-character replace distributes over concatenation |
| SitemapIndex.ReplaceAllAbsent | app/sitemap.xml/route.ts:4 | replacing an absent character changes nothing |
| SitemapIndex.XmlEscapeAppend | app/sitemap.xml/route.ts:4 | escaping distributes over concatenation |
| SitemapIndex.XmlEscapeChar | app/sitemap.xml/route.ts:4 | one character is escaped to its entity exactly once |
| SitemapIndex.XmlEscapeIsSinglePass | app/sitemap.xml/route.ts:4 | the three chained replacements equal escaping each character once |
| SitemapIndex.LessThanEscapesOnce | app/sitemap.xml/route.ts:4 | `xmlEscape("<") == "&lt;"`, not `&amp;lt;` |
| SitemapIndex.EscapedHasNoMarkup | app/sitemap.xml/route.ts:4 | the one-pass escaping contains no `<` and no `>` |
| SitemapIndex.EscapedAmpersandsAreEntities | app/sitemap.xml/route.ts:4 | every `&` of the one-pass escaping starts `&amp;`, `&lt;` or `&gt;` |
| SitemapIndex.XmlEscapeIsCharacterData | app/sitemap.xml/route.ts:4 | `xmlEscape` output has no `<` or `>`, and every `&` in it starts an entity |
| SitemapIndex.XmlEscapeIdentity | app/sitemap.xml/route.ts:4 | strings without `&`, `<`, `>` (quotes included) come back unchanged |
| SitemapIndex.XmlEscapeLength | app/sitemap.xml/route.ts:4 | output length = `|s| + 4·#& + 3·#< + 3·#>` |
| SitemapIndex.EscapedLength | app/sitemap.xml/route.ts:4 | the same length law for the one-pass escaping |
| SitemapIndex.XmlEscapeRoundTrip | app/sitemap.xml/route.ts:4 | unescaping the output gives the input back |
| SitemapIndex.UnescapeEscaped | app/sitemap.xml/route.ts:4 | unescaping inverts the one-pass escaping |
| SitemapIndex.UnescapeFront | app/sitemap.xml/route.ts:4 | decoding reads one escaped character off the front |
| SitemapIndex.EscapedKeepsCharOut | app/sitemap.xml/route.ts:4 | escaping adds no character foreign to the input and the entities |
| SitemapIndex.StripTrailingSlash | app/sitemap.xml/route.ts:9 | removes exactly one trailing `/`, if present, and nothing else |
| SitemapIndex.NullableText | app/sitemap.xml/route.ts:12 | a missing header prints as "null" |
| SitemapIndex.GetBaseUrl | app/sitemap.xml/route.ts:7-13 | a truthy configured URL minus one trailing slash; otherwise `proto://host` with the forwarded host before Host and "https" as the default scheme |
| SitemapIndex.ConfiguredUrlLosesOneSlash | app/sitemap.xml/route.ts:9 | `base + "/"` configured gives `base` |
| SitemapIndex.DecimalString | app/sitemap.xml/route.ts:26 | `${i}` is a non-empty string of digits |
| SitemapIndex.DecimalRoundTrip | app/sitemap.xml/route.ts:26 | the decimal rendering parses back to the id |
| SitemapIndex.EntryLocs | app/sitemap.xml/route.ts:25-27 | each loc decodes to `baseUrl/sitemap/i.xml`, has no markup, and differs between children |
| SitemapIndex.Join | app/sitemap.xml/route.ts:27 | definition (no contract of its own): `Array.prototype.join` with a separator; `SplitJoin` and `JoinAppend` state its properties |
| SitemapIndex.IndexBody | app/sitemap.xml/route.ts:22-28 | definition (no contract of its own): the response body; `IndexBodyLines` states its line structure |
| SitemapIndex.SplitJoin | app/sitemap.xml/route.ts:27 | splitting a `"\n"`-join of line-free lines gives the lines back |
| SitemapIndex.JoinAppend | app/sitemap.xml/route.ts:27 | joining two non-empty lists is joining each with a separator between |
| SitemapIndex.IndexBodyIsJoin | app/sitemap.xml/route.ts:22-28 | the body is the declaration, the open tag, the entries and the close tag joined by line breaks |
| SitemapIndex.EntryHasNoLineBreak | app/sitemap.xml/route.ts:26 | an entry line has no line break when the base URL has none |
| SitemapIndex.IndexBodyLines | app/sitemap.xml/route.ts:20-28 | the body's lines are the declaration, `<sitemapindex>`, the entries for children 0..19 in order, and the close tag |
| SitemapChunks.GenerateSitemaps | app/sitemap.ts:11-17 | `ceil(total / 2000)` ids `0..chunks−1`, a missing count read as 0 |
| SitemapChunks.ChunkEnd | app/sitemap.ts:22-23 | each chunk asks for exactly 2000 rows |
| SitemapChunks.ChunkSymbols | app/sitemap.ts:22-28 | child `id` reads at most 2000 rows, and its row `k` is table row `2000·id + k` |
| SitemapChunks.RangeQuery | app/sitemap.ts:25-28 | an inclusive range returns at most `to − from + 1` rows, the table's rows from `from` on |
| SitemapChunks.AllChunksPrefix | app/sitemap.ts:22-28 | the first `n` chunks concatenated are the table's first `2000·n` rows, clipped |
| SitemapChunks.ChunkIsSlice | app/sitemap.ts:22-28 | chunk `id` is the table slice `[2000·id, 2000·(id+1))`, clipped |
| SitemapChunks.ChunksCoverTable | app/sitemap.ts:11-28 | the generated ids read every row once and in order; ids beyond them read nothing |
| SitemapChunks.RowInItsChunk | app/sitemap.ts:16-28 | row `r` is read by child `r / 2000` at position `r % 2000` |
| SitemapChunks.StaticEntries | app/sitemap.ts:36-44 | one daily, priority-1.0 entry per static route, in order |
| SitemapChunks.SymbolPages | app/sitemap.ts:48-77 | four entries per symbol |
| SitemapChunks.SymbolEntries | app/sitemap.ts:48-77 | four entries per symbol overall |
| SitemapChunks.SymbolEntriesAt | app/sitemap.ts:48-77 | symbol `k`'s entries are positions `4k..4k+3` |
| SitemapChunks.Sitemap | app/sitemap.ts:20-80 | the pushing loops return the static part (chunk 0 only) followed by the symbols' entries |
| SitemapChunks.StaticPart | app/sitemap.ts:35-45 | definition (no contract of its own): the static entries in chunk 0 and nothing elsewhere; `StaticPartLayout` states it |
| SitemapChunks.StaticPartLayout | app/sitemap.ts:35-45 | chunk 0 lists the seven static pages in order; no other chunk has them |
| SitemapChunks.SitemapLayout | app/sitemap.ts:32-77 | entry count = `(id == 0 ? 7 : 0) + 4·symbols`, static part first, then each symbol's four pages in order |
| SitemapChunks.PrioritiesInRange | app/sitemap.ts:42-75 | every priority lies in [0, 1] |
| SitemapChunks.SymbolPrioritiesInRange | app/sitemap.ts:54-75 | the per-symbol priorities lie in [0, 1] |
| SitemapChunks.CompareUrlIsCaseInsensitive | app/sitemap.ts:51-72 | only the compare URL lower-cases the symbol: symbols equal up to case share it, yet have different stock-hub URLs |

## Left out

- React state, `useEffect` recomputation, JSX, the charts and the ad units: presentation only. The calculators are modelled over explicit inputs.
- IEEE-754 doubles: money and rates are exact reals, so rounding drift, overflow and NaN inputs are not modelled. Only the yield-on-cost division by zero yields NaN/Infinity, through `JsQuotient`.
- `toFixed` and `formatCurrency` display formatting: presentation.
- Supabase queries and upserts (and their error counts), `fetch`, `XMLParser`, `new Date(...)` (`published_at`, `lastModified`), `NextResponse`, the `Content-Type` header, and the cron `GET` handlers: I/O and the clock. A query's rows, the feed items and the headers arrive as parameters.
- The feed list of the cron routes and the wrapping of a single non-array `item`: only one feed of already listed items is modelled. The feed fields `link`, `pubDate` and `source` are not modelled.
- `fetchMockMarketData` and `updatePrices` in the daily route: randomness and the clock.
- Text.Lower: maps only ASCII letters, because full Unicode case mapping is out of scope.
- NewsRoute.Mentions: assumes non-empty symbols made of word characters. The code interpolates symbols into a regular expression unescaped, so symbols with metacharacters are not modelled.
- NewsRoute.FeedItem: a title or description is a string or missing. The parser can also yield numbers or objects, and `null` and `undefined` are not told apart.
- CompoundCalculator.Calculate: `years` is an integer. A fractional `years` from the number input is not modelled.
- DividendCalculator.Calculate: `years` is an integer, for the same reason.
- SitemapChunks.Sitemap: `id` is a natural number, and the table is assumed to be read in a stable order.
- SitemapChunks.RangeQuery: the query is assumed to return the whole requested range. A server-side cap on rows per response (Supabase's max-rows setting, 1,000 by default) is not modelled, so `ChunksCoverTable` holds only when that cap is at least 2000.
- NewsRoute.Summary: lengths count Unicode scalar values, whereas `slice(0, 200)` counts UTF-16 code units. For text outside the Basic Multilingual Plane the source keeps fewer characters and can split a surrogate pair. This applies to `NewsRoute.ProcessFeed`, `DailyRoute.UpdateNews` and both `RecordsOfTitled` lemmas.
- NewsRoute.ProcessFeed: assumes every `pubDate` parses. `new Date(art.pubDate).toISOString()` throws on a missing or invalid date, which fails the request at that article, so later articles are not stored. The model stores every titled article.
- DailyRoute.UpdateNews: assumes every `pubDate` parses. A bad date throws inside the loop, and the catch around the feed drops the rest of that feed. The model stores every titled item.
- The monthly loop of the compound calculator is a separate method (`MonthlyLoop`) called from the yearly loop. It keeps the same variables and bounds.
