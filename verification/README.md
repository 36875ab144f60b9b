# bac-resultats in Dafny

A model of the core of bac-resultats, a site that publishes the Mauritanian
baccalauréat results. Candidates look themselves up by candidate number or by
several criteria, and a statistics page charts pass rates, averages and
rankings. Four parts are modelled:

- **The offline scripts.** `scripts/convert.js` cleans a spreadsheet export
  into the results file. It trims keys and strings, and rewrites every value in
  a column whose name contains "date" as `YYYY-MM-DD`. `scripts/calculateStats.js`
  aggregates the results into the statistics file: global decision counts,
  group-bys by series, wilaya, school and exam centre, rates, means, the
  variance, and the top-10 lists.
- **The query engine** (`data/dataService.ts`). A load-once cache sorted by
  name, lookup by candidate number, and the seven-criterion filter, with its
  birth-year test on spreadsheet serial dates.
- **The pages.** The search page (`app/page.tsx`): when a search runs, which
  rows it shows, the five-entry history, the school suggestions, the series
  buttons and the option lists. The statistics page (`app/stats/page.tsx`): chart
  rows, decision slices, the ten best wilayas and the eight-band histogram. The
  bubble map (`components/WilayaMap.tsx`): sizes, colours, names, labels and
  selection. The ranking panel (`components/TopStudents.tsx`).
- **The helpers.** `getMention` (`utils/mentionUtils.ts`), and `cn`,
  `formatNumber` and `toSlug` (`lib/utils.ts`).

Each source file is one module: `Convert`, `CalculateStats`, `DataService`,
`SearchPage`, `StatsPage`, `WilayaMap`, `TopStudents`, `Mention`, `Utils`. The
shared modules model the JavaScript runtime the code relies on:

- `Text`: `trim`, `toLowerCase`, `includes`, `split` and `join`, and integer
  printing;
- `Seqs`: `filter`, `slice`, `new Set`, and sums;
- `Sorting`: the stable `Array.prototype.sort` by a key, and top-k;
- `Calendar`: spreadsheet day numbers and the calendar;
- `Records`: one row of the results file;
- `Optional`: an option type.

Modelling choices:

- A missing criterion and the empty string are the same, because both are
  falsy in the source.
- `NaN` (from `0 / 0`) is `None`. After `JSON.stringify` it reads as 0 on the
  statistics page (`StatsPage.JsonNumber`).
- A date is a day number counted from 1899-12-30, the spreadsheet epoch.
  `Date.parse` is a parameter, `DateParser`.
- JavaScript objects are modelled by their entries in insertion order.

Some consequences of the code as written, stated as proved properties:

- In `convert.js`, an input key that trims to the same key as an earlier one
  overwrites its value but keeps the earlier position (`Convert.CleanValues`).
- An average of exactly 20 falls in none of the histogram's bins
  (`StatsPage.HistogramTotal`).
- A name made only of spaces does not count as a search criterion
  (`SearchPage.SpacesAreNoCriterion`).
- With duplicated candidate numbers, the lookup returns the first row while the
  filter returns all of them (`DataService.DuplicateNumbers`).
- In `dataService.ts` a numeric birth date has no validity test, unlike the
  one in `convert.js`: a number more than 10^8 days from 1970 gives an invalid
  `Date`, whose year prints as "NaN", and the birth year "NaN" then selects
  that row (`DataService.NaNYearMatches`).

## Model

| member | source | states |
|---|---|---|
| `Mention.GetMention` | utils/mentionUtils.ts:1-7 | each of the five labels is returned exactly on its half-open band of averages: [16,∞), [14,16), [12,14), [10,12), below 10 |
| `Mention.MentionByRank` | utils/mentionUtils.ts:1-7 | the label is the band indexed by how many of the thresholds 10, 12, 14, 16 the average reaches |
| `Mention.MentionMonotone` | utils/mentionUtils.ts:1-7 | a higher average never gets a lower band |
| `Utils.TrueKeys` | lib/utils.ts:32-36 | an object argument contributes exactly the keys whose value is true |
| `Utils.CnTokens` | lib/utils.ts:21-40 | `cn` is the space-joined list of all non-empty class names of its arguments, nested arrays flattened in order |
| `Utils.TokensConcat` | lib/utils.ts:24-37 | the class names of two argument lists are those of the first followed by those of the second |
| `Utils.CnSkipsFalsy` | lib/utils.ts:25 | inserting a falsy argument ('', 0, false, null, undefined) anywhere changes nothing |
| `Utils.CnExample` | lib/utils.ts:15-16 | the documented call gives "btn px-4 py-2 bg-blue-500" when only the first condition holds |
| `Utils.FormatNumberDropsSpaces` | lib/utils.ts:51-53 | `formatNumber` only inserts spaces: removing them gives the number's decimal form back |
| `Utils.GapInDigits` | lib/utils.ts:52 | in a digit string the pattern matches exactly at the positions a positive multiple of three from the end |
| `Utils.DigitsGrouped` | lib/utils.ts:52 | on a digit string the replacement equals the reference grouping: a lead group, then groups of three, joined by spaces |
| `Utils.FormatNumberGroups` | lib/utils.ts:51-53 | for a natural number the space-separated pieces are a lead of 1 to 3 digits followed by groups of exactly three digits |
| `Utils.FormatThreeThousandFiveHundred` | lib/utils.ts:46 | the documented example: 3500 is written "3 500" |
| `Utils.StripAccents` | lib/utils.ts:123-124 | the result is no longer than the input and holds no combining mark U+0300..U+036F |
| `Utils.Dashify` | lib/utils.ts:125 | the result holds only [a-z0-9] and dashes, never two dashes in a row, and starts with the first character or a dash |
| `Utils.ToSlug` | lib/utils.ts:120-127 | every slug holds only [a-z0-9-], has no dash at either end and no "--" |
| `Utils.SlugFixed` | lib/utils.ts:120-127 | a string that already is a slug is its own slug |
| `Utils.ToSlugIdempotent` | lib/utils.ts:120-127 | applying `toSlug` twice is applying it once |
| `Utils.ToSlugKeeps` | lib/utils.ts:120-127 | the slug keeps exactly the letters and digits of the lower-cased, accent-stripped input, in order |
| `Utils.SlugThreeWords` | lib/utils.ts:125-126 | three words of letters and digits separated by spaces become the words joined by single dashes |
| `Utils.ToSlugExample` | lib/utils.ts:115 | the documented example: 'Résultats du Bac' becomes "resultats-du-bac" |
| `Text.TrimSpec` | scripts/convert.js:64 | `trim` returns a contiguous slice with only whitespace cut from each side, and no whitespace at either end of the result |
| `Text.TrimIdempotent` | scripts/convert.js:70 | trimming a trimmed string changes nothing |
| `Text.TrimEmptyIff` | app/page.tsx:134-135 | a string trims to '' exactly when it is all whitespace |
| `Text.LowerIdempotent` | data/dataService.ts:90 | lower-casing twice is lower-casing once |
| `Text.JoinSplit` | components/WilayaMap.tsx:180 | joining the pieces of a split with the separator gives back the string |
| `Text.SplitJoin` | components/WilayaMap.tsx:180 | splitting a join gives back the pieces when none holds the separator |
| `Text.NatToStringValue` | lib/utils.ts:52 | the decimal digits of a natural number read back as that number |
| `Sorting.SortPermutes` | scripts/calculateStats.js:134 | the sort is a permutation of its input |
| `Sorting.SortSorted` | scripts/calculateStats.js:134 | under a total order the sort output is ordered by the key |
| `Sorting.SortStable` | scripts/calculateStats.js:134 | for every key value, the elements carrying it keep their input order |
| `Sorting.DescendingTotal` | scripts/calculateStats.js:134 | the comparator `b - a` is a total order on reals (larger first) |
| `Sorting.LexicographicTotal` | data/dataService.ts:57 | the name order used for the cache is a total order |
| `Sorting.TopByOrdered` | scripts/calculateStats.js:129-135 | sort-then-slice keeps min(n, length) elements, in non-increasing key order, drawn from the input |
| `Sorting.TopByOmitted` | scripts/calculateStats.js:129-135 | no element left out scores above the last one kept |
| `Sorting.TopByStable` | scripts/calculateStats.js:129-135 | the kept elements of each score are the first elements of that score in input order |
| `Seqs.Distinct` | app/page.tsx:84 | `Array.from(new Set(s))` holds every value of `s` exactly once, as a subsequence of `s` |
| `Calendar.CivilRoundTrip` | scripts/convert.js:7-10 | converting a day number to a calendar date and back gives the same day |
| `Calendar.SerialExamples` | data/dataService.ts:28-36 | serial 38198 is 30 July 2004 and serial 2 is 1 January 1900, counting from 1899-12-30 |
| `Calendar.IsoDate` | scripts/convert.js:38-40 | a day in years 0..9999 renders as four digits, a dash, two digits, a dash, two digits |
| `Calendar.IsoRoundTrip` | scripts/convert.js:38-40 | reading a rendered "YYYY-MM-DD" date back gives the same day |
| `Convert.Checked` | scripts/convert.js:19 | a date survives the `isNaN(getTime())` test exactly when it lies within the ±8.64e15 ms range of a Date |
| `Convert.FirstMatch` | scripts/convert.js:29 | the match found is the leftmost position where the day/month/year pattern matches |
| `Convert.RewriteLeading` | scripts/convert.js:29 | a leading "dd/mm/yyyy" or "dd-mm-yyyy" becomes "yyyy-mm-dd", the rest kept |
| `Convert.RewriteNoMatch` | scripts/convert.js:29 | a string without the pattern is handed to `Date.parse` unchanged |
| `Convert.RewriteKeeps` | scripts/convert.js:29 | only the first match is rewritten; the text before and after it is kept |
| `Convert.RewriteIso` | scripts/convert.js:29 | an ISO date string has no group for the rewrite to turn |
| `Convert.RewriteDayMonthYear` | scripts/convert.js:29 | the rendering "dd/mm/yyyy" of a day is rewritten to that day's ISO form |
| `Convert.ParseDate` | scripts/convert.js:13-35 | every date `parseDate` accepts lies within the range a Date can hold |
| `Convert.ParseDateEmpty` | scripts/convert.js:14-17 | null, undefined, '', NaN and booleans give no date |
| `Convert.ParseDateSerial` | scripts/convert.js:7-20 | a number is the day it counts from 1899-12-30, rounded down to whole days, accepted exactly when its time value is within the range of a `Date` |
| `Convert.FormatDate` | scripts/convert.js:38-40 | for years 0..9999 the result is the "YYYY-MM-DD" rendering of the day |
| `Convert.KeyIndex` | scripts/convert.js:68-70 | the position found holds the key and is its first occurrence |
| `Convert.Assign` | scripts/convert.js:68-70 | assigning a key replaces its value in place when present, appends it otherwise, and keeps keys distinct |
| `Convert.CleanKeys` | scripts/convert.js:61-74 | a cleaned record has each trimmed input key once, in order of first appearance |
| `Convert.CleanValues` | scripts/convert.js:61-74 | each cleaned key holds the cleaned value of the last input entry whose key trims to it |
| `Convert.CleanEntriesOfClean` | scripts/convert.js:61-74 | a record whose keys are already trimmed and distinct keeps its entries in place, each value cleaned |
| `Convert.ConvertData` | scripts/convert.js:61-74 | one cleaned record per input record, in order |
| `Convert.CleanRecordIdempotent` | scripts/convert.js:61-74 | converting a converted record again changes nothing, when its dates read back as themselves |
| `Convert.CleanValueIdempotent` | scripts/convert.js:64-71 | cleaning a cleaned value again changes nothing, under the same condition |
| `Convert.CleanDayMonthYear` | scripts/convert.js:66-68 | a date column holding "dd/mm/yyyy" is written as the same day in "yyyy-mm-dd" |
| `Convert.CleanDateColumn` | scripts/convert.js:66-68 | in a date column an unrecognised value is kept, and a recognised one is written as an ISO date that reads back as the same day |
| `Convert.CleanOtherColumn` | scripts/convert.js:69-70 | in other columns strings are trimmed and every other value is kept |
| `CalculateStats.ReplaceFirst` | scripts/calculateStats.js:9 | `replace(',', '.')` changes only the first comma and keeps the length |
| `CalculateStats.ParseFloatUnsigned` | scripts/calculateStats.js:9 | a string starting with a digit is read with no whitespace or sign to skip |
| `CalculateStats.CommaDecimal` | scripts/calculateStats.js:8-10 | a comma-decimal string reads as its integer part plus its fraction |
| `CalculateStats.TwelveFifty` | scripts/calculateStats.js:8-10 | "12,50" reads as 12.5 |
| `CalculateStats.CountsMatchLabels` | scripts/calculateStats.js:44-51 | each global count is the number of records with that exact decision label, and the three add up to at most the total |
| `CalculateStats.SummarizeCounts` | scripts/calculateStats.js:53-103 | a group counts its records and its admitted records, and keeps their averages in record order |
| `CalculateStats.SummarizeMin` | scripts/calculateStats.js:83-91 | a school's min is min(20, its averages) |
| `CalculateStats.SummarizeMax` | scripts/calculateStats.js:84-94 | a school's max is max(0, its averages) |
| `CalculateStats.GroupBy` | scripts/calculateStats.js:53-103 | the keys are distinct and are exactly the key values of the records |
| `CalculateStats.GroupByKeysFirstSeen` | scripts/calculateStats.js:53-103 | the keys are the records' key values de-duplicated in order of first appearance, the order `Object.keys` enumerates |
| `CalculateStats.GroupByIsFilterThenSummarize` | scripts/calculateStats.js:53-103 | each group's figures are those of exactly the records with that key, taken on their own |
| `CalculateStats.GroupTotals` | scripts/calculateStats.js:53-103 | group sizes add up to the number of records |
| `CalculateStats.GroupAdmitted` | scripts/calculateStats.js:53-103 | group admitted counts add up to the number of admitted records |
| `CalculateStats.UpsertSum` | scripts/calculateStats.js:55-58 | adding one record to a group raises the sum of a field by exactly that group's change |
| `CalculateStats.RateInRange` | scripts/calculateStats.js:107 | a rate over a non-empty group lies in [0, 100], and is 0 with none admitted and 100 with all admitted |
| `CalculateStats.MeanBetween` | scripts/calculateStats.js:108 | a mean lies between any bounds of the values |
| `CalculateStats.Variance` | scripts/calculateStats.js:111-113 | the variance is defined exactly when there is at least one average |
| `CalculateStats.VarianceIdentity` | scripts/calculateStats.js:111-113 | the variance equals the mean of the squares minus the square of the mean |
| `CalculateStats.VarianceNonNegative` | scripts/calculateStats.js:111-113 | the variance is never negative |
| `CalculateStats.ConstantVariance` | scripts/calculateStats.js:108-113 | equal averages have that value as mean and variance 0 |
| `CalculateStats.CalculateStats` | scripts/calculateStats.js:12-148 | the total is the number of records, every group-by table is well formed, and the wilaya top-10 lists have exactly the wilayas as keys |
| `CalculateStats.SummaryCounts` | scripts/calculateStats.js:39-51 | the global counts are the label counts, they add up to at most the total, and the pass rate is in [0, 100] when there are records |
| `CalculateStats.SummaryGroups` | scripts/calculateStats.js:53-103 | every group-by partitions the records: sizes add up to the total, and admitted counts to the admitted total |
| `CalculateStats.GroupFacts` | scripts/calculateStats.js:53-126 | each group is non-empty, counts its admitted records, keeps its averages, holds min/max seeded at 20/0, and has a rate in [0, 100] |
| `CalculateStats.WilayaMean` | scripts/calculateStats.js:122-126 | a wilaya's `moyenne` is the mean of its records' averages and lies between the group's min and max |
| `CalculateStats.WilayaTop` | scripts/calculateStats.js:137-148 | a wilaya's top-10 holds at most ten of that wilaya's records, best first |
| `CalculateStats.SummaryWilayaTop` | scripts/calculateStats.js:137-148 | every `top10Wilaya` entry is at most ten of that wilaya's records, best first |
| `CalculateStats.SummaryTop` | scripts/calculateStats.js:128-135 | `top10` is the best min(10, n) records, non-increasing, none omitted above the last, ties in record order |
| `DataService.SerialDate` | data/dataService.ts:30-36 | a non-zero number within the range of a `Date` is that many whole days after the epoch, one outside it is an invalid `Date` (there is no validity test); 0 is falsy and has no date |
| `DataService.BirthYearCases` | data/dataService.ts:106-108 | the year text is empty exactly when there is no date, "NaN" exactly for a non-zero number outside the range of a `Date`, and otherwise starts with a sign or a digit |
| `DataService.SerialAgreesWithConversion` | data/dataService.ts:33-36 | a non-zero number gives a valid date exactly when the conversion script's `parseDate` accepts it, and on the same day |
| `DataService.NaNYearMatches` | data/dataService.ts:106-112 | a row whose number cell is outside the range of a `Date` is selected by the birth year "NaN" and by no other non-empty year |
| `DataService.SearchByCriteria` | data/dataService.ts:76-120 | the single pass returns exactly the reference filter: the rows meeting every non-empty criterion, in data order |
| `DataService.CriteriaResult` | data/dataService.ts:85-119 | the filter is sound (each row kept meets every non-empty criterion), complete (every matching row is kept, as often as it occurs) and a subsequence of the data |
| `DataService.NoCriteriaReturnsAll` | data/dataService.ts:85-119 | with every criterion empty the whole dataset is returned, in order |
| `DataService.BirthYearExcludesUnparsed` | data/dataService.ts:106-112 | a set birth year excludes every row whose birth date does not parse |
| `DataService.NameTestIgnoresCase` | data/dataService.ts:90 | changing the case of the name query does not change the outcome |
| `DataService.SearchByCandidateNumber` | data/dataService.ts:69-71 | the first row with that number, or nothing exactly when no row has it |
| `DataService.DuplicateNumbers` | data/dataService.ts:69-120 | with a duplicated number, the lookup returns the first row and the filter returns both |
| `DataService.FetchResults` | data/dataService.ts:47-64 | a non-empty cache is returned untouched; a failed load leaves the cache and throws; a load stores a name-sorted, stable permutation of the file and returns it |
| `DataService.LoadOnce` | data/dataService.ts:47-48 | after one successful load, a later call returns the same data whatever the file holds |
| `SearchPage.AsCriteria` | app/page.tsx:161 | the advanced form is passed as is, with no candidate number |
| `SearchPage.ByNumber` | app/page.tsx:155 | a number search filters on the number alone |
| `SearchPage.Dispatch` | app/page.tsx:164-177 | no rows is the "no results" error, one row is shown alone, more are shown as a list |
| `SearchPage.UpdateHistory` | app/page.tsx:157 | the history starts with the number and continues with the first earlier numbers other than it, in order: all of them when there are fewer than five, else four |
| `SearchPage.HandleSearch` | app/page.tsx:127-187 | the "enter a criterion" error comes exactly when the number and every form field are blank; the search error comes exactly when the first load of the data fails, leaving history and load state unchanged; otherwise the page is loaded and only a number search updates the history |
| `SearchPage.FirstSearchLoads` | app/page.tsx:145-183 | a failed first load shows the search error with history and load state unchanged; a successful one leaves the page loaded with the file's rows sorted by name |
| `SearchPage.LoadedIgnoresFile` | app/page.tsx:148-151 | once the data is loaded a search does not depend on the file |
| `SearchPage.NumberTakesPrecedence` | app/page.tsx:134-161 | with a number typed, the advanced form has no effect |
| `SearchPage.NumberSearchExact` | app/page.tsx:154-177 | a number search shows exactly the rows of the loaded data with that number, in data order and as often as they occur; a single row is the lookup's row |
| `SearchPage.NumberCriterionAlone` | data/dataService.ts:85-119 | the criteria of a number search test nothing but the candidate number |
| `SearchPage.AdvancedSearchSound` | app/page.tsx:160-177 | an advanced search shows exactly the rows of the loaded data meeting every criterion, in data order and as often as they occur |
| `SearchPage.SpacesAreNoCriterion` | app/page.tsx:134-143 | a name made only of spaces gives the "enter a criterion" error |
| `SearchPage.HistoryIdempotent` | app/page.tsx:157 | searching the same number twice leaves the history as after the first search |
| `SearchPage.HistoryNoDuplicates` | app/page.tsx:157 | a history without repeats keeps none |
| `SearchPage.HistoryKeepsShort` | app/page.tsx:157 | with fewer than five other numbers, none is lost |
| `SearchPage.Suggestions` | app/page.tsx:113-125 | no suggestions up to two characters; otherwise as many as match up to five, schools containing the query, case aside, in list order |
| `SearchPage.SuggestionsFirst` | app/page.tsx:114-117 | the suggestions are the first matching schools, and all of them when at most five match |
| `SearchPage.PickSuggestion` | app/page.tsx:218-222 | picking a suggestion sets the name field and leaves the other fields |
| `SearchPage.ToggleSeries` | app/page.tsx:622-625 | clicking the selected series clears it, clicking another selects it, and nothing else changes |
| `SearchPage.ToggleTwice` | app/page.tsx:622-625 | when no series or that same series was selected, two clicks on it restore the choice (from another series, they end with none) |
| `SearchPage.ClearAdvanced` | app/page.tsx:197-208 | clearing empties all six fields and hides the suggestions |
| `SearchPage.ClearedFormNeedsNumber` | app/page.tsx:134-208 | after clearing, a search runs exactly when a number is typed, and the cleared form matches every row |
| `SearchPage.Options` | app/page.tsx:84-87 | each non-empty value of the column exactly once, as a subsequence of the column |
| `SearchPage.LoadOptions` | app/page.tsx:84-93 | the four drop-down lists are without repeats and hold exactly the non-empty values of their column |
| `StatsPage.WilayaEntries` | app/stats/page.tsx:57 | `parWilaya` as read by the page: one entry per group, in key order, with rate and mean (NaN read as 0) |
| `StatsPage.SerieEntries` | app/stats/page.tsx:58 | `parSerie` as read by the page: one entry per group, in key order, with rate and admitted count |
| `StatsPage.WilayaData` | app/stats/page.tsx:156-160 | one chart row per wilaya key carrying its rate and mean |
| `StatsPage.SerieData` | app/stats/page.tsx:162-166 | one chart row per series key carrying its rate and admitted count |
| `StatsPage.SummaryTables` | app/stats/page.tsx:57-58 | the published wilaya and series tables are the group-bys of the records |
| `StatsPage.GroupRows` | app/stats/page.tsx:156-166 | rows built from a group-by are one per distinct group in first-seen order, each with a rate in [0, 100] and its mean |
| `StatsPage.PublishedRowOrder` | app/stats/page.tsx:156-166 | the published wilaya and series rows come in the order the records first show each wilaya and series |
| `StatsPage.PublishedRows` | app/stats/page.tsx:156-166 | on the published statistics each wilaya row shows its group's pass rate in [0, 100] and mean, and each series row its rate and admitted count |
| `StatsPage.DecisionsData` | app/stats/page.tsx:168-172 | three slices, admitted, postponed and retake in that order, carrying the global admitted, postponed and retake counts |
| `StatsPage.PublishedDecisions` | app/stats/page.tsx:168-172 | the slices count the records with each decision label and add up to at most the number of records |
| `StatsPage.ChartOrdered` | app/stats/page.tsx:236 | the chart holds min(10, n) wilayas in non-increasing rate order, none omitted above the last, ties in data order |
| `StatsPage.Bins` | app/stats/page.tsx:480-485 | one bin per band, in band order, carrying the band's count |
| `StatsPage.HistogramShape` | app/stats/page.tsx:468-486 | eight bins in band order, starting at 0, ending at 20, each ending where the next starts |
| `StatsPage.BandsPartition` | app/stats/page.tsx:469-478 | an average lies in exactly one band when it is in [0, 20) and in none otherwise |
| `StatsPage.BandCountFlat` | app/stats/page.tsx:481-483 | a bin counts all the wilayas' averages in its band |
| `StatsPage.HistogramTotal` | app/stats/page.tsx:468-486 | the bins together count exactly the averages in [0, 20), so never more than there are |
| `StatsPage.PublishedHistogram` | app/stats/page.tsx:468-486 | on the published statistics there is one average per record, and the bins count at most that many |
| `WilayaMap.SizeFlat` | components/WilayaMap.tsx:90 | with equal extremes every bubble is 80 px |
| `WilayaMap.SizeBounds` | components/WilayaMap.tsx:87-92 | a rate between the extremes gets a size in [40, 120], the lowest rate 40 and the highest 120 |
| `WilayaMap.SizeMonotone` | components/WilayaMap.tsx:87-92 | a higher rate never gets a smaller bubble |
| `WilayaMap.Extent` | components/WilayaMap.tsx:67-69 | the min and max rates bound every rate and are attained; there are none for no data |
| `WilayaMap.BubbleSizes` | components/WilayaMap.tsx:66-92 | every bubble's size is in [40, 120], the lowest rate gets 40 and the highest 120, and all get 80 when rates are equal |
| `WilayaMap.ColorMapKeys` | components/WilayaMap.tsx:71-74 | exactly the names of the data get a colour, each a palette position |
| `WilayaMap.ColorCycle` | components/WilayaMap.tsx:72-74 | with distinct names, the row at index i gets palette entry i mod 6 |
| `WilayaMap.NeighbourColors` | components/WilayaMap.tsx:72-116 | neighbouring bubbles never share a colour |
| `WilayaMap.ColorsRepeat` | components/WilayaMap.tsx:72-116 | colours repeat every six bubbles |
| `WilayaMap.PaletteDistinct` | components/WilayaMap.tsx:21-28 | the six palette entries are different colours |
| `WilayaMap.NamesFrom` | components/WilayaMap.tsx:46-51 | names are known for exactly the wilayas of the results, each under its French name |
| `WilayaMap.GetWilayaName` | components/WilayaMap.tsx:80-84 | a known wilaya shows its name in the interface language, an unknown one its id |
| `WilayaMap.FrenchNameIsId` | components/WilayaMap.tsx:46-84 | in French the name shown is the id; in Arabic a known wilaya shows the Arabic name of one of its rows |
| `WilayaMap.Abbreviated` | components/WilayaMap.tsx:180 | the label splits back at its dots into the first three characters of each word |
| `WilayaMap.Click` | components/WilayaMap.tsx:117-125 | a click clears the selection exactly when it hits the selected bubble, and otherwise selects the clicked one |
| `WilayaMap.ClickTwice` | components/WilayaMap.tsx:125 | two clicks on one bubble end with nothing selected; a click elsewhere selects the other one |
| `TopStudents.Lookup` | components/TopStudents.tsx:38 | a wilaya's list is found exactly when the key is present, and it is that key's list |
| `TopStudents.InitialWilayaTab` | components/TopStudents.tsx:32-38 | with the initial selection, the first key, the wilaya tab shows the first entry's list, or nothing when there are no keys |
| `TopStudents.CurrentData` | components/TopStudents.tsx:35-39 | the global tab shows the global list; the wilaya tab the selected wilaya's list or nothing; the series tab the first ten global entries of that series, in order |
| `TopStudents.WilayaTabShowsWilaya` | components/TopStudents.tsx:35-39 | the wilaya tab shows only students of the selected wilaya, and nothing for an unknown key |
| `TopStudents.PodiumSplit` | components/TopStudents.tsx:41-42 | the podium and the rest together are the list, in order; the podium holds at most three and the rest is empty unless it is full |
| `TopStudents.GettersFollowLanguage` | components/TopStudents.tsx:81-84 | all four getters read the French field exactly in French and the Arabic field otherwise |
| `TopStudents.WilayaLabel` | components/TopStudents.tsx:137 | the label is the key, or in Arabic the first student's non-empty Arabic wilaya name, and never empty for a non-empty key |
| `TopStudents.LabelsFallBack` | components/TopStudents.tsx:136-137 | in French the selector lists exactly the keys; in Arabic a label differs from its key only by showing a name from that wilaya's list |

## Left out

- File and network I/O is left out: `fetch`, `fs`, `localStorage`, and the xlsx and csv readers. The parsed file contents are parameters: the rows, a `LoadOutcome` and the saved history.
- React state, rendering, markup, animation and the French/Arabic translation tables are left out. The page logic is modelled as pure functions of the state it reads.
- Timers are left out: the 800 ms delay before results are shown and the history click's delayed button press.
- `generateId`, `debounce` and `formatDate` in lib/utils.ts are left out. They use randomness, timers and `Intl.DateTimeFormat`.
- Floating point is left out: averages and rates are exact reals, `Math.sqrt` (the standard deviation) is left out, and so is `toFixed` in the displays.
- `Date.parse` is a parameter, assumed to give `NaN` for a time outside the range of a `Date`. Time zones, and the local-time `new Date(1899, 11, 30)` epoch, are not modelled: day numbers are whole UTC days.
- Integer-like object keys, which JavaScript enumerates before the other keys, are not modelled: keys keep insertion order.
- `toLowerCase` and NFD decomposition are modelled for ASCII and Latin-1 only.
- Fetching the statistics file on the statistics page, and the page's loading and error screens, are I/O and left out. So are the middleware, the layout, `Logo` and `ResultCard`.
- DataService.FetchResults: `localeCompare` is modelled as code-unit lexicographic order, because locale collation is not available.
- CalculateStats.CalculateStats: requires every average to be readable. The source would propagate `NaN` through the sums for an unreadable one.
- Utils.FormatNumberGroups: covers integers only. The fractional and exponent forms of `toString` are left out.
- CalculateStats.ParseFloat: reads the decimal forms the data uses (whitespace, sign, digits, point); the exponent form ("1e2" is 100 in JavaScript, 1 here) and "Infinity" are not modelled.
- Convert.ParseDate: a cell that already holds a `Date` carries its day number, and sub-day times are dropped.
