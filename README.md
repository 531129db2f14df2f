# EV dashboard aggregation layer, modelled in Dafny

The dashboard loads a CSV export of registered electric vehicles, turns each row
into an `EVData` record and feeds the record list to a set of aggregators in
`src/utils/dataParser.ts`. Those aggregators are lodash chains (`countBy`,
`groupBy`, `filter`, `orderBy`, `take`, `map`), and each one produces a
chart-ready summary:

- counts per make, county, CAFV eligibility and model year;
- the BEV/PHEV split with percentages;
- a five-bucket electric-range histogram and its fixed-order chart points;
- the rounded mean range;
- top-N lists;
- the year trend;
- county stacked bars;
- the area and scatter series;
- a descriptive summary;
- a conjunctive record filter.

The two per-cell callbacks of `parseCSVData` are modelled too: header renaming
and numeric coercion.

Every aggregator is a pure function of its input, so the model is made of
datatypes, functions and lemmas. The one exception is the `_.forEach` that
fills the year-distribution object. It is a loop, so it is modelled as a
method with a loop invariant.

## Modules

| module | what it models |
|---|---|
| `EvTypes` (evdata.dfy) | The record and chart types, and the two vehicle-type tags. |
| `Seqs` (seqs.dfy) | `_.filter`, `_.map`, `_.sumBy`, minimum and maximum. |
| `Sorting` (sorting.dfy) | One stable insertion sort, `SortBy(s, le)`. It stands for `_.orderBy`, `_.sortBy` and `Array.prototype.sort`, which are all stable. Stability means each class of equal-comparing elements keeps its input order (`ClassOf`). |
| `JsText` (jstext.dfy) | The JavaScript behaviour the aggregators depend on. |
| `Grouping` (grouping.dfy) | `_.groupBy`, `_.countBy`, `_.get` and `_.uniq`. |
| `Aggregates` (aggregates.dfy) | `processEVData` and the counting functions it calls. |
| `Adapters` (adapters.dfy) | The chart adapters: top-N, vehicle-type percentages, year trend and range chart. |
| `Series` (series.dfy) | `getStackedBarData` and `getAreaChartData`. |
| `Scatter` (scatter.dfy) | `getScatterChartData`. |
| `Summary` (summary.dfy) | `getDataSummary`. |
| `Filtering` (filters.dfy) | `filterEVData`. |
| `CsvFields` (csvfields.dfy) | The header map, the numeric field list and the two cell callbacks of `parseCSVData`. |
| `Scenarios` (scenarios.dfy) | Two concrete data sets: a three-vehicle King County fleet, and empty input. |

The JavaScript behaviour in `JsText` covers:

- rendering a number as a property name (`IntToString`);
- `_.toInteger` on a string (`ToInteger`);
- the default string order of `Array.prototype.sort` (`LexLe`);
- the order in which an object's keys are enumerated (`EnumerationRank`).

Grouping and counting keep two orders:

- buckets are created in first-occurrence order;
- an object is then enumerated with its array-index keys ("0" up to 2^32 - 2) first, ascending, and every other key in creation order (`ObjectGroupBy`).

## Model

| member | source | states |
|---|---|---|
| Grouping.CountByCorrect | src/utils/dataParser.ts:69-71 | `_.countBy` has one entry per distinct key, and each entry's value is the number of elements with that key (at least 1). Every element's key is listed. The values add up to the input length. Empty input gives no entries, and only empty input does. |
| Grouping.CountByOrder | src/utils/dataParser.ts:171-172 | The entries of a counting object enumerate in JavaScript key order: array-index keys first, ascending. |
| Grouping.ObjectGroupByCorrect | src/utils/dataParser.ts:358-360 | `Object.entries(_.groupBy(...))` has distinct keys, and each bucket holds exactly the elements with its key, in input order, and is non-empty. The buckets cover every element and their sizes add up to the input length. Buckets come in enumeration order, and buckets of equal rank keep first-occurrence order. |
| Grouping.GetGroupOfObjectGroupBy | src/utils/dataParser.ts:79-80 | `_.get(groups, tag, [])` gives exactly the records with that tag, and no records when no record has it. |
| Grouping.DedupCorrect | src/utils/dataParser.ts:255-256 | `_.uniq` has no duplicates, loses and adds no value, and keeps first-occurrence order. |
| Sorting.SortByStable | src/utils/dataParser.ts:173 | Under any total preorder, sorting keeps the relative order of elements that compare equal (`orderBy`, `sortBy` and `Array.prototype.sort` are stable). |
| Sorting.SortBySorted | src/utils/dataParser.ts:211 | Under any total preorder, the result of the sort is sorted. |
| Sorting.SortBy | src/utils/dataParser.ts:381 | The sort is a permutation: the multiset of elements is unchanged. |
| JsText.IntToStringInjective | src/utils/dataParser.ts:200 | Distinct numbers render to distinct property names, so grouping by the rendered key groups by the number. |
| JsText.ToIntegerOfString | src/utils/dataParser.ts:205 | `_.toInteger` of a number's rendering gives the number back. |
| JsText.ToIntegerTruncates | src/utils/dataParser.ts:53 | `_.toInteger` of "n.ddd" gives n: the fraction is truncated towards zero, for negative n too. |
| JsText.EnumerationRank | src/utils/dataParser.ts:360 | A key ranks among the array indices exactly when it is the canonical rendering of an integer from 0 to 2^32 - 2. |
| JsText.NatToStringIsArrayIndex | src/utils/dataParser.ts:200 | A rendered model year is an array-index key exactly when it is at most 2^32 - 2. |
| JsText.ArrayIndexCanonical | src/utils/dataParser.ts:360 | An array-index key is the rendering of its own value. |
| CsvFields.HeaderTableShape | src/utils/dataParser.ts:11-29 | The header map has 17 entries. Display names are distinct from each other, field names are distinct from each other, and no display name is also a field name. |
| CsvFields.RenameHeader | src/utils/dataParser.ts:50 | A known display header becomes a field name. Any other header passes through unchanged. |
| CsvFields.RenameHeaderAt | src/utils/dataParser.ts:11-29 | Each display header maps to the field name on its own row of the table. |
| CsvFields.RenameHeaderIdempotent | src/utils/dataParser.ts:50 | Renaming an already renamed header changes nothing. |
| CsvFields.RenameHeaderInjective | src/utils/dataParser.ts:11-29 | Two different display headers never become the same field. |
| CsvFields.NumericHeaders | src/utils/dataParser.ts:31-36 | Exactly the Model Year, Electric Range, Base MSRP and Legislative District headers are numeric after renaming. |
| CsvFields.TransformValue | src/utils/dataParser.ts:51-56 | A non-numeric field keeps its text. An empty numeric cell becomes 0. |
| CsvFields.NumericCellIsToInteger | src/utils/dataParser.ts:52-53 | Every numeric cell becomes `_.toInteger` of its text. |
| CsvFields.NumericCellRoundTrip | src/utils/dataParser.ts:53 | A numeric cell holding a rendered integer gives that integer back. |
| CsvFields.NumericCellTruncates | src/utils/dataParser.ts:53 | A numeric cell holding a decimal gives its integer part. |
| CsvFields.NonNumericCellIsZero | src/utils/dataParser.ts:53 | In the model, a numeric cell whose text starts with something other than a sign, a digit or a dot becomes 0. |
| CsvFields.TransformCell | src/utils/dataParser.ts:50-56 | Composing the two callbacks: the renamed header decides between `_.toInteger` of the text and the text itself. |
| Aggregates.ManufacturerCounts | src/utils/dataParser.ts:69-71 | One entry per distinct make. Each value is the number of records of that make (at least 1). Every record's make is listed. The values sum to the record count. The result is empty iff the input is. |
| Aggregates.CountyDistribution | src/utils/dataParser.ts:87-89 | The same group-count contract as ManufacturerCounts, per county. |
| Aggregates.CafvEligibilityStats | src/utils/dataParser.ts:137 | The same group-count contract as ManufacturerCounts, per CAFV eligibility string. |
| Aggregates.TagsDiffer | src/utils/dataParser.ts:38-41 | The BEV and PHEV tags are different strings. |
| Aggregates.VehicleTypeCountsOf | src/utils/dataParser.ts:76-82 | BEV counts exactly the records whose type is the exact BEV tag, and PHEV counts exactly the PHEV tag. BEV + PHEV is at most the record count, with equality iff every record carries one of the two tags. |
| Aggregates.BucketsPartition | src/utils/dataParser.ts:101-118 | The five range buckets are pairwise disjoint. A record is in some bucket iff its range is at least 0. |
| Aggregates.BucketCountsSum | src/utils/dataParser.ts:101-118 | The five bucket counts add up to the number of records with range at least 0. |
| Aggregates.RangeDistributionCounts | src/utils/dataParser.ts:94-120 | Each field counts the records whose range lies in its own interval: 0-50, 51-100, 101-200 and 201-300 inclusive, and above 300. The total is the number of records with range at least 0 (so at most the record count). |
| Aggregates.RoundedQuotient | src/utils/dataParser.ts:133 | `_.round` of a positive quotient is the nearest integer, with halves rounded up. |
| Aggregates.AverageRange | src/utils/dataParser.ts:129-134 | With no positive range the result is 0. Otherwise it is the mean of the positive ranges rounded to nearest, halves up. |
| Aggregates.AverageRangeBounds | src/utils/dataParser.ts:129-134 | When a positive range exists, the average lies between the smallest and the largest positive range, and is at least 1. |
| Aggregates.FillYearDistribution | src/utils/dataParser.ts:141-144 | The `_.forEach` loop builds the same object as indexing the year counts by `_.toInteger` of their keys, later keys overwriting earlier ones. |
| Aggregates.IndexByLookup | src/utils/dataParser.ts:141-144 | When the converted keys are distinct, each converted key maps to its own count, and no other key is present. |
| Aggregates.YearIndexCorrect | src/utils/dataParser.ts:140-144 | Every record's model year is a key of the year distribution, and each key maps to the number of records of that year. The result is empty iff the input is. This holds for any string-to-integer conversion that inverts the number rendering. |
| Aggregates.YearDistribution | src/utils/dataParser.ts:140-144 | The year distribution with `_.toInteger`: every model year is present, each value is the number of records of that year (at least 1), and the result is empty iff the input is. |
| Aggregates.ProcessEVData | src/utils/dataParser.ts:125-162 | `totalVehicles` is the record count. The make, county and CAFV counts each sum to it. BEV + PHEV and the histogram total never exceed it. Empty input gives an average of 0 and an empty year distribution. |
| Adapters.Take | src/utils/dataParser.ts:174 | `_.take(n)` returns the first min(n, length) elements, or none when n is 0 or less. |
| Adapters.TopCategories | src/utils/dataParser.ts:167-177 | Shared by `getTopManufacturers` and `getTopCounties`. The length is min(limit, number of keys), or 0 for a limit of 0 or less. Values are non-increasing. Every point is an entry of the input, with no percentage. Every entry left out counts no more than any entry kept. Among entries with equal counts, the kept ones are the first of the input, in input order. |
| Adapters.TopEntriesCorrect | src/utils/dataParser.ts:171-176 | The selected entries have the expected length, are sorted by descending count, and each comes from the input. |
| Adapters.TopEntriesLargest | src/utils/dataParser.ts:173-174 | Every entry left out has a count no larger than every entry kept. |
| Adapters.TopEntriesStable | src/utils/dataParser.ts:173 | Entries with equal counts come out in the input's order: the kept ones are a prefix of the input's entries with that count. |
| Adapters.TopEntriesIdempotent | src/utils/dataParser.ts:173-174 | Taking the top n of the top m (m at least n) equals taking the top n directly. |
| Adapters.Share | src/utils/dataParser.ts:191 | A total of 0 gives NaN, and only a total of 0 does. Otherwise the share is 100 * count / total rounded to nearest, halves up. |
| Adapters.VehicleTypeData | src/utils/dataParser.ts:182-193 | Two points, BEV then PHEV, named by the full tags and carrying the counts. Both percentages are NaN when both counts are 0. Otherwise each is 100 * count / total rounded to the nearest integer, halves up. |
| Adapters.VehicleTypeSharesSum | src/utils/dataParser.ts:186-191 | With a positive total, each percentage is between 0 and 100, and the two add up to 100 or 101 (101 when both round a half up). |
| Adapters.VehicleTypeDataNaN | src/utils/dataParser.ts:191 | As written, zero counts give a NaN percentage. The guarded version gives 0 instead. |
| Adapters.GuardedVehicleTypeData | src/utils/dataParser.ts:186-191 | The corrected adapter: the same names and values, and every percentage is a number (0 when the total is 0). |
| Adapters.GuardedSharesWhole | src/utils/dataParser.ts:191 | Every guarded percentage lies between 0 and 100. |
| Adapters.YearTrend | src/utils/dataParser.ts:198-213 | Years are strictly ascending, so there is one row per year. Each row's count is the number of records of its year, and its BEV and PHEV counts are the exact-tag records of that year, adding up to at most the count. Every record's year is listed. The counts sum to the record count. |
| Adapters.YearRowCorrect | src/utils/dataParser.ts:201-210 | A year bucket's row carries that year's count and its BEV and PHEV sub-counts. |
| Adapters.YearTrendRows | src/utils/dataParser.ts:199-210 | Every row of the trend carries the right counts for its year. |
| Adapters.YearTrendOrder | src/utils/dataParser.ts:211 | After `orderBy("year")` the years are strictly ascending. |
| Adapters.YearTrendCovers | src/utils/dataParser.ts:199-212 | Every model year appears, and the counts add up to the record count. |
| Adapters.RangeDistributionData | src/utils/dataParser.ts:233-245 | Always five points, named in the fixed bucket order, with no percentage. A missing key gives 0; a present key gives its value. |
| Adapters.RangeChartOfCounts | src/utils/dataParser.ts:233-245 | Applied to the histogram, the chart points carry the five bucket counts in order, and their values add up to the number of records with range at least 0. |
| Series.StackedBarData | src/utils/dataParser.ts:356-382 | One bar per distinct county, and every county appears. Totals (BEV + PHEV) are non-increasing. Each bar's BEV and PHEV are the exact-tag records of its county, and add up to at most that county's record count, which is at least 1. |
| Series.CountyBarCorrect | src/utils/dataParser.ts:361-375 | A county bucket's bar has BEV + PHEV at most the county's record count. |
| Series.StackedBarsCounts | src/utils/dataParser.ts:358-375 | Each bar carries the BEV and PHEV counts of its county. |
| Series.StackedBarsShape | src/utils/dataParser.ts:358-381 | Bars have distinct names, cover every county, and are sorted by descending total. |
| Series.StackedBarsStable | src/utils/dataParser.ts:381 | Counties with equal totals keep the order of `Object.entries` of the grouping. |
| Series.AreaChartData | src/utils/dataParser.ts:383-392 | Point names are strictly ascending in string order, so there is one point per year key. Each value is the number of records with that key (at least 1). Every record's year key is listed. The values sum to the record count. |
| Series.AreaChartOrder | src/utils/dataParser.ts:390 | After `sortBy("name")` the names are strictly ascending in string order. |
| Series.AreaChartCounts | src/utils/dataParser.ts:385-389 | Each point's value is the size of its year bucket. |
| Series.AreaChartCovers | src/utils/dataParser.ts:384-391 | Every record's year key is the name of some point. |
| Series.AreaChartSum | src/utils/dataParser.ts:384-391 | The point values add up to the record count. |
| Series.AreaChartYearsAscending | src/utils/dataParser.ts:390 | For four-digit years, string order is numeric order: an earlier point has the smaller year. |
| Series.AreaChartShortYear | src/utils/dataParser.ts:390 | Outside four digits string order is not numeric order: "2020" sorts before "999". |
| Scatter.ScatterKeySplit | src/utils/dataParser.ts:400 | The first "_" of a group key separates the rendered range from the rendered price. |
| Scatter.ScatterKeyInjective | src/utils/dataParser.ts:396 | Two records share a group key iff they have the same (range, price) pair. |
| Scatter.ScatterKeyNotIndex | src/utils/dataParser.ts:396-398 | No scatter key is an array index, so `Object.entries` lists the groups in first-occurrence order. |
| Scatter.SplitKeyOf | src/utils/dataParser.ts:400 | Splitting a record's key and converting both halves gives back its (range, price) pair. |
| Scatter.ScatterChartData | src/utils/dataParser.ts:394-412 | Every point has a positive price, points are sorted ascending by price, and no (range, price) pair appears twice. Each point's size is the number of records with its pair, and its make and model come from the first such record. Every record with a positive price is represented. The sizes sum to the number of records with a positive price. |
| Scatter.UnsortedPointsCorrect | src/utils/dataParser.ts:399-409 | Before filtering, each point's size, make and model are those of its (range, price) pair. |
| Scatter.UnsortedPointsDistinct | src/utils/dataParser.ts:396-409 | Before filtering, no (range, price) pair appears twice. |
| Scatter.ScatterOrder | src/utils/dataParser.ts:410-411 | After the filter and sort, pairs are distinct and prices ascend. |
| Scatter.ScatterPointsCorrect | src/utils/dataParser.ts:398-411 | Every output point has a positive price and the size, make and model of its pair. |
| Scatter.ScatterCovers | src/utils/dataParser.ts:396-411 | Every record with a positive price has its pair among the output points. |
| Scatter.GroupByPriced | src/utils/dataParser.ts:396-410 | The buckets whose key carries a positive price hold, together, as many records as have a positive price. |
| Scatter.ScatterGroupOrder | src/utils/dataParser.ts:398 | For scatter keys, enumeration order is creation order. |
| Scatter.ScatterSum | src/utils/dataParser.ts:405-410 | The sizes of the kept points add up to the number of records with a positive price. |
| Scatter.ScatterStable | src/utils/dataParser.ts:411 | Points with equal prices keep their first-occurrence order. |
| Summary.SmallestOrZero | src/utils/dataParser.ts:258 | `_.minBy(...) ... or 0`: 0 on no values; otherwise a listed value no larger than any value. |
| Summary.LargestOrZero | src/utils/dataParser.ts:259 | `_.maxBy(...) ... or 0`: 0 on no values; otherwise a listed value no smaller than any value. |
| Summary.DataSummaryOf | src/utils/dataParser.ts:250-277 | `totalRecords` is the record count. The unique make and county counts lie between 1 and the record count on non-empty input. The year bounds are attained and enclose every year, and are (0, 0) on empty input. The range bounds are the smallest and largest positive range, and are 0 when none exists. The median is taken as written, over the positive ranges sorted in string order, and lies between the range bounds. |
| Summary.SummaryBounds | src/utils/dataParser.ts:261-275 | The as-written (string-order) median of the positive ranges lies between their smallest and largest value. |
| Summary.UniqueBounds | src/utils/dataParser.ts:255-256 | A unique count is at most the record count, and at least 1 on non-empty input. |
| Summary.SummaryMatchesCounts | src/utils/dataParser.ts:255-256 | The unique make and county counts equal the number of entries of the make and county distributions. |
| Summary.UniqueCounts | src/utils/dataParser.ts:255-256 | `_.uniq(_.map(...)).length` equals the number of `_.countBy` entries, which is at most the record count. |
| Summary.PositiveRangesCorrect | src/utils/dataParser.ts:251 | `validRanges` holds exactly the positive ranges, and is empty iff no record has one. |
| Summary.MedianBetween | src/utils/dataParser.ts:264-274 | Whatever the sort order, the middle of the sorted values lies between any bounds of the values. |
| Summary.MiddleOfSorted | src/utils/dataParser.ts:268-273 | On a numerically sorted list, at least half the values are at most the middle and at least half are at least it. |
| Summary.NumericMedianHalves | src/utils/dataParser.ts:264-274 | The numeric median is a median: at least half the values lie on each side of it. |
| Summary.NumericMedianOfSorted | src/utils/dataParser.ts:268-273 | On already sorted values, the numeric median is the middle of the list as given. |
| Summary.MedianOfThree | src/utils/dataParser.ts:268-273 | For three ascending values, the median is the middle one. |
| Summary.MedianOfFour | src/utils/dataParser.ts:268-273 | For four ascending values, the median is the mean of the middle two. |
| Summary.ByDecimalSameWidth | src/utils/dataParser.ts:267 | For positive numbers of equal digit count, string order agrees with numeric order. |
| Summary.DecimalOrderMedianSameWidth | src/utils/dataParser.ts:267 | When all ranges have the same number of digits, the as-written median equals the numeric one. |
| Summary.DecimalOrderOfSmallNumbers | src/utils/dataParser.ts:267 | In string order 10 comes before 100, and 100 comes before 9. |
| Summary.DecimalSortExample | src/utils/dataParser.ts:267 | `.sort()` on [9, 10, 100] gives [10, 100, 9]. |
| Summary.DecimalOrderMedianWrong | src/utils/dataParser.ts:265-273 | On ranges [9, 10, 100] the as-written median is 100; the numeric median is 10. |
| Filtering.FilterEVData | src/utils/dataParser.ts:282-327 | No longer than the input. Every kept record comes from the input and passes the callback. A record that passes appears in the result as many times as in the input; one that fails does not appear. |
| Seqs.FilterCounts | src/utils/dataParser.ts:293-326 | `_.filter` keeps every occurrence of a passing element and no occurrence of a failing one. |
| Filtering.KeepMeetsEvery | src/utils/dataParser.ts:294-325 | A record passes iff all of these hold: it is in each supplied allow-list (make, type, county); it is within the inclusive year range when one is given; and it is at least a non-zero minRange and at most a non-zero maxRange. |
| Filtering.FilterEVDataSubsequence | src/utils/dataParser.ts:293-326 | The result is an order-preserving subsequence of the input. |
| Filtering.NoFiltersKeepAll | src/utils/dataParser.ts:282-327 | With no filter set, the input comes back unchanged. |
| Filtering.AllMakesKeepAll | src/utils/dataParser.ts:295-300 | A manufacturer list that contains every record's make keeps every record. |
| Filtering.EmptyListKeepsNone | src/utils/dataParser.ts:295-317 | An empty allow-list is still supplied (an array is truthy), so it rejects every record. |
| Filtering.FilterEVDataIdempotent | src/utils/dataParser.ts:293-326 | Filtering twice with the same filters equals filtering once. |
| Filtering.FilterEVDataTwice | src/utils/dataParser.ts:293-326 | Filtering with f and then g keeps exactly the records that pass both. |
| Filtering.FilterEVDataCommutes | src/utils/dataParser.ts:293-326 | The order in which two filters are applied does not matter. |
| Filtering.ZeroMaxRangeIgnored | src/utils/dataParser.ts:321-323 | As written, maxRange 0 keeps a range-100 record. The intended filter drops it. |
| Filtering.IntendedFilterEVData | src/utils/dataParser.ts:318-323 | The corrected filter (bounds tested for presence, not truthiness) keeps exactly the records that pass the corrected test. |
| Filtering.IntendedAgreesOffZero | src/utils/dataParser.ts:318-323 | When neither range bound is 0, the corrected filter and the as-written one agree. |
| Scenarios.KingVehicleTypes | src/utils/dataParser.ts:76-82 | Two Tesla BEVs and one Toyota PHEV in King County give BEV 2 and PHEV 1. |
| Scenarios.KingRanges | src/utils/dataParser.ts:94-120 | With ranges 250, 300 and 25, the histogram is 1, 0, 0, 2, 0. |
| Scenarios.TopOneOfUniqueMax | src/utils/dataParser.ts:167-177 | When one entry's count is larger than all others, the top-1 list is that entry alone. |
| Scenarios.KingTopManufacturer | src/utils/dataParser.ts:167-177 | For the same fleet, the top-1 manufacturer is Tesla with 2. |
| Scenarios.KingMakes | src/utils/dataParser.ts:69-71 | For the same fleet, the only makes with records are Tesla and Toyota. |
| Scenarios.KingBarNames | src/utils/dataParser.ts:356-382 | For the same fleet, there is one stacked bar and it is named King. |
| Scenarios.KingStackedBars | src/utils/dataParser.ts:356-382 | For the same fleet, the stacked bars are exactly [King: BEV 2, PHEV 1]. |
| Scenarios.EmptyInputTotals | src/utils/dataParser.ts:125-162 | With no records, the total and the average are 0, and every count is empty. |
| Scenarios.EmptyInputTypes | src/utils/dataParser.ts:76-82 | With no records, BEV and PHEV are both 0. |
| Scenarios.EmptyInputHistogram | src/utils/dataParser.ts:94-120 | With no records, all five buckets are 0. |

## Left out

- CSV tokenising (`Papa.parse`), `skipEmptyLines`, and the `console.warn` on parse errors. The tokenizer is a foreign library; only its two callbacks are modelled.
- `getAggregatedData`. It indexes records by field names chosen at run time, and its average is floating point.
- `getMemoizedProcessedData`. It is a process-wide memo cache, which is global mutable state rather than aggregation.
- The React components, the data-fetching hooks and the build configuration are not part of this model.
- Numbers are unbounded integers. Floating point is not modelled: the record fields are integers, the percentage and the mean are rounded with exact integer arithmetic, and the median is a `real`.
- Adapters.Share: a quotient that lies at or next to a half can round differently from the source. The source computes `(count / total) * 100` in floating point. For count 29 of 200 that is 14.499999999999998, which the source rounds to 14, while the exact 14.5 rounds to 15 here. Aggregates.AverageRange is exact in the same way.
- CsvFields.TransformValue: `_.toInteger` is modelled on plain decimal text: optional sign, digits, optional fraction. Exponents, hexadecimal (`0x`), binary (`0b`), octal (`0o`), `Infinity` and surrounding white space are not modelled; such text gives 0 here. Digit strings beyond the safe integer range are kept exact here, whereas the source first converts them to the nearest double: "9007199254740993" gives 9007199254740993 here and 9007199254740992 in the source.
- CsvFields.NonNumericCellIsZero: text that starts with white space or spells `Infinity` is a number in the source (" 42" gives 42, "Infinity" gives the largest double) but 0 in the model, for the reason given on the TransformValue line.
- CsvFields.RenameHeader: a header that names a property inherited from `Object.prototype` (such as "constructor") is treated as unknown, whereas the source would look that property up.
- Scatter.ScatterChartData: the source converts the two halves of a key with `Number`, while the model converts them with `_.toInteger`. The two agree on every rendering of an integer, which is all a key can contain.
- Series.AreaChartData: point names are the year keys as strings, ordered as strings (as the source does). Only for four-digit years is that numeric order (Series.AreaChartYearsAscending).
- Adapters.VehicleTypeData: the percentage is modelled as NaN when both counts are 0, as the source produces. The guarded variant is listed under Findings.
- Three behaviours of the code that a reader of the chart might not expect. The model follows the code each time:
  - The histogram total is the number of records with range at least 0, not every record (Aggregates.RangeDistributionCounts).
  - A zero total gives a NaN percentage, not 0 (Adapters.Share).
  - The summary's median is taken in string order (Summary.DataSummaryOf, through Summary.DecimalOrderMedian).
- `electricVehicleType` is an arbitrary string in the model. The TypeScript type allows only the two tags, but nothing checks the parsed CSV.

## Findings

| source | as written | input that shows it | evidently intended | confidence | as-written member | corrected member |
|---|---|---|---|---|---|---|
| src/utils/dataParser.ts:267 | `.sort()` with no comparator orders the ranges as strings before the middle is taken | ranges [9, 10, 100] sort to [10, 100, 9], giving median 100 | the numeric median, 10 | high (not executed) | Summary.DecimalOrderMedianWrong | Summary.NumericMedianHalves |
| src/utils/dataParser.ts:191 | `count / total` with no guard | BEV 0, PHEV 0 gives NaN percentages | a percentage of 0 when there are no vehicles | high (not executed) | Adapters.VehicleTypeDataNaN | Adapters.GuardedSharesWhole |
| src/utils/dataParser.ts:321-323 | `maxRange` is tested by truthiness, so 0 imposes no bound (likewise `minRange` at line 318) | maxRange 0 keeps a record with range 100 | maxRange 0 keeps only records with range at most 0 | medium (not executed) | Filtering.ZeroMaxRangeIgnored | Filtering.IntendedAgreesOffZero |
