# Netflix narrative visualization: verified model of the aggregation core

`NarrativeVisualization.js` draws three scenes of a scrolling story over a table of Netflix titles.
It loads the titles and turns each release year into a number. The smallest and largest year
become the bounds of a year slider. Each scene filters the titles released up to the slider
year, groups them by year and by a second key with `d3.rollup`, sorts the year rows and
computes the axis domains. Scenes 2 and 3 also build one line per key.

- Scene 1 groups by type. It reads out the "Movie" and "TV Show" counts, with 0 for a missing type.
- Scene 2 groups by rating.
- Scene 3 keeps only titles whose duration contains "Season". It groups by the number in the duration.

A controller holds the current scene index and the slider year. It redraws on every change and
enables or disables the previous and next buttons.

This project models that core in Dafny and proves what each step promises.

| module | file | what it models |
|---|---|---|
| `Extent` | `extent.dfy` | `d3.min` / `d3.max` over a sequence, with `None` for an empty one |
| `Grouping` | `grouping.dfy` | the two-level rollup in first-seen key order, the per-year tally, the sort by year, the `find`-or-0 lookup, and the per-key line series |
| `Durations` | `durations.dfy` | the substring test for "Season", the first maximal run of ASCII digits, and its decimal value |
| `DataStore` | `datastore.dfy` | the title record and the year range that seeds the slider |
| `Aggregator` | `aggregator.dfy` | the filters, the three scenes' rows, their domains and series, and the `season_count` annotation |
| `Controller` | `controller.dfy` | `class SceneController`: dispatch by index, button enablement, the slider and next/previous handlers |

Notes on the model:

- Counts are stated by multiset. For example, "the number of filtered titles of year `y` with rating `k`" is `multiset(Pairs(ts, Rating))[(y, k)]`.
- The rows of a rollup keep years and keys in the order they are first seen, as d3's `InternMap` does.
- The scene functions (`Scene1`, `Scene2`, `Scene3`) compute; the lemmas named below state what each result means.
- Scene 1 sorts the grouped rows first and reads out the two counts afterwards. The source reads out first and sorts afterwards. Both give the same rows, because the read-out keeps the year.
- The sort is an insertion sort. Any correct sort gives the same order here, because the years of a rollup are distinct.
- The scene-3 filter is a case-sensitive `includes('Season')` anywhere in the duration, and the
  season count is the value of the first maximal digit run anywhere in the duration. So
  "2 seasons" is dropped, and "Season 3 (2 parts)" is kept with count 3.
- The controller mutates its fields in place, like the module-level variables and button states
  of the source. `Valid()` is the invariant every handler keeps.

## Model

| member | source | states |
|---|---|---|
| Extent.MinOf | NarrativeVisualization.js:26 | `None` exactly for an empty sequence; otherwise an element of it that no element is below |
| Extent.MaxOf | NarrativeVisualization.js:27 | `None` exactly for an empty sequence; otherwise an element of it that no element exceeds |
| Extent.AscendingExtent | NarrativeVisualization.js:93 | for a non-empty strictly ascending sequence, the minimum is the first element and the maximum the last |
| DataStore.YearRange | NarrativeVisualization.js:26-27 | nothing exactly for an empty table; otherwise `min <= max`, every title's year lies in `[min, max]`, and both ends are the year of some title |
| Grouping.Distinct | NarrativeVisualization.js:241 | the result has no repeated element and holds exactly the elements of the input |
| Grouping.DistinctOrder | NarrativeVisualization.js:241 | `Distinct` lists the elements in the order of their first occurrence in the input |
| Grouping.DistinctOrderAt | NarrativeVisualization.js:241 | for any two positions of `Distinct`'s result, the earlier element first occurs earlier in the input |
| Grouping.BumpKeys | NarrativeVisualization.js:86 | counting one more `k` keeps the keys in order, appending `k` only when it is new |
| Grouping.BumpLookup | NarrativeVisualization.js:86 | counting one more `k` raises the count of `k` by one and leaves every other key's count unchanged |
| Grouping.BumpTotal | NarrativeVisualization.js:86 | counting one more `k` adds one to the sum of the counts and keeps every count at least 1 |
| Grouping.Tally | NarrativeVisualization.js:86 | the inner `v => v.length` of a group: its keys are the group's distinct keys, in first-seen order by `DistinctOrder`, each count is the number of occurrences, the counts sum to the group size, and every count is at least 1 |
| Grouping.KeysOfYearCount | NarrativeVisualization.js:86 | the group of year `y` holds each key as often as the input pairs it with `y` |
| Grouping.KeysOfYearLength | NarrativeVisualization.js:86 | the group of year `y` has one entry per input pair of that year |
| Grouping.Rollup | NarrativeVisualization.js:86-87 | computes the rolled-up rows; `RollupSummarizes` and `RollupRow` state what they hold |
| Grouping.RollupRow | NarrativeVisualization.js:86-87 | each rolled-up row counts its year. Keys are distinct and counts at least 1. The count of a key is the number of pairs of that year and key. The counts sum to the number of pairs of that year |
| Grouping.RollupSummarizes | NarrativeVisualization.js:86-87 | the rolled-up rows have a row for exactly the years of the input, no year twice, and every row counts its year |
| Grouping.InsertRow | NarrativeVisualization.js:91 | inserting a row gives a permutation of the rows plus that row |
| Grouping.SortRows | NarrativeVisualization.js:91 | the sorted rows are a permutation of the input rows |
| Grouping.InsertRowAscending | NarrativeVisualization.js:91 | inserting a row of a new year into strictly ascending rows keeps them strictly ascending |
| Grouping.SortRowsAscending | NarrativeVisualization.js:91 | sorting rows of distinct years gives strictly ascending years |
| Grouping.PermutedSummarizes | NarrativeVisualization.js:91 | reordering rows keeps the years they cover and the counts they hold |
| Grouping.SortedRollup | NarrativeVisualization.js:86-91 | the sorted rollup has one row per year of the input, in strictly ascending order, each counting its year |
| Grouping.SortedRollupAscending | NarrativeVisualization.js:91 | the sorted rollup is strictly ascending by year |
| Grouping.SortedRollupYear | NarrativeVisualization.js:86-91 | a year has a row in the sorted rollup exactly when it occurs in the input |
| Grouping.SortedRollupAt | NarrativeVisualization.js:86-91 | every row of the sorted rollup is a year of the input and counts that year |
| Grouping.SortedRollupKeys | NarrativeVisualization.js:86-91 | each sorted row's keys are the distinct keys of its year's pairs, in the order they first occur in the input |
| Grouping.Lookup | NarrativeVisualization.js:246 | computes the `find`-or-0 lookup; `LookupPresent` and `LookupAbsent` state what it returns |
| Grouping.LookupPresent | NarrativeVisualization.js:246 | when keys are distinct, finding a bucket's key returns that bucket's count |
| Grouping.LookupAbsent | NarrativeVisualization.js:246 | a key no bucket carries yields 0 |
| Grouping.KeysOfRowsMember | NarrativeVisualization.js:241 | a key is among the flattened bucket keys exactly when some row has a bucket for it |
| Grouping.Series | NarrativeVisualization.js:241-248 | computes the lines; `SeriesSpec`, `SeriesOrder` and `SeriesTallies` state what they hold |
| Grouping.SeriesSpec | NarrativeVisualization.js:241-248 | one line per key seen in any row, each key once. Each line has one point per row, carrying that row's year. A point's count is the row's bucket count for the key, or 0 when the row has no such bucket |
| Grouping.SeriesOrder | NarrativeVisualization.js:241 | every line's key occurs in the flattened row keys, and the lines come in the order their keys first occur there |
| Grouping.SeriesTallies | NarrativeVisualization.js:244-248 | over rows that count their years, each point's count is the number of pairs with the point's year and the line's key |
| Durations.Includes | NarrativeVisualization.js:335 | true exactly when the pattern occurs in the string at some position |
| Durations.HasDigit | NarrativeVisualization.js:339 | true exactly when some character is an ASCII digit |
| Durations.FirstDigit | NarrativeVisualization.js:339 | the position of a digit with no digit before it |
| Durations.RunEnd | NarrativeVisualization.js:339 | the end of the maximal digit run starting at a position: all digits up to it, and no digit right at it |
| Durations.FirstDigitRun | NarrativeVisualization.js:339 | the `/\d+/` match: a non-empty run of digits in the string, with no digit before it and none right after it |
| Durations.DecimalValue | NarrativeVisualization.js:339 | computes `parseInt` of a digit run; `DecimalRoundTrip` states that it inverts `Decimal` |
| Durations.SeasonCount | NarrativeVisualization.js:339 | computes the season count of a duration; `SeasonCountOfSpelled` and `SpelledIncludesSeason` state its value |
| Durations.Decimal | NarrativeVisualization.js:339 | the decimal spelling of a number is a non-empty run of digits |
| Durations.DecimalRoundTrip | NarrativeVisualization.js:339 | reading a number's decimal spelling back gives the number |
| Durations.SeasonCountOfSpelled | NarrativeVisualization.js:339 | a duration that starts with the spelling of `n`, followed by a non-digit or nothing, has season count `n` |
| Durations.SpelledIncludesSeason | NarrativeVisualization.js:335-339 | "`n` Season" and "`n` Seasons" pass the scene-3 filter, hold a digit, and have season count `n` |
| Aggregator.UpTo | NarrativeVisualization.js:84 | computes the year filter; `UpToCount` and `UpToMember` state what it keeps |
| Aggregator.UpToCount | NarrativeVisualization.js:84 | the year filter keeps each title of year at most the threshold as often as it occurs, and no other title |
| Aggregator.UpToMember | NarrativeVisualization.js:84 | a title passes the year filter exactly when it is in the data and released by the threshold |
| Aggregator.UpToPairCount | NarrativeVisualization.js:84-86 | for a year not after the threshold, the filter keeps the number of titles of each (year, key) |
| Aggregator.UpToYearCount | NarrativeVisualization.js:84-86 | for a year not after the threshold, the filter keeps the number of titles of that year |
| Aggregator.YearsUpTo | NarrativeVisualization.js:84 | a year occurs after filtering exactly when it is not after the threshold and occurs in the data |
| Aggregator.UpToTallies | NarrativeVisualization.js:84-86 | a row that counts a year of the filtered titles is not after the threshold and counts that year of all titles |
| Aggregator.Seasonal | NarrativeVisualization.js:335 | when every title passing the scene-3 filter holds a digit, every title it keeps does |
| Aggregator.SeasonalCount | NarrativeVisualization.js:335 | scene 3 keeps each title released by the threshold whose duration contains "Season", as often as it occurs, and no other |
| Aggregator.SeasonalMember | NarrativeVisualization.js:335 | a title is kept by scene 3 exactly when it is in the data, released by the threshold, and its duration contains "Season" |
| Aggregator.SeasonalYearsBound | NarrativeVisualization.js:335 | every year scene 3 keeps is at most the threshold |
| Aggregator.SeasonalYearsMonotone | NarrativeVisualization.js:335 | a year kept by scene 3 for a threshold is kept for every larger threshold |
| Aggregator.AnnotateSeasons | NarrativeVisualization.js:338-340 | the loop writes, for each kept title in order, the value of the first digit run of its duration |
| Aggregator.XDomain | NarrativeVisualization.js:93 | nothing exactly for no rows; otherwise both ends are row years and every year lies between them |
| Aggregator.YDomain | NarrativeVisualization.js:94 | nothing exactly for no counts; otherwise it starts at 0 and ends at a count that no count exceeds |
| Aggregator.Scene1 | NarrativeVisualization.js:84-91 | computes the scene-1 rows; `Scene1Spec`, `Scene1Row` and `Scene1Domains` state what they hold |
| Aggregator.Scene2 | NarrativeVisualization.js:219-225 | computes the scene-2 rows; `Scene2Spec`, `Scene2Keys`, `Scene2Domains` and `Scene2Series` state what they hold |
| Aggregator.Scene3 | NarrativeVisualization.js:335-349 | computes the scene-3 rows; `Scene3Spec`, `Scene3Keys`, `Scene3Domains` and `Scene3Series` state what they hold |
| Aggregator.Peaks | NarrativeVisualization.js:94 | computes each scene-1 row's larger count; `PeakDomain` states the y-domain it gives |
| Aggregator.CountsOfRows | NarrativeVisualization.js:228 | computes the flattened bucket counts; `CountsOfRowsMember` states which values they hold |
| Aggregator.TypeView | NarrativeVisualization.js:84-94 | computes what scene 1 draws: its rows and domains, stated by `Scene1Spec` and `Scene1Domains` |
| Aggregator.RatingView | NarrativeVisualization.js:219-248 | computes what scene 2 draws: rows, lines and domains, stated by `Scene2Spec`, `Scene2Series` and `Scene2Domains` |
| Aggregator.SeasonView | NarrativeVisualization.js:335-372 | computes what scene 3 draws: rows, lines and domains, stated by `Scene3Spec`, `Scene3Series` and `Scene3Domains` |
| Aggregator.Scene1Spec | NarrativeVisualization.js:84-91 | scene 1 has one row per year present after filtering, in strictly ascending order. `movies` is the number of that year's "Movie" titles and `shows` the number of its "TV Show" titles; either is 0 when the type is absent, and other types count toward neither |
| Aggregator.Scene1Ascending | NarrativeVisualization.js:91 | the rows of scene 1 are strictly ascending by year |
| Aggregator.Scene1YearSet | NarrativeVisualization.js:84-87 | a year has a scene-1 row exactly when it is not after the threshold and some title has it |
| Aggregator.Scene1Row | NarrativeVisualization.js:86-90 | each scene-1 row is not after the threshold and holds that year's "Movie" and "TV Show" counts |
| Aggregator.Scene2Spec | NarrativeVisualization.js:219-225 | scene 2 has one row per year present after filtering, strictly ascending. Each row's ratings are distinct and each count is at least 1. A rating's count is the number of that year's titles with that rating. The counts sum to the number of that year's titles |
| Aggregator.Scene2Keys | NarrativeVisualization.js:221-225 | a scene-2 row's ratings are the distinct ratings of that year's filtered titles, in the order they first occur in the data |
| Aggregator.Scene2YearSet | NarrativeVisualization.js:219-225 | a year has a scene-2 row exactly when it is not after the threshold and some title has it |
| Aggregator.Scene2Row | NarrativeVisualization.js:221-225 | each scene-2 row is not after the threshold and counts that year's ratings exactly |
| Aggregator.Scene3Spec | NarrativeVisualization.js:335-349 | scene 3 has one row per year of the kept titles, strictly ascending. Each row's season counts are distinct keys, each with count at least 1. A key's count is the number of kept titles of that year with that season count. The counts sum to the number of kept titles of that year |
| Aggregator.Scene3Keys | NarrativeVisualization.js:343-348 | a scene-3 row's season counts are the distinct season counts of that year's kept titles, in the order they first occur in the data |
| Aggregator.Scene3YearSet | NarrativeVisualization.js:335-349 | a year has a scene-3 row exactly when some kept title has that year |
| Aggregator.Scene3Row | NarrativeVisualization.js:343-348 | each scene-3 row is not after the threshold and counts that year's kept titles by season count exactly |
| Aggregator.CountsOfRowsMember | NarrativeVisualization.js:228 | a value is among the flattened bucket counts exactly when some bucket of some row has it |
| Aggregator.Scene1Domains | NarrativeVisualization.js:93-94 | with no rows both domains are undefined. Otherwise the x-domain is [first row's year, last row's year]. The y-domain ends at a movie or show count of some row that bounds both counts of every row |
| Aggregator.TypeDomains | NarrativeVisualization.js:93-94 | the same for any strictly ascending rows of scene-1 shape |
| Aggregator.TypeXDomain | NarrativeVisualization.js:93 | for ascending rows the x-domain is the first and the last year |
| Aggregator.PeakDomain | NarrativeVisualization.js:94 | the y-domain's end bounds both counts of every row and is one of them |
| Aggregator.RowDomains | NarrativeVisualization.js:227-228 | for ascending bucketed rows the x-domain is [first year, last year]. The y-domain's end bounds every bucket count and is one of them |
| Aggregator.SortedRollupCounts | NarrativeVisualization.js:228 | a non-empty sorted rollup has some bucket count, so its y-domain exists |
| Aggregator.Scene2Domains | NarrativeVisualization.js:227-228 | with no rows both domains are undefined. Otherwise the x-domain is [first row's year, last row's year], and the y-domain exists and ends at a bucket count that bounds every bucket count |
| Aggregator.Scene3Domains | NarrativeVisualization.js:351-352 | as for scene 2, over the scene-3 rows |
| Aggregator.Scene2Series | NarrativeVisualization.js:241-248 | one line per rating seen, each once, with one point per row carrying the row's year. A point's count is the number of filtered titles of that year and rating: the bucket count, or 0 when the rating is absent |
| Aggregator.Scene3Series | NarrativeVisualization.js:365-372 | one line per season count seen, each once, with one point per row carrying the row's year. A point's count is the number of kept titles of that year and season count: the bucket count, or 0 when absent |
| Aggregator.FiltersEmpty | NarrativeVisualization.js:84 | when every title is after the threshold, both filters keep nothing |
| Aggregator.EmptyBelowRange | NarrativeVisualization.js:84-91 | a threshold below the smallest release year gives no rows in any of the three scenes |
| Aggregator.YearsMonotone | NarrativeVisualization.js:84 | raising the threshold never removes a year from any scene |
| Controller.Render | NarrativeVisualization.js:431-438 | index 0, 1 and 2 select the type, rating and season scene respectively. This is a dispatch: the contents of each view are those of `TypeView`, `RatingView` and `SeasonView` |
| Controller.SceneController.constructor | NarrativeVisualization.js:456-458 | the slider spans exactly the data's year range and starts at its maximum. The index is 0 and scene 1 is shown for the maximum year. Next is enabled and previous disabled |
| Controller.SceneController.UpdateScene | NarrativeVisualization.js:431-453 | indices 0-2 redraw that scene for the year; any other index leaves the drawing unchanged. Next is disabled exactly when the index is not below 2, previous exactly when it is not above 0. Index and slider year are untouched |
| Controller.SceneController.OnSlider | NarrativeVisualization.js:461-465 | the slider year becomes the input, the index is unchanged, the current scene is redrawn for the new year, and the invariant holds |
| Controller.SceneController.Next | NarrativeVisualization.js:468-473 | the index goes up by one only below 2, the slider year is unchanged, nothing is redrawn at the last scene, and the invariant holds |
| Controller.SceneController.Prev | NarrativeVisualization.js:475-480 | the index goes down by one only above 0, the slider year is unchanged, nothing is redrawn at the first scene, and the invariant holds |
| Controller.NavigationBounds | NarrativeVisualization.js:468-480 | five previous presses from the start stay at scene index 0 with previous disabled; five next presses then stop at index 2 with next disabled |

## Left out

- Drawing: scales, axes, line generators, circles, tooltips, annotations, labels, titles, descriptions, colours and listener registration. These are d3/DOM calls. A "draw" is modelled as the `SceneView` value the controller stores in `shown`.
- Loading the CSV (line 1). This is I/O; the titles are a constructor parameter.
- Titles as records: the model keeps only the four columns the core reads.
- The in-place numeric conversion of `release_year` (lines 21-23) and of the slider value (line 462). Years enter the model as integers already, and `NaN` is not modelled.
- Number widths: JavaScript numbers are doubles; years, counts and parsed season numbers are unbounded integers here. `parseInt` losing precision above 2^53 is not modelled.
- Controller.SceneController.constructor: requires a non-empty table. With no titles the source's years are `undefined` and scene 1's drawing code fails.
- Scene 3 and the controller require every title that passes the scene-3 filter (up to the slider's maximum) to hold a digit. Otherwise the source's `match` returns null and line 339 throws.
- The crash of the drawing code on an empty row array (lines 163 and 284). The model returns empty rows and `None` domains instead.
- Aggregator.AnnotateSeasons: the source writes `season_count` onto the shared title objects. The model returns the counts as a new sequence, so the aliasing of those writes is not captured. Scene 3 reads the counts through `SeasonPairs`.
- Controller.SceneController.OnSlider: requires the value to lie in `[minYear, maxYear]`. The range input the handler listens to only reports such values, and the handler itself does not clamp.
- Pixel arithmetic (`width / 2`, margins, `x(year - 5)`). These are floating-point scale mappings.
- Concrete small datasets (for example, scene 3 with "3 Seasons", "1 Season" and "90 min" titles) are not stated as lemmas; the solver cost of evaluating the rollups on literal data is too high. The general lemmas fix such results: `Scene3Spec` gives each bucket's count, `SeasonalMember` drops "90 min", and `Scene3Keys` puts the season counts in first-seen order.
- Repeated calls of an aggregator get no lemma of their own: the aggregators are Dafny functions, so equal arguments give equal results.
