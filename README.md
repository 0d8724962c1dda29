# iNaturalist observations: fetch and analysis, modelled in Dafny

The repository gathers iNaturalist observations of introduced and native
species for a fixed list of places. It then summarises them.

`get_data.py` handles the fetch. For every place it pages through the
observations API, first for introduced species and then for native ones.
A new page is requested while the previous one came back full. The nested
`taxon` object is flattened into `taxon__*` columns, and its
`common_name` object into `taxon__common_name_*` columns. Each row is
stamped with `introduced` and `place_id`, and the two batches are
concatenated. Four columns that cannot be pickled are deleted, and the
result is saved under the place's name.

`analyse_data.py` does the analysis:

- relabels the saved rows;
- counts observations per place and per (place, status), with
  percentages;
- counts the species per place and status (richness);
- builds the top-five species lists with an "Others" row;
- builds the yearly series of observation counts, from 2000 on;
- builds the month-of-year series, pooled over all years.

The model follows the code's own structure.

- `wrappers.dfy` holds Option and Result.
- `frames.dfy` models the pandas frames the fetch builds. A frame is a
  set of columns and a sequence of records. It provides:
  - `read_json` of a list of records, with missing cells as null;
  - row-wise `concat`;
  - `apply(pd.Series).add_prefix`, the expansion of a column of objects;
  - `drop` and `del` of a column;
  - `assign`.
- `paging.dfy` models `get_data`:
  - the endpoint is a function from a query to its sequence of page
    answers;
  - `FetchFrom` is the recursive function as written;
  - `ApiParams.GetData` is the same computation as a loop over the
    mutable parameter object.
- `normalise.dfy` covers taxon flattening, tagging and joining.
- `fetch_run.dfy` covers the per-place loop (`FetchPlace`, `FetchAll`).
  The saved files become a map from place name to table.
- `observations.dfy` holds the typed observation rows and the relabelling.
- `status_counts.dfy` holds counts, totals and percentages.
- `richness.dfy` holds the richness loop as a method. The method
  (`SpeciesRichness`) computes the corrected count, which leaves a missing
  common name out; the count as written is `RichnessAsWritten`.
- `top_species.dfy` holds grouping, sorting and the top list.
- `time_series.dfy` holds the yearly and monthly series.

Two behaviours of the code are easy to misread:

- **Yearly cutoff.** `df.index > "1999-12-31"` compares year-end labels,
  so the year 2000 is kept (`TimeSeries.Cutoff`).
- **Richness.** `Series.unique()` keeps a missing common name as a value
  of its own, so species richness counts it. This count is modelled as
  written (`RichnessAsWritten`) and reported under Findings; the loop
  method `SpeciesRichness` and the rest of the model use the corrected
  count.

## Model

| member | source | states |
|---|---|---|
| Frames.KeysOf | get_data.py:26 | every key of every record read is a column of the frame |
| Frames.FromRecords | get_data.py:26 | `read_json` gives one row per record and the union of the record keys as columns, every row holding every column |
| Frames.FromRecordsCells | get_data.py:26 | each cell of the frame read is the record's value, or null when the record lacks that key |
| Frames.Concat | get_data.py:30 | row-wise concat has the union of the columns and the rows of both frames, every row padded to all columns |
| Frames.ConcatCells | get_data.py:85 | after concat, rows of the first frame come first and rows of the second follow, each keeping its own cells, null elsewhere |
| Frames.ConcatFromRecords | get_data.py:28-31 | reading two record lists and concatenating them equals reading their concatenation, which is what makes paging transparent |
| Frames.ExpandRow | get_data.py:46-48 | a flattened row keeps its cells and gains `prefix+k` holding the nested field `k`, or null when the row's object lacks it |
| Frames.ExpandColumn | get_data.py:46-48 | `df[col].apply(pd.Series).add_prefix(p)` fails exactly when `col` is missing; otherwise the rows are kept and one column `p+k` is added per key found in any object of the column |
| Frames.DropColumn | get_data.py:57 | dropping a column fails exactly when it is missing; otherwise that column alone is removed and every other cell is kept |
| Frames.Assign | get_data.py:58 | `assign` adds the column with the same value in every row and keeps every other cell |
| Frames.PrefixedMember | get_data.py:47 | a prefixed column name comes from exactly one key of the nested objects |
| Frames.PrefixInjective | get_data.py:47 | different keys give different prefixed columns |
| Frames.KeysOfAppend | get_data.py:30 | the columns of a joined read are the columns of each part together |
| Frames.PadTwice | get_data.py:30 | padding a row to one column set and then to a larger one equals padding it once to the larger |
| Frames.ConcatRowTop | get_data.py:30 | row i of a joined read, for i in the first part, is that part's record padded to all columns |
| Frames.ConcatRowBottom | get_data.py:30 | row i of a joined read, for i in the second part, is the second part's record i minus the first part's length, padded |
| Paging.Answer | get_data.py:16-20 | every page past the last one the server holds answers 200 with no records |
| Paging.FetchFrom | get_data.py:14-31 | a fetch that fails does so with a non-200 HTTP status; a successful one is a rectangular frame |
| Paging.Requests | get_data.py:28-30 | the first request is for the starting page |
| Paging.RequestsConsecutive | get_data.py:29 | the pages requested are consecutive from the starting page |
| Paging.RequestsContinueIff | get_data.py:28-31 | another page is requested if and only if the previous one answered 200 with exactly `per_page` rows; a short or empty page ends the fetch |
| Paging.FetchFailsIff | get_data.py:21-24 | the fetch fails exactly when the last page requested answered with a status other than 200, and with that status; nothing partial is returned |
| Paging.FetchReadsAllRecords | get_data.py:26-31 | a successful fetch is the frame of all records of the pages read, in request order |
| Paging.FetchContinues | get_data.py:28-30 | a full page is read, and the rest of the fetch is appended to it |
| Paging.FetchShift | get_data.py:29-30 | fetching from page n+1 is fetching from page n of the server's remaining pages |
| Paging.RequestsShift | get_data.py:29-30 | the same shift holds for the number of requests |
| Paging.PaginateFetch | get_data.py:14-31 | for a server that splits any data set into pages of `per_page`, the fetch returns exactly that data set |
| Paging.PaginateRequestCount | get_data.py:28-31 | over such a server the fetch sends `n / per_page + 1` requests for n records, one of them empty when n is a multiple of `per_page` |
| Paging.PrependStep | get_data.py:30 | reading a full page puts its records ahead of those of the rest of the fetch |
| Paging.Range | get_data.py:29 | the consecutive pages `first..last` |
| Paging.RequestsUpTo | get_data.py:28-31 | when pages `first..last-1` are full and page `last` is not, the requests are exactly `first..last` |
| Paging.FetchAfterLoop | get_data.py:28-31 | the records gathered by the loop, read as one frame, are the recursive fetch's result |
| Paging.ApiParams.constructor | get_data.py:39 | the API parameters start at page 1, as each place's fetch resets them, with the configured `per_page` |
| Paging.ApiParams.GetData | get_data.py:14-31 | the paging loop requests the same pages and returns the same result or error as the recursive definition; `page` is left at the last page requested |
| Normalise.Flatten | get_data.py:46-57 | a flattened batch is rectangular again: every row holds every column |
| Normalise.CommonNameColumnIsPrefixed | get_data.py:52-54 | `taxon__common_name` is the `taxon__` prefix applied to the taxon key `common_name` |
| Normalise.FlattenFailsIff | get_data.py:46-57 | flattening fails exactly when the batch has no `taxon` column, or when no taxon in the batch has a `common_name` (so `taxon__common_name` is never created); the error names the missing column |
| Normalise.FlattenAddsColumns | get_data.py:46-57 | flattening keeps every column except `taxon__common_name`, drops that one, and adds only columns starting with `taxon__` |
| Normalise.FlattenKeepsCells | get_data.py:46-57 | every cell of a column not starting with `taxon__` is unchanged |
| Normalise.FlattenTaxonFields | get_data.py:46-48 | each taxon field `k` other than the common name becomes column `taxon__k` holding that field |
| Normalise.FlattenCommonNameField | get_data.py:49-57 | each field `k` of the common-name object becomes column `taxon__common_name_k` holding that field of the row's taxon common name |
| Normalise.Tag | get_data.py:58 | `assign(introduced=…).assign(place_id=…)` stamps both columns on every row and keeps every other cell |
| Normalise.NormaliseBatch | get_data.py:46-58 | a flattened and stamped batch is rectangular |
| Normalise.Combine | get_data.py:85-92 | the joined frame, with the four columns deleted, is rectangular |
| Normalise.FirstMissing | get_data.py:89-92 | the first of the deleted columns that is absent, if any |
| Normalise.CombineFailsIff | get_data.py:89-92 | joining fails exactly when one of the four deleted columns is absent from both batches, and the error names the first absent one in deletion order |
| Normalise.CombineRows | get_data.py:85-92 | the introduced rows come first and the native rows follow, each keeping every cell of a column that is not deleted |
| Normalise.PlaceRowsTagged | get_data.py:58-92 | in a place's table `introduced` is true exactly on the first part's rows, and every row carries the place id |
| Normalise.CombineStamp | get_data.py:58-92 | a column both batches carry, with one value per batch, keeps the first batch's value on its rows and the second's on the rest of the joined table |
| FetchRun.PlaceTable | get_data.py:36-92 | a place's table, when it is produced, is rectangular |
| FetchRun.FetchPlace | get_data.py:38-92 | one iteration sets `place_id`, fetches introduced then native observations each from page 1, and returns the place's table or the first error; the native query is sent only once the introduced batch was fetched and flattened; afterwards `page` is the last page requested and `introduced` is false exactly when the native query was sent, which every saved table implies |
| FetchRun.RunAll | get_data.py:36-94 | the run never loses a saved table |
| FetchRun.FetchAll | get_data.py:36-94 | the loop over the places saves each table under the place's name and stops at the first error, as the recursive definition does; `per_page` is never changed, and after a run with no error the parameters describe the last place's native query |
| FetchRun.PlaceTableTagged | get_data.py:58-92 | a saved table has the introduced then the native rows, one per observation fetched, `introduced` true exactly on the first part, every row carrying the place id, and none of the four nested columns |
| FetchRun.RunAllError | get_data.py:36-94 | the run reports an error exactly when some place fails, and then it is the error of the first failing place, all earlier places having succeeded |
| FetchRun.RunAllStored | get_data.py:94 | every place reached and succeeded has its table stored under its name |
| FetchRun.RunAllKeeps | get_data.py:94 | a name no place of the run carries keeps what the store held |
| FetchRun.DistinctNamesTail | get_data.py:36 | distinct place names stay distinct for the remaining places |
| FetchRun.NoIntroducedFails | get_data.py:43-47 | a place without introduced observations ends the run with a missing `taxon` column, since the empty batch has no columns |
| Observations.StatusOf | analyse_data.py:45-46 | `introduced` true becomes Introduced and false becomes Native |
| Observations.LocationOf | analyse_data.py:47 | a place id is replaced by the name of a place with that id; an id no place has is left as it is |
| Observations.LocationOfPlace | analyse_data.py:47 | with distinct ids, each place's id maps to that place's name |
| Observations.Label | analyse_data.py:45-47 | relabelling keeps the number and order of rows, their ids, species and dates |
| StatusCounts.CountAt | analyse_data.py:61 | a place's count is at most the number of rows |
| StatusCounts.CountAtStatus | analyse_data.py:64 | a (place, status) count is at most the place's count |
| StatusCounts.CountSplit | analyse_data.py:61-64 | a place's total is its introduced count plus its native count |
| StatusCounts.CountAtStatusPositive | analyse_data.py:64 | a (place, status) count is positive exactly when some row has that place and status |
| StatusCounts.Totals | analyse_data.py:61-62 | `groupby("place_id")` has one entry per place present in the rows |
| StatusCounts.Grouped | analyse_data.py:64 | `groupby(["place_id", "introduced"])` has one entry per pair present in the rows |
| StatusCounts.TotalsPositive | analyse_data.py:61 | every place total is positive |
| StatusCounts.GroupedKeys | analyse_data.py:64-68 | a pair is grouped exactly when it occurs in the rows, and its place then has a total, so the merge on `place_id` loses no row |
| StatusCounts.GroupedSumsToTotal | analyse_data.py:61-68 | a place's introduced and native counts add up to its total |
| StatusCounts.PercentageBounds | analyse_data.py:72-74 | `count / total * 100` lies between 0 and 100 when count is at most total |
| StatusCounts.Percentages | analyse_data.py:66-74 | the merged frame has one row per grouped pair, carrying its count and its place's total |
| StatusCounts.PercentagesInRange | analyse_data.py:66-74 | every percentage is `count / total * 100` with a positive total, and lies in 0..100 |
| StatusCounts.PercentagesSumTo100 | analyse_data.py:57-74 | a place's introduced and native percentages add up to 100 |
| StatusCounts.ShareOfPair | analyse_data.py:72-74 | the percentage of a pair, absent pairs counting 0, is its count over its place's total |
| StatusCounts.PercentagesOfSplit | analyse_data.py:72-74 | two counts adding up to a positive total give percentages adding up to 100 |
| Richness.RichnessAsWrittenCountsMissing | analyse_data.py:82-87 | `len(…Species.unique())` is the number of named species, plus one when some row of that place and status has no common name |
| Richness.SpeciesValuesSplit | analyse_data.py:82 | the values `unique()` sees are the named species, plus NaN exactly when some row of that place and status has no common name |
| Richness.RichnessAsWrittenExample | analyse_data.py:82 | one named and one unnamed introduced observation at a place give a richness of 2 where one species was named |
| Richness.SomeImage | analyse_data.py:82 | wrapping names does not merge any two of them |
| Richness.NamedSpeciesCons | analyse_data.py:82 | the named species of a non-empty row list are those of its tail plus the first row's |
| Richness.SpeciesCountBound | analyse_data.py:82-87 | a place's species count for a status is at most its observation count for that status |
| Richness.SpeciesCountPositive | analyse_data.py:82-87 | the species count is positive exactly when some row of that place and status names a species |
| Richness.SpeciesRichness | analyse_data.py:80-91 | the loop yields, for each place in order, an Introduced row then a Native row, each with the number of distinct named species of that place and status |
| TopSpecies.Find | analyse_data.py:161-163 | the index of the group of a species, or -1 exactly when no group has it |
| TopSpecies.FindDistinct | analyse_data.py:161-163 | with distinct species, the group found is the only one with that species |
| TopSpecies.Bumped | analyse_data.py:161-163 | counting one more observation keeps groups distinct and positive, adds one to the total, and adds one to that species' count alone |
| TopSpecies.SumUpdate | analyse_data.py:161-163 | raising one group's count by one raises the sum of counts by one |
| TopSpecies.SumAppend | analyse_data.py:161-163 | a new group adds its count to the sum |
| TopSpecies.GroupsCount | analyse_data.py:161-163 | `groupby(["Species","Introduced"]).count()` has one positive group per species; the counts add up to the named observations of that status, and each is that species' count |
| TopSpecies.GroupCount | analyse_data.py:161-163 | each group's count is its species' observation count, and it is positive |
| TopSpecies.GroupsSpecies | analyse_data.py:161-163 | a species has a group exactly when it has observations of that status |
| TopSpecies.Insert | analyse_data.py:164 | inserting a group keeps every group and adds one |
| TopSpecies.InsertBelow | analyse_data.py:164 | inserting a group keeps every count under a bound that all groups respect |
| TopSpecies.InsertSorted | analyse_data.py:164 | inserting into a list sorted by descending count keeps it sorted |
| TopSpecies.SortByCount | analyse_data.py:164 | sorting is a permutation of the groups |
| TopSpecies.SortByCountSorted | analyse_data.py:164 | the sort orders the groups by descending count |
| TopSpecies.SumRemove | analyse_data.py:175 | the sum of counts less one group is the sum less its count |
| TopSpecies.SumPermutation | analyse_data.py:164-175 | reordering the groups does not change the sum of their counts |
| TopSpecies.SumConcat | analyse_data.py:175 | the sum over a split list is the sum over its parts |
| TopSpecies.ListedCount | analyse_data.py:170 | `[:TOP_SSP]` keeps min(5, number of groups) rows |
| TopSpecies.SumTopListed | analyse_data.py:170 | the listed rows carry the counts of the first groups |
| TopSpecies.SumTopConcat | analyse_data.py:178 | the sum of counts over joined bar rows is the sum over each part |
| TopSpecies.TopListSum | analyse_data.py:167-178 | the listed counts plus "Others" add up to the counts of all groups |
| TopSpecies.CountSpeciesPositive | analyse_data.py:161-163 | a species has observations of a status exactly when some row of that status names it |
| TopSpecies.DistinctCard | analyse_data.py:161-163 | distinct groups are as many as their species |
| TopSpecies.GroupsLength | analyse_data.py:161-163 | there are as many groups as distinct named species of the status |
| TopSpecies.TopListOfRows | analyse_data.py:160-204 | for any descending order of the groups: min(5, species)+1 bars; each listed species with its own positive count; counts no smaller than any species left for "Others"; all bars adding up to the named observations of that status |
| TopSpecies.TopSpeciesOfRows | analyse_data.py:160-204 | the chart built from the sort has min(5, species)+1 bars, the last "Others" of the list's status; all bars add up to the named observations of that status |
| TopSpecies.TopListAsWrittenMislabels | analyse_data.py:196-203 | as written the introduced list is right, but the native list's "Others" row says Introduced, every other row being Native |
| TimeSeries.MonthKeyMonth | analyse_data.py:304 | a monthly bucket falls on the calendar month of its dates |
| TimeSeries.Years | analyse_data.py:240-241 | at most one year per row |
| TimeSeries.MonthKeys | analyse_data.py:292-298 | at most one month bucket per row |
| TimeSeries.Span | analyse_data.py:241 | resampling spans the first to the last dated bucket, both present, all others between; nothing when nothing is dated |
| TimeSeries.SumOccBetween | analyse_data.py:241 | adding up the bucket counts over a range counts each dated row of the range once |
| TimeSeries.BetweenStep | analyse_data.py:241 | extending a range by one bucket adds that bucket's count |
| TimeSeries.BetweenEmpty | analyse_data.py:241 | an empty range counts nothing |
| TimeSeries.OccYears | analyse_data.py:240-241 | a year bucket's `count()` is the number of rows of that status dated in that year |
| TimeSeries.YearsBetween | analyse_data.py:240-242 | the buckets from a year on hold the rows dated in that year or later |
| TimeSeries.MonthKeysBetween | analyse_data.py:292-310 | the monthly buckets on one month of the year hold the rows dated in that month |
| TimeSeries.YearsHas | analyse_data.py:240-241 | a year with a dated row of that status is a bucket key |
| TimeSeries.MonthKeysHas | analyse_data.py:292-298 | a month with a dated row of that status is reached by some bucket |
| TimeSeries.LowerBound | analyse_data.py:242 | below the first bucket nothing is counted, so the cutoff loses nothing beyond the early years |
| TimeSeries.SumYearsOcc | analyse_data.py:241 | the year buckets of a range add up to the counts over that range |
| TimeSeries.YearlyBuckets | analyse_data.py:240-248 | a status' yearly buckets are consecutive years from 2000 on; each counts the rows of that status dated that year; every year from 2000 on with such a row has a bucket |
| TimeSeries.YearlySum | analyse_data.py:240-248 | a status' yearly counts add up to its rows dated in 2000 or later |
| TimeSeries.YearlySeriesBuckets | analyse_data.py:235-250 | the plotted series is the native buckets then the introduced ones, each from 2000 on and counting its status and year |
| TimeSeries.MonthlyFrom | analyse_data.py:302-311 | the grouped frame is sorted by month and then type, Introduced before Native, with no pair repeated |
| TimeSeries.MonthlyPooled | analyse_data.py:292-311 | a (month, status) group, when present, pools all years: it counts the rows of that status dated in that month of any year |
| TimeSeries.MonthlyPresent | analyse_data.py:292-311 | a month with rows of a status has its group, holding their number |
| TimeSeries.MonthlyFromBucket | analyse_data.py:302-311 | each group of the grouped frame counts its status and month |
| TimeSeries.MonthlySeriesBuckets | analyse_data.py:292-311 | the monthly series has at most one group per (month, status), so at most 24, each counting that status in that month of any year |
| TimeSeries.MonthlyFromLength | analyse_data.py:308-311 | from month m on there are at most two groups per month |

## Left out

- HTTP, JSON decoding, YAML configuration, `slugify`, HDF5 reading and
  writing, plotting (seaborn, matplotlib, folium) and progress messages
  are not modelled. The endpoint is a function from the query to its page
  answers, and the saved files are a map from place name to table.
- Network failures other than a non-200 status, and the exception's
  message text, are not modelled.
- The column order of frames is not modelled: a frame's columns are a set.
- Duplicate column labels cannot be represented, because columns are a
  set. `pd.concat(axis=1)` keeps two columns under one label when a taxon
  field named `common_name_k` meets the common name's field `k`
  (get_data.py:49-57); Frames.ExpandRow keeps only the second expansion's
  value there. The iNaturalist taxon has no such field.
- Paging.FetchFrom and Paging.ApiParams.GetData assume a finite endpoint:
  every page past the last one given answers 200 with no records. An
  endpoint that always sends full pages makes get_data.py:28-30 recurse
  without end; the model cannot express it.
- Paging.FetchFrom and Paging.ApiParams.GetData require `per_page > 0`.
  The source does not check it; with `per_page` 0 every empty page counts
  as full and the fetch never stops.
- Paging.FetchFrom and Paging.ApiParams.GetData do not model Python's
  recursion limit: a fetch of more than about a thousand pages raises
  `RecursionError` in the source and succeeds in the model.
- Row order of grouped frames and the index are not modelled. Totals,
  groups and percentages are maps keyed by place or (place, status).
- Expanding a cell that is not an object contributes no sub-columns. In
  pandas, `pd.Series(nan)` adds a column named `0`; that quirk is not
  modelled.
- Percentages are exact rationals (`real`), not floating point.
- `pd.to_datetime` is not modelled. Dates arrive already parsed, and a
  missing date (NaT) is absent. An unparsable `observed_on` string makes
  `pd.to_datetime` raise and aborts the analysis; the model has no such
  input, since an unparsable date cannot be represented.
- The in-place `Timestamp` and `Counts` columns and the index are not
  modelled. The yearly and monthly series are computed directly from the
  rows.
- Resampling does not carry time zones or bucket labels; a bucket is a
  year or a month.
- `analyse_data.py:153-158` (the counts by species, status and place) is
  computed but never used, so it is not modelled.
- `analyse_data.py:223-229` (the statistics printout, which also refers
  to the loop's stale `val`) is output only.
- `analyse_data.py:267-285` (the regression plot) only feeds a plot.
- `constants.py`'s place list is not part of this model. The places are
  an input sequence with distinct ids and names.
- TopSpecies.TopListOfRows: the order among species with equal counts is
  not fixed, because `sort_values` is not stable. The contract therefore
  holds for every descending order of the groups.

## Findings

| source | as written | input that shows it | evidently intended | confidence | as-written member | corrected member |
|---|---|---|---|---|---|---|
| analyse_data.py:82-87 | `len(…Species.unique())` counts a missing common name (NaN) as one more species | at one place, an introduced "Gorse" observation and an introduced observation with no common name: richness 2 | the number of distinct named species, here 1 | not executed | Richness.RichnessAsWrittenExample | Richness.SpeciesRichness |
| analyse_data.py:196-203 | the native chart's "Others" row is built with `"Introduced": ["Introduced"]` | any native top list: its last row's status is Introduced and every other row's is Native | the "Others" row of the native list labelled Native | not executed | TopSpecies.TopListAsWrittenMislabels | TopSpecies.TopSpeciesOfRows |
