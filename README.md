# Milan air quality: dataset consolidation and dashboard queries

This project models the core of a small Streamlit dashboard on Milan's air
quality, and proves properties of that model.

- **Consolidation.** `create_database` (data_processing.py) builds a station
  registry from the stations' GeoJSON features. It then walks the yearly
  measurement files for 2016 to 2025 and passes every raw entry through an
  ordered validation pipeline: the four keys must be present, the station id
  must read as an integer and the value as a number, and the station must be
  registered. Each entry that survives is enriched with its station's name and
  coordinates and appended to the output list.
- **Loading.** `load_data` (app.py) reads that list back into a frame, parses
  the dates and drops rows whose value is null. At start-up the app builds the
  dataset if it is absent. On an empty frame it rebuilds once and reloads, and
  stops if the frame is still empty.
- **Queries.** The dashboard's queries over the frame:
  - the pollutant menu;
  - the station map points;
  - the yearly means and the trend between the first and last of them;
  - the five stations with the highest mean;
  - the years and stations offered for the detail view;
  - the daily series of one station in one year.

Modules:

- `Wrappers` (wrappers.dfy): `Option` and `Result`.
- `Collections` (collections.dfy): the ordering and de-duplication helpers the
  queries share.
  - `StrLess` is Python's string comparison, lexicographic by code point.
  - `SortedDistinct` plays `sorted(set(...))`.
  - `SortBy` is a sort by a total preorder.
  - `Dedup` plays `drop_duplicates`.
- `DataProcessing` (data_processing.dfy): `create_database`.
  - It is written imperatively: `BuildRegistry` and `CreateDatabase` are
    methods whose loops mirror the source. `CreateDatabase`'s year loop calls
    `AppendYear`, whose entry loop has a `continue` for each skipped entry.
  - They are proved equal to the functional definitions `RegistryOf` and
    `Database`, and the lemmas state their properties.
  - `int(...)`, `float(...)` and `str(...)` on raw JSON values are the
    abstract functions of a `Coercions` value. The two parses are partial
    (`Option`). In the entry pipeline their exceptions are caught and the
    entry is skipped; in the registry loop the `int(...)` of an `id_amat` is
    not caught, and its failure aborts the build (`UnparsableRegistryId`).
- `Loading` (loading.dfy): `load_data` and the start-up sequence.
  - dati.json is modelled by its parsed content, `None` while the file is
    absent.
  - `pd.to_datetime(..., errors="coerce")` is an abstract parameter that
    gives `None` (NaT) for a date it cannot read.
  - The `Session` class holds the file and the `st.cache_data` memo as
    fields.
- `Queries` (queries.dfy): the pandas expressions of app.py as functions over
  a sequence of rows. Means are over `real`.

## Model

| member | source | states |
|---|---|---|
| DataProcessing.BuildRegistry | data_processing.py:9-19 | the registry loop computes `RegistryOf`: no result until every feature's id_amat reads as an integer, otherwise the index of the first one that does not |
| DataProcessing.RegistryKeys | data_processing.py:12-19 | the registry's keys are exactly the coerced ids of the features, and each entry's `id` equals its key |
| DataProcessing.RegistryLastWriteWins | data_processing.py:14-19 | a feature that no later feature shares an id with determines that id's entry (last write wins) |
| DataProcessing.RegistryFailsOnFirstBadId | data_processing.py:13 | building the registry fails iff some id_amat does not read as an integer, and the failure names the first such feature |
| DataProcessing.RegistryFailurePersists | data_processing.py:12-13 | once a prefix of the features fails, the whole registry fails with the same error (the loop's early exit) |
| DataProcessing.IngestEntry | data_processing.py:32-57 | the validation pipeline in the source's order: missing key, station id not an integer, value not a number, unknown station; an entry passing all four checks is accepted; an accepted entry gives a record with the file's year, the raw date, the coerced id and value, the string form of the pollutant and the registry's name and coordinates |
| DataProcessing.AppendYear | data_processing.py:32-57 | the inner loop appends exactly the accepted records of one year's entries, in input order |
| DataProcessing.CreateDatabase | data_processing.py:9-57 | the whole build computes `Database`: the registry first, then the years 2016 to 2025 in order; a missing year file aborts the build |
| DataProcessing.YearRecordsAppend | data_processing.py:32-57 | one year's output over a concatenation of entry lists is the concatenation of the outputs |
| DataProcessing.SkippedEntryLeavesOutputUnchanged | data_processing.py:33-43 | an entry that the pipeline skips can be removed from the input without changing the output |
| DataProcessing.YearRecordsFromEntries | data_processing.py:32-57 | a year contributes at most one record per entry, and every record comes from an entry the pipeline accepts |
| DataProcessing.AcceptedEntryEmitted | data_processing.py:32-57 | every entry the pipeline accepts contributes its record to the year's output |
| DataProcessing.YearRecordsEnriched | data_processing.py:42-53 | every record of a year has that year and a registered station whose name and coordinates it copies (no orphans) |
| DataProcessing.ConsolidatedEnriched | data_processing.py:24-57 | after the years so far, every record is enriched, lies in the years processed, and there are no more records than entries |
| DataProcessing.ConsolidatedSorted | data_processing.py:24-57 | after the years so far, records are grouped by year in ascending order |
| DataProcessing.DatabaseShape | data_processing.py:9-57 | a built database has no orphans, faithful enrichment, years in 2016..2025, ascending year groups, and at most as many records as raw entries |
| DataProcessing.DatabaseFailsOnlyOnProvisioning | data_processing.py:13-29 | the build succeeds iff every id_amat reads as an integer and every year file 2016..2025 exists; bad entries never abort it |
| DataProcessing.ConsolidatedSucceedsIff | data_processing.py:24-29 | the year loop succeeds iff every year file up to the bound exists |
| DataProcessing.ConsolidatedYearSlice | data_processing.py:24-57 | the records of year y in the output are exactly that year's pipeline output, in input order |
| DataProcessing.DatabaseYearSlice | data_processing.py:24-57 | in a built database, the records of each year 2016..2025 are exactly that year file's accepted entries, in input order |
| DataProcessing.ValidEntryReachesDatabase | data_processing.py:24-57 | an entry of a year file with all four keys, an integer station id of a registered station and a numeric value is accepted and its record is in the built database |
| DataProcessing.OfYearIncluded | data_processing.py:24-57 | the records selected for one year are records of the database |
| DataProcessing.OfYearAppend | data_processing.py:24-57 | selecting one year distributes over concatenation (used for the year slices) |
| Loading.Dump | data_processing.py:60-62 | dati.json holds one object per record, each with its value present |
| Loading.Frame | app.py:25-31 | a row is in the frame iff it comes from a stored object with a non-null value, date parsed; so no row has a null value |
| Loading.FrameSnoc | app.py:25-31 | one more stored object adds its row at the end exactly when its value is non-null, and nothing otherwise |
| Loading.FrameAppend | app.py:25-31 | loading keeps file order: the frame of two concatenated files is the concatenation of their frames, so each kept row appears once per stored occurrence |
| Loading.FrameOfDump | app.py:25-31 | loading a freshly dumped database keeps every record, in order, field by field |
| Loading.ReadFrame | app.py:17-35 | an absent file gives the empty frame and a present one exactly its loaded frame; the frame is empty iff the file is absent or all its values are null |
| Loading.ReadFrameAsWritten | app.py:19-35 | `load_data` as written raises iff dati.json holds an empty list, and otherwise agrees with `ReadFrame` |
| Loading.StartupAsWrittenOf | app.py:12-47 | the start-up sequence as written: a ready frame is non-empty and is the first load (the memoised frame when one is held, else the read of dati.json); a non-empty first load is always the ready frame, a failing one always crashes with its error, and the app halts exactly when the rebuild succeeds and the first load is empty; a failed `create_database`, with dati.json absent or after an empty first load, crashes with that build's error |
| Loading.StartupOf | app.py:38-47 | the corrected start-up sequence: a non-empty first load is the ready frame; after an empty first load a ready frame is the load of the rebuilt database; a halt means the rebuild produced no record, and a crash is a failed build |
| Loading.StartupRecovers | app.py:41-47 | with the memo cleared after the rebuild, a rebuild that yields records always ends in a ready frame |
| Loading.CacheDefeatsRebuild | app.py:16-47 | as written, an empty first frame halts the app even when the rebuild yields records; the corrected sequence gets a ready frame |
| Loading.EmptyFileCrashes | app.py:19-35 | as written, a dati.json holding an empty list crashes start-up; the corrected sequence rebuilds and gets a ready frame |
| Loading.StaleMemoPersists | app.py:16-47 | as written, a run that starts with the memo holding an empty frame never gets a ready frame |
| Loading.Session.CreateDatabase | app.py:12-13 | the file is overwritten with the built database on success and left alone when the build fails; one more build is counted |
| Loading.Session.LoadDataAsWritten | app.py:16-35 | the memoised `load_data`: a held frame is returned without reading the file; a successful read is memoised |
| Loading.Session.LoadData | app.py:16-35 | the same with an empty list read as an empty frame |
| Loading.Session.ClearCache | app.py:16-17 | dropping the memo |
| Loading.Session.StartupAsWritten | app.py:12-47 | the start-up statements as written compute `StartupAsWrittenOf`; the final file is the built database whenever a build succeeded, the memo keeps the empty frame after a rebuild, and at most one rebuild follows the load |
| Loading.Session.Startup | app.py:38-47 | the start-up statements with the memo dropped after the rebuild compute `StartupOf`; the final file and memo are stated for every outcome, and at most one rebuild follows the load |
| Queries.Where | app.py:172 | a row is selected iff it is in the frame and matches the mask, and each selected row occurs as often as in the frame |
| Queries.WhereSnoc | app.py:172 | filtering a frame with one more row appends that row exactly when it matches |
| Queries.WhereAppend | app.py:172 | the filter distributes over concatenation, so it keeps frame order |
| Queries.Pollutants | app.py:56 | the pollutant menu is strictly ascending, has no duplicates, and holds exactly the codes present |
| Queries.PollutantMenuExample | app.py:56 | a frame with NO2, PM10 and NO2 offers exactly NO2 then PM10 |
| Queries.StationPoints | app.py:172-179 | the map points have no duplicate (name, lat, lon) and are exactly the points of the pollutant's rows, with lon = coordinate[0] and lat = coordinate[1] |
| Queries.SumBounds | app.py:211 | a sum of n values between lo and hi lies between n × lo and n × hi |
| Queries.MeanBetween | app.py:211 | a group's mean lies between the smallest and the largest value averaged |
| Queries.MeanOfConstant | app.py:211 | the mean of equal values is that value |
| Queries.YearsOf | app.py:211 | the group keys are strictly ascending and are exactly the years with a record of the pollutant |
| Queries.YearlyMean | app.py:211 | one entry per year with a record of the pollutant, ascending by year, each the mean of that year's values over a non-empty group |
| Queries.TrendOf | app.py:227-241 | no trend for an empty series; improvement iff the last mean is strictly below the first; the change is present iff the first mean is non-zero, and then change × first = (last − first) × 100 |
| Queries.TrendComparesEarliestAndLatestYear | app.py:211-241 | for a pollutant with records, the trend compares the mean of its latest year with the mean of its earliest year |
| Queries.TrendScenarios | app.py:227-241 | examples: 20 to 15 is an improvement of −25 %, equal means and a single year are a deterioration of 0 %, a zero first mean has no percentage |
| Queries.NamesOf | app.py:255 | the station group keys are strictly ascending and are exactly the stations with a record of the pollutant |
| Queries.StationMeans | app.py:255 | one entry per station with a record of the pollutant, each the mean of all that station's values |
| Queries.StationMeansMember | app.py:255 | each entry of the station means is a station with records of the pollutant and the mean of its values |
| Queries.ByMeanDescending | app.py:258 | sorting by mean descending gives a non-increasing permutation |
| Queries.TopByMean | app.py:258 | at most five entries, min(5, n) of them, non-increasing by mean, taken from the input; every entry left out has a mean no higher than any entry kept |
| Queries.TopByMeanSelection | app.py:258 | what is kept comes from the input, and every input entry whose station is dropped has a mean no higher than any kept |
| Queries.Ranking | app.py:255-258 | the top five: min(5, number of stations) pairs of distinct stations taken from the station means, each a station with records and the mean of all its values, non-increasing by mean; every station left out has a mean no higher than any station kept |
| Queries.RankingKept | app.py:255-258 | every kept pair is a station with records of the pollutant and the mean of its values |
| Queries.RankingOmitted | app.py:255-258 | every station with records that is left out has a mean no higher than any kept |
| Queries.AvailableYears | app.py:304 | strictly descending, exactly the years with a record of the pollutant |
| Queries.StationsFor | app.py:309 | strictly ascending, exactly the stations with a record of the pollutant in the year |
| Queries.DailySeries | app.py:313-317 | exactly the rows of the (year, station, pollutant) triple, each as often as in the frame, ascending by date with unreadable dates last; empty iff nothing matches |
| Queries.FreshFrameShape | app.py:25-31 | every row of a freshly built and loaded frame lies in 2016..2025 and names a registered station with that station's name and coordinates |
| Queries.OfferedYearsWithinPeriod | app.py:304 | the years offered for a freshly built dataset lie in 2016..2025 |

## Left out

- File and JSON I/O are inputs and outputs of the model: the GeoJSON features, the yearly files and dati.json. This covers `open`, `json.load`, `json.dump` and `os.path.exists`. A missing yearly file is modelled as an error; a missing or unreadable stations file is not.
- The parsing internals of `int`, `float`, `str` and `pd.to_datetime` are left out. They are abstract functions. Dates are pandas nanosecond timestamps (`int`), and NaT is `None`.
- The features' `nome`, `inquinanti` and `coordinates` properties are taken as already typed. Only `id_amat` goes through `int`. A feature whose properties are missing (a KeyError in the source) is not modelled.
- JSON round trips are taken as exact: dati.json holds what `json.dump` wrote. A value that `float` reads as NaN or infinity is not modelled, since values are `real`. In the source a NaN value is written as NaN and dropped by `dropna` on loading, while an infinite value is kept in the frame and enters the means.
- Floating-point rounding and the `:.1f` / `:.2f` formatting are left out. Means and the percentage use exact `real` arithmetic.
- Streamlit widgets, page layout, `st.error` and `st.stop` are left out; `st.stop` is the `Halted` outcome.
- The charts and the map are left out: matplotlib, seaborn and folium, including `crea_mappa` and its map-centre mean.
- The `descrizioni` text dictionary is left out; it is static content.
- Queries.TopByMean and Queries.DailySeries: they do not claim the order among ties, because pandas' `sort_values` is not stable by default.
- Queries.StationPoints: it does not state which occurrence `drop_duplicates` keeps, nor the order of the points, only that they are distinct and which points they are.
- Queries.StationPoints requires at least two coordinates on each of the pollutant's rows. The source indexes `x[0]` and `x[1]` without a guard and would raise otherwise.
- Queries.TrendOf gives `None` for an empty series. The source would raise IndexError at `iloc[0]`. That series cannot be empty in the app, because the pollutant comes from the menu of a non-empty frame.
- Queries.TrendOf: for a zero first mean the source divides by zero in NumPy (an infinite or NaN percentage, no exception); the model has no percentage there.
- The source computes the trend from a single year too, and reports a deterioration of 0 %; the model follows the source.
- The `st.cache_data` memo is modelled only for `load_data` within one start-up sequence; its lifetime across reruns and sessions is not.

## Findings

| source | as written | input that shows it | evidently intended | confidence | as-written member | corrected member |
|---|---|---|---|---|---|---|
| app.py:19-35 | `pd.DataFrame([])` has no "data" column, so `df["data"]` raises an uncaught KeyError | dati.json holding `[]` (a build in which every entry was skipped) | an empty list gives an empty frame, which reaches the rebuild-on-empty path | not executed | Loading.ReadFrameAsWritten (shown by Loading.EmptyFileCrashes) | Loading.ReadFrame |
| app.py:16-47 | `@st.cache_data` memoises the empty frame of the first load, so the reload at line 43 returns it again without reading the rebuilt file | dati.json whose rows all have null values, with source files that build a non-empty database | the reload after the rebuild reads the new file (the memo is cleared first), so a rebuild that yields records recovers | not executed | Loading.StartupAsWrittenOf (shown by Loading.CacheDefeatsRebuild) | Loading.StartupOf |
