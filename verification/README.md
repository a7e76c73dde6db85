# Consumption / weather / calendar data preparation, in Dafny

This project models the data-preparation core of an ETL pipeline. The
pipeline forecasts French electricity consumption. The core covers:

- **Calendar** (`calendar.dfy`, module `Calendar`):
  - the 2026 school-vacation periods expanded into one row per day;
  - those rows combined with the public-holiday table and sorted by date;
  - the dense hourly calendar;
  - the per-day aggregation of the holiday and vacation flags;
  - the left join of that aggregate onto the hourly calendar, with its defaults.
- **Weather** (`meteo.dfy`, module `Meteo`):
  - the row builder, where `ensoleillement = 100 - cloudcover`;
  - the validator: forward linear interpolation, median repair of out-of-range values, deduplication on `datetime`.
- **Prices** (`prix.dfy`, module `Prix`):
  - the deterministic part of the simulated spot price: the hour band, the weekend discount and the 30 EUR/MWh floor;
  - the price validator: drop of incomplete rows, median repair outside [0, 500], deduplication.
- **Fusion** (`fusion.dfy`, module `Fusion`), `transform_data`:
  - the inner join of consumption and weather on `datetime`;
  - the removal of `_meteo` duplicates and `created_at`;
  - the five temporal features;
  - the final `dropna`, with the printed deleted-row count;
  - the `KeyError` of the correlation step when there is no `mw_conso` column.
- **Features** (`features.dfy`, module `Features`), `prepare_features`:
  - the required-column check;
  - the drop of rows missing the target or a feature;
  - the split into `X` and `y`.

Shared modules:

- `Wrappers` holds `Option` and `Result`.
- `Seqs` holds:
  - `Filter`;
  - key sets and uniqueness;
  - pandas `drop_duplicates(keep="first")`;
  - a stable sort by key.
- `Columns` holds pandas' one-column operations: `interpolate(method="linear")`, `median()` that skips missing values, and replacement of out-of-range values.
- `CivilTime` holds the calendar arithmetic.

Representation choices:

- A timestamp is an integer count of hours since 2026-01-01 00:00, which is a Thursday. So `dt.dayofweek` is `(3 + h / 24) % 7`, with Monday as 0.
- A date is a day number counted from the same origin. It comes with a proleptic Gregorian conversion to (year, month, day) and back.
- A missing value (NaN, None, NaT) is `None`.
- Floats are Dafny `real`s.

Behaviour of the code that the model keeps:

- **Trailing gaps.** pandas' default forward interpolation fills the gaps after the last known value with that value (`Columns.InterpolateAt`, `Columns.Interpolate`). Gaps before the first known value stay missing.
- **What the fusion joins.** `transform_data` joins only consumption and weather. The calendar and the prices are not joined there, and the model has no such join.
- **Empty join.** An inner join that matches no hour gives an empty table, and `transform_data` carries on with it (`Fusion.Fuse`).
- **Missing consumption column.** The correlation step reads `mw_conso` because `heure` is always present, so `transform_data` raises `KeyError` when neither input has that column (`Fusion.TransformData`, `Fusion.TransformFailure`).

## Model

| member | source | states |
|---|---|---|
| Calendar.RangeDays | src/load_jours_feries.py:66-70 | a vacation period has one day per calendar day from its start to its end inclusive, and none exactly when the end precedes the start |
| Calendar.ExpandRange | src/load_jours_feries.py:65-73 | a period yields exactly `RangeDays` rows; row i is the start day plus i, typed "vacances" and named after the period |
| Calendar.ExpandRangeMembers | src/load_jours_feries.py:65-73 | a row belongs to a period's expansion iff it is typed "vacances", carries the period's name and falls on a day the period covers |
| Calendar.ExpandVacances | src/load_jours_feries.py:64-73 | all periods together yield the sum of their day counts, every row a named "vacances" row |
| Calendar.ExpandVacancesMembers | src/load_jours_feries.py:64-73 | a row is in the expansion iff it is a "vacances" row whose name and day match some period covering that day |
| Calendar.Vacances2026Days | src/load_jours_feries.py:56-62 | the five hard-coded 2026 periods last 16, 16, 59, 16 and 0 days; Christmas ends before it starts and contributes nothing; 107 rows in all |
| Calendar.Vacances2026Rows | src/load_jours_feries.py:56-75 | the vacation table is the expansion of the five periods and has 107 rows |
| Calendar.EnrichWithVacances | src/load_jours_feries.py:78-79 | the combined table has `|feries| + 107` rows, is sorted by non-decreasing date and is a permutation of holidays followed by vacation rows |
| Calendar.EnrichMembers | src/load_jours_feries.py:78 | a row is in the combined table iff it is a holiday row or a vacation row |
| Calendar.EnrichStable | src/load_jours_feries.py:79 | within one day the combined table keeps the holiday rows, then the vacation rows, in input order |
| Calendar.CreateHourlyCalendar | src/load_jours_feries.py:101-105 | 24 rows per day from start to end inclusive, consecutive hours from start 00:00 to end 23:00, each with its day as `date` |
| Calendar.HourlyCalendarHours | src/load_jours_feries.py:101 | the calendar's hours are unique and are exactly the hours from start 00:00 to end 23:00 |
| Calendar.HourlyCalendar2026 | src/load_jours_feries.py:87 | the default calendar from 2026-01-01 to 2026-12-31 has 8760 hours |
| Calendar.AnyOn | src/load_jours_feries.py:126-134 | the group-by `max` of a flag is true iff some row of that day has the flag |
| Calendar.FirstLabel | src/load_jours_feries.py:134 | the group-by `first` name is the first non-missing name of the day, and missing iff every name of that day is missing |
| Calendar.GroupByDate | src/load_jours_feries.py:132-136 | the aggregate has one row per distinct day of the table, with unique days, each row carrying that day's flags |
| Calendar.MatchesOf | src/load_jours_feries.py:139 | the aggregate rows matching a day are rows of the aggregate with that day, none iff no row has it |
| Calendar.MatchesUnique | src/load_jours_feries.py:139 | with unique days in the aggregate each hour matches at most one row |
| Calendar.JoinOne | src/load_jours_feries.py:139 | a left join keeps every calendar hour at least once |
| Calendar.LeftJoinByDate | src/load_jours_feries.py:139 | the left join has at least as many rows as the calendar |
| Calendar.Lookup | src/load_jours_feries.py:139 | the looked-up aggregate row has the hour's day, and is absent iff no aggregate row has it |
| Calendar.LeftJoinUnique | src/load_jours_feries.py:132-139 | with a unique-day aggregate the join keeps the calendar's row count and order and pairs each hour with its day's row |
| Calendar.FillDefaults | src/load_jours_feries.py:142-144 | an hour without a matching day gets false, false and ""; otherwise its day's flags, with a missing name as "" |
| Calendar.FillAll | src/load_jours_feries.py:142-144 | filling applies to every joined row, one output per row |
| Calendar.MergeCalendarWithFeries | src/load_jours_feries.py:139 | the merged calendar has at least as many rows as the calendar (the hour-by-hour statement is `Calendar.MergeCalendarWithFeriesSpec`) |
| Calendar.JoinedFlags | src/load_jours_feries.py:126-144 | one hour paired with its aggregate row gets the holiday flag iff its day has a "fixe" or "mobile" row, the vacation flag iff its day has a "vacances" row, and its day's first name |
| Calendar.NoRowsOnDay | src/load_jours_feries.py:126-136 | a day with no special-day row has neither flag and no name |
| Calendar.MergeCalendarWithFeriesSpec | src/load_jours_feries.py:126-144 | the merged calendar has the calendar's length and order, and every hour carries its day's flags and name as above |
| Calendar.MergeDefaults | src/load_jours_feries.py:139-144 | an hour whose day has no special-day row is neither holiday nor vacation and has the name "" |
| Calendar.VacationRowsOnDay | src/load_jours_feries.py:56-79 | the combined table has a "vacances" row on a day iff the holiday table has one or a 2026 period covers it |
| Calendar.VacationHours | src/load_jours_feries.py:56-144 | in the merged calendar an hour is a vacation hour iff the holiday table has a "vacances" row for its day or a 2026 period covers it |
| CivilTime.HourOfDay | src/etl_fusion_donnees.py:104 | the hour of a timestamp is in [0, 23] and, with the day index, recomposes the timestamp |
| CivilTime.DayOfWeek | src/etl_fusion_donnees.py:105 | the weekday is in [0, 6] |
| CivilTime.NextDay | src/etl_fusion_donnees.py:105 | the origin is a Thursday, and one day later the weekday advances by one modulo 7 at the same hour |
| CivilTime.DateOfDay | src/load_jours_feries.py:104-105 | every day number is the day of a valid calendar date |
| CivilTime.DateOfDayNumber | src/load_jours_feries.py:66-67 | a valid date converted to its day number and back is the same date |
| CivilTime.DayNumberOrder | src/load_jours_feries.py:70 | an earlier date has a smaller day number |
| CivilTime.MonthOf | src/etl_fusion_donnees.py:106 | the month of a timestamp is in [1, 12] |
| CivilTime.DayOfMonth | src/etl_fusion_donnees.py:107 | the day of the month is in [1, 31] |
| CivilTime.MonthAndDayOfTimestamp | src/etl_fusion_donnees.py:106-107 | the month and day of a timestamp form a valid date of some year |
| CivilTime.SaturdayMorning | src/etl_fusion_donnees.py:104-108 | hour 56 is 2026-01-03 08:00, a Saturday: hour 8, weekday 5, a weekend, January 3 |
| Columns.PrevKnown | src/collect_meteo.py:92 | the interpolation's left anchor is the last known position before i, and none exists iff everything before i is missing |
| Columns.NextKnown | src/collect_meteo.py:92 | the right anchor is the first known position after i, and none exists iff everything after i is missing |
| Columns.InterpolateAtInterior | src/collect_meteo.py:92 | a gap between two known values gets the value on the line between them, by row position |
| Columns.InterpolateAtTrailing | src/collect_meteo.py:92 | a gap after the last known value gets that value |
| Columns.Interpolate | src/collect_meteo.py:92-94 | interpolation keeps every known value, fills interior gaps linearly and trailing gaps with the last value, and leaves leading gaps missing |
| Columns.InterpolateNoGap | src/collect_meteo.py:88-94 | a column without gaps is unchanged by interpolation |
| Columns.KnownIsFilter | src/collect_meteo.py:108 | the median's input is the present values of the column, in row order and with their multiplicities, exactly as `dropna()` keeps them |
| Columns.MedianOfPermutation | src/collect_meteo.py:108 | the median of a list is absent iff the list is empty, and otherwise it is the middle of any sorted arrangement of the list (the mean of the two middle values for an even length) |
| Columns.MedianOfColumn | src/collect_meteo.py:108-110 | the column median is the middle of any sorted arrangement of its present values, whatever the row order, and missing iff no value is present |
| Columns.MedianWithin | src/collect_meteo.py:108-110 | the median lies within any bounds that enclose every value |
| Columns.MedianOfSortedColumn | src/collect_meteo.py:108 | for a gap-free column already in order the median is its middle value, or the mean of its two middle values |
| Columns.ReplaceOutliers | src/collect_meteo.py:99-110 | a value outside [lo, hi] becomes the median of the column before repair, and that median exists; every other cell, including every missing one, is unchanged |
| Columns.ReplaceOutliersInRange | src/collect_meteo.py:108-110 | when the pre-repair median is in range no value is out of range after repair |
| Columns.RepairExample | src/collect_meteo.py:99-110 | in the column `[10, 10, 10, 1000]` with range [0, 100] the median is 10 and the outlier 1000 becomes 10, the median taken before repair |
| Meteo.Sunshine | src/collect_meteo.py:61 | sunshine is present iff cloud cover is, and the two sum to 100 |
| Meteo.SunshineRoundTrip | src/collect_meteo.py:61-64 | the dropped cloud cover can be recovered from the sunshine value |
| Meteo.BuildMeteoRows | src/collect_meteo.py:49-64 | building fails on the first absent key among time, temperature_2m, windspeed_10m and cloudcover, or on unequal lengths; otherwise one row per time carrying that time, the temperature, the wind and `100 - cloudcover`, with no cloud-cover field |
| Meteo.Filled | src/collect_meteo.py:87-94 | after the missing-value step known values are unchanged and every value after a known one is present |
| Meteo.FilledIsInterpolation | src/collect_meteo.py:87-94 | skipping interpolation when nothing is missing gives the same column as interpolating |
| Meteo.CleanValues | src/collect_meteo.py:87-110 | cleaning keeps the row count and timestamps and gives each column its interpolated, then repaired, values |
| Meteo.CleanValuesCell | src/collect_meteo.py:87-110 | an unflagged cell keeps its interpolated value, a flagged cell gets the column median, a known value is never lost, and a missing value is filled only when something was missing |
| Meteo.ValidateMeteo | src/collect_meteo.py:112-114 | validation leaves unique timestamps, exactly the input's set of timestamps, one row per timestamp, each a cleaned row, and changes nothing when timestamps were already unique |
| Meteo.CleanValuesInRange | src/collect_meteo.py:99-110 | when every column's pre-repair median is in range, every cleaned row is in range |
| Meteo.ValidateMeteoInRange | src/collect_meteo.py:99-114 | under the same condition every validated row is in range: temperature in [-30, 50], wind in [0, 200], sunshine in [0, 100] |
| Meteo.OutlierCanSurvive | src/collect_meteo.py:108-110 | a single row at 60 degrees stays at 60 after repair, because the median is itself out of range |
| Prix.HourlyPrice | src/scrape_prix_electricite.py:38-43 | the hourly profile is 100 for hours 8 to 20 inclusive and 90 otherwise |
| Prix.ExpectedPrice | src/scrape_prix_electricite.py:52-60 | on Saturdays and Sundays the profile is multiplied by 0.85, otherwise unchanged, so it lies in [76.5, 100] |
| Prix.SimulatedPrice | src/scrape_prix_electricite.py:62 | a price is `max(30, expected + noise)`: at least 30 for any noise, and at most 500 when the noise is at most 400 |
| Prix.HourCount | src/scrape_prix_electricite.py:36 | the hourly range has both ends included and is empty iff the end precedes the start |
| Prix.SimulatePrices | src/scrape_prix_electricite.py:36-65 | one row per hour of the range with the simulated price, at least 30, timestamps unique and consecutive |
| Prix.RepairPrices | src/scrape_prix_electricite.py:117-124 | a price below 0 or above 500 becomes the median of the column before repair; every other row is unchanged |
| Prix.CompleteKeys | src/scrape_prix_electricite.py:110-113 | dropping incomplete rows leaves exactly the timestamps that had a price |
| Prix.ValidatePrices | src/scrape_prix_electricite.py:109-130 | validation leaves complete rows with unique timestamps, exactly the timestamps that had a price, no more rows than the input, each a repaired complete row |
| Prix.ValidatedRowOrigin | src/scrape_prix_electricite.py:110-130 | each validated row comes from an input row with a price at the same timestamp, unchanged unless flagged, and otherwise given the median of the complete prices |
| Prix.ValidatePricesInRange | src/scrape_prix_electricite.py:117-124 | when the median of the complete prices is in [0, 500], every validated price is |
| Prix.SimulatedPricesValid | src/scrape_prix_electricite.py:109-130 | a simulated series with noise at most 400 passes validation unchanged |
| Prix.RepairPricesInRange | src/scrape_prix_electricite.py:117-124 | repair leaves an all-in-range column untouched |
| Seqs.FilterMembers | src/scrape_prix_electricite.py:113 | a row survives a filter iff it was in the input and passes the test |
| Seqs.FilterIdentity | src/scrape_prix_electricite.py:110-113 | a filter returns its input iff every row passes |
| Seqs.FilterRanked | ml/train_model.py:49 | a filter keeps the relative order of what it keeps, so a list ordered by rank stays ordered and repeat-free |
| Seqs.DropDuplicates | src/collect_meteo.py:114 | deduplication leaves unique keys, the same key set, and only input rows |
| Seqs.DropDuplicatesSnoc | src/collect_meteo.py:114 | a row is kept iff its key is new, so the result is the first row of each key in input order |
| Seqs.DropDuplicatesIdentity | src/collect_meteo.py:113-116 | deduplication changes nothing, and removes no row, iff the keys are already unique |
| Seqs.DropDuplicatesCount | src/collect_meteo.py:113-116 | deduplication leaves one row per distinct key, so `before - after` is never negative |
| Seqs.SortBy | src/load_jours_feries.py:79 | sorting gives a permutation of the input in non-decreasing key order |
| Seqs.SortBySorted | src/load_jours_feries.py:79 | an already sorted input is unchanged |
| Seqs.SortByStable | src/load_jours_feries.py:79 | the rows sharing a key keep their input order |
| Fusion.RightName | src/etl_fusion_donnees.py:88-90 | a weather column gets the `_meteo` suffix iff the consumption table has a column of that name |
| Fusion.JoinColumns | src/etl_fusion_donnees.py:88-90 | the joined columns are the consumption columns followed by the weather columns, renamed |
| Fusion.InnerJoin | src/etl_fusion_donnees.py:88-90 | every joined row has one cell per joined column and a consumption timestamp |
| Fusion.JoinMembers | src/etl_fusion_donnees.py:88-90 | a row is in the join iff it is a consumption row and a weather row with the same timestamp side by side |
| Fusion.MatchesCount | src/etl_fusion_donnees.py:88-90 | with unique weather timestamps a consumption row has one match if its hour has weather and none otherwise |
| Fusion.JoinCount | src/etl_fusion_donnees.py:88-90 | with unique timestamps on both sides the join has one row per hour in both tables, no more than either table |
| Fusion.StrictOnWeather | src/etl_fusion_donnees.py:88-90 | consumption for hours 0, 1, 2 joined with weather for hours 1, 2 gives 2 rows |
| Fusion.PositionsNames | src/etl_fusion_donnees.py:95-100 | the kept positions name exactly the kept columns, in order |
| Fusion.DropArtefacts | src/etl_fusion_donnees.py:95-100 | every column ending in `_meteo`, and `created_at`, is removed; every other column is kept in order with its cells |
| Fusion.JoinedColumns | src/etl_fusion_donnees.py:88-100 | after join and drop a column survives iff it is not an artefact and one of the tables has it |
| Fusion.SetColumn | src/etl_fusion_donnees.py:104-108 | assigning a column overwrites it if present and appends it otherwise, with every other cell unchanged |
| Fusion.AddTemporalFeatures | src/etl_fusion_donnees.py:104-108 | the feature step keeps the rows, their timestamps and the existing columns in front |
| Fusion.TemporalFeatures | src/etl_fusion_donnees.py:104-108 | each row gets the hour, the Monday-based weekday, the month and the day of its timestamp, and an integer weekend flag that is 1 on days 5 and 6 and 0 otherwise; other columns keep their cells |
| Fusion.TemporalFeatureRanges | src/etl_fusion_donnees.py:104-108 | `heure` in [0, 23], `jour_semaine` in [0, 6], `mois` in [1, 12], `jour_mois` in [1, 31], `est_weekend` 1 iff `jour_semaine >= 5` and 0 otherwise |
| Fusion.SaturdayFeatures | src/etl_fusion_donnees.py:104-108 | the row for 2026-01-03 08:00 gets hour 8, weekday 5 and weekend flag 1 |
| Fusion.DropNa | src/etl_fusion_donnees.py:114 | after `dropna` no row has a missing cell |
| Fusion.DropNaRows | src/etl_fusion_donnees.py:111-114 | a row survives iff it has no missing cell, and the table is unchanged iff nothing is missing |
| Fusion.Fuse | src/etl_fusion_donnees.py:86-115 | the fused table has no missing cell and keeps the complete rows in order; the deleted-row count is printed iff something was missing and is `len(conso) - len(result)` |
| Fusion.TemporalColumns | src/etl_fusion_donnees.py:104-108 | the feature step adds exactly the five temporal columns to the existing ones |
| Fusion.FusedColumns | src/etl_fusion_donnees.py:88-108 | a column of the fused table is a kept column of either input or one of the five temporal columns |
| Fusion.TransformData | src/etl_fusion_donnees.py:123-129 | the transform returns the fused table, and when it raises `KeyError` the fused table has no `mw_conso` column |
| Fusion.TransformFailure | src/etl_fusion_donnees.py:62-129 | the transform raises `KeyError` iff neither the consumption nor the weather table has a `mw_conso` column |
| Fusion.FusedHours | src/etl_fusion_donnees.py:88-114 | every fused hour has a consumption row and a weather row |
| Fusion.DroppedCount | src/etl_fusion_donnees.py:115 | with unique timestamps the deleted-row count is the hours lost in the join plus the rows `dropna` removed, both non-negative |
| Features.AbsentFeatures | ml/train_model.py:49 | the missing-column list holds exactly the features absent from the table, in feature-list order and each once |
| Features.AbsentFeaturesEmpty | ml/train_model.py:49-51 | the list is empty iff every feature is present |
| Features.PrepareFeatures | ml/train_model.py:31-58 | it raises `ValueError` with the absent features iff one is absent; otherwise it raises a `KeyError` iff the target is absent; otherwise it returns the split |
| Features.Split | ml/train_model.py:53-56 | `X` has exactly the eight features in order, `y` the target; one row of each per usable input row, in order, all values present |
| Features.KeptRowsMembers | ml/train_model.py:53 | a row is kept iff it has the target and every feature |
| Features.UnrelatedColumn | ml/train_model.py:53 | a missing value in a column that is neither target nor feature does not change whether a row is kept |
| Features.FusedFeaturesPresent | ml/train_model.py:35-40 | after the feature step the five temporal features are present in every row |
| Features.MissingPriceAndHoliday | ml/train_model.py:35-51 | a table lacking only the spot price and the holiday flag is rejected with exactly those two names, price first |

## Left out

- Network fetching: the Open-Meteo request and its `None` return on error, and the consumption API. The weather row builder starts from the decoded `hourly` object. A missing `hourly` key is an object with every field absent.
- Persistence: database and CSV reading and writing, `extract_data`, `load_data` and `save_to_database`.
- Logging, printed statistics, the correlation values and plotting. The correlation step is kept only for the `KeyError` it raises; see `Fusion.TransformData` below for the other ways it can fail.
- Model training and evaluation: everything in `ml/train_model.py` except `prepare_features`.
- Randomness: the normal draws of the price simulator are a parameter, one per hour. The seed is not modelled.
- `.round(2)` on simulated prices: it is floating-point rounding, and prices are exact reals here.
- Floating point in general: interpolation, medians and the weekend discount are computed in exact real arithmetic.
- Column dtypes: `est_ferie`/`est_vacances` are booleans and `est_weekend` is an integer. The model keeps that distinction; the CSV round trip between stages is not modelled.
- Seqs.SortBy: pandas' default `sort_values` is not guaranteed stable. The model uses a stable sort, so `Calendar.EnrichStable` fixes an order of same-day rows that pandas' default sort leaves unspecified.
- Calendar.EnrichStable: the same-day order it states (holidays first, then vacation rows, each in input order) comes from the model's stable sort; pandas' default sort does not promise it.
- Calendar.GroupByDate: it lists the days in first-appearance order, while pandas sorts them. The only consumer is a left join on unique days, which does not depend on that order.
- Fusion.InnerJoin: pandas raises `MergeError` when the suffix creates a duplicate name on one side. That case is not modelled: the model always joins, and the artefact drop removes every suffixed name anyway.
- Fusion.InnerJoin: rows are ordered by consumption row, then by weather row. That is pandas' documented left-key order for inner joins.
- Fusion.CellOf: column lookup by name reads the first column of that name. Tables with repeated column names are not modelled.
- `datetime` keys: they are never missing. NaT keys and their matching in joins are not modelled.
- Fusion.TemporalFeatures: `est_weekend` is computed from the weekday of the timestamp. `transform_data` computes it from the `jour_semaine` column it has just written, which holds the same value.
- Fusion.TransformData: `Series.corr` (src/etl_fusion_donnees.py:126) raises `ValueError` or `TypeError` when `mw_conso` or a present `temperature`, `vent` or `ensoleillement` column holds non-numeric text in a non-empty merged table. Cells are typed values in the model, so that failure is not modelled and only the `KeyError` is.
- In-place mutation: every step is modelled as a pure function from tables to tables. Three steps also change the frame their caller passed in, and no caller reads that frame afterwards: `merge_calendar_with_feries` adds `est_ferie` and `est_vacances` to the caller's holiday frame (src/load_jours_feries.py:125-128); `validate_meteo_data` interpolates and repairs the caller's frame before `drop_duplicates` rebinds the name (src/collect_meteo.py:92-94, 108-110); `transform_data` overwrites the callers' `datetime` columns (src/etl_fusion_donnees.py:76-77).
- Timestamps: they are whole hours in a single offset. Time zones and daylight-saving shifts are not modelled.
