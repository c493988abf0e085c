# Growing-season extreme-day indicators

This project models the computational core of six near-identical climate-preprocessing scripts.
For every grid cell where a crop is grown, the scripts compute indicators of extreme weather during the crop's growing season:

- frequencies of dry, wet, rainy or hot days;
- total precipitation;
- the longest dry, wet, rainy or hot spell.

A growing season can span two calendar years (Southern Hemisphere calendars). Such a season is counted under the year in which it ends.

The core has three parts, and each is modelled once, parameterised by the script family:

1. **Run-length scanner** (`extreme_length`, `heatwaves_length`). A one-pass loop that returns the longest run of 1s in a binary mask. It is modelled as `RunLength.ExtremeLength`, a method over an array. It is proved equal to the recursive specification `LongestRun`, and `LongestRun` is proved to be the maximal run length.
2. **Growing-season window resolver.** It turns a row's crop areas and the crop calendars at that cell into one (start day, end day) window.
   - The multi-crop scripts (`*_aggr.py`) walk all crops with four running variables. This is modelled exactly, and it is not a union: a rainfed-only or irrigated-only crop overwrites the running window.
   - The single-crop scripts pick one calendar per land-use case. When no case applies, they reuse the previous row's window.
   - Both resolvers are in `growingseason.dfy`.
3. **Season-year aggregator** (`season_stat`). The class `Aggregator.IndicatorGrids` holds zero-initialised grids indexed (indicator, year, lat, lon). `SeasonStat` walks the rows and fills each cell's column in place.
   - In-year seasons (start <= end) write every year's label with `total_days = end - start + 1`.
   - Wrapping seasons (end < start) write label Y+1 from the tail of year Y (`doy >= start`) followed by the head of year Y+1 (`doy <= end`), with `total_days = (365 - start + 1) + end`.
   - A hard-coded check on year 2019 resets label 2019 in every grid except the precipitation-extremes total `tot_pr`.
   - The first year's label is never written.
   - A wrapping cell whose data do not end in 2019 makes the script raise: the label after the last year is not in the grid.

The script family (`Indicators.Variant`) selects which grids exist and which masks feed them:

| family | scripts | grids (in return order) |
|---|---|---|
| DroughtsFloods | droughts_floods_filtering_aggr.py | drydays_freq (<= p05), raindays_freq (>= p95), wetdays_freq (> 0), tot_pr, droughts (<= p05 run), floods (> 0 run) |
| DryWet | indicators_drywet_aggr.py, indicators_drywet_crop.py | FDD (<= p05), FWD (>= p95), TPR, LDS (<= p05 run), LWS (>= p95 run) |
| Hot | indicators_hot_aggr.py, indicators_hot_crop.py, heat_filtering_swh.py | FHD / hotdays_freq (>= p95), LHS / heatwaves (>= p95 run) |

Modelling choices:

- Daily values are exact `real`s. A calendar year is a sequence whose element k is day of year k + 1, so it has 365 or 366 elements.
- The years of the data are consecutive, starting at `firstYear`.
- The crops of a multi-crop row are listed in the scripts' fixed order mai, ri1, ri2, soy, swh, wwh (`crop_names`). The overwrite quirk depends on this order: the last present crop with a single land use decides the window.
- The ±infinity initialisers of the multi-crop loop become the window `Unset = (367, 0)`. With calendar days in 1..366, minimum and maximum treat these days exactly as they treat ±infinity. A row whose crops all have zero area keeps this window and takes the wrapping branch over empty selections, as the scripts do.
- A raised exception (an unassigned window in a single-crop script, or a wrapping label past the grid) is `ok == false` from `SeasonStat`.
- The percentile is a function parameter (`quantile`). It is applied to the pooled growing-season sample of the cell at 0.05 and 0.95.

Two places where the code differs from its evident intent are modelled as the code evidently means them:

- indicators_drywet_crop.py uses the calendar names `start_day_noirr`, `end_day_noirr`, `start_day_firr` and `end_day_firr` without defining them. The model extracts them as indicators_hot_crop.py does at lines 88-91.
- In indicators_drywet_aggr.py:321 and indicators_drywet_crop.py:228 the TPR reset is indented with tabs. These lines start with two tabs and four spaces inside a block indented with spaces. With 8-column tabs that is column 20, the column of the 2019 block. With 1-column tabs it is column 6. Python 3 rejects such ambiguous indentation with a TabError, so neither drywet script compiles as written. The model follows the 8-column reading, the evident intent, and treats the line as the fifth statement of the 2019 block.

## Model

| member | source | states |
|---|---|---|
| RunLength.ExtremeLength | code/scripts/droughts_floods_filtering_aggr.py:84-98 | The two-counter scan returns exactly `LongestRun` of the mask. The same function appears in all six scripts; heat_filtering_swh.py names it `heatwaves_length`. |
| RunLength.LongestRunIsMaximal | code/climdata_preprocessing/indicators_drywet_aggr.py:108-122 | Every stretch of consecutive 1s is at most as long as the result. |
| RunLength.LongestRunAttained | code/climdata_preprocessing/indicators_hot_aggr.py:109-123 | The result is at most the input length, and some stretch of 1s has exactly that length. |
| RunLength.LongestRunZeroIff | code/climdata_preprocessing/indicators_drywet_crop.py:51-65 | The result is 0 exactly when no element is 1: 0 for an empty or all-zero mask, at least 1 otherwise. |
| RunLength.LongestRunAtMostOnes | code/climdata_preprocessing/indicators_hot_crop.py:51-65 | The result never exceeds the number of 1s. |
| GrowingSeason.ResolveCrop | code/climdata_preprocessing/indicators_hot_crop.py:120-134 | For a crop with non-negative areas, at least one positive, the window covers the calendar of every land use with positive area, and its start and end are a planting day and a maturity day of such calendars. With no positive area, the previous window is returned unchanged. |
| GrowingSeason.MixedIgnoresLabels | code/climdata_preprocessing/indicators_drywet_crop.py:138-146 | With both areas positive, swapping which calendar is called irrigated does not change the window. |
| GrowingSeason.ResolveCropWellFormed | code/scripts/heat_filtering_swh.py:94-108 | Valid calendars (days 1..366) and a well-formed previous window give a well-formed window. |
| GrowingSeason.ResolveCropScenarios | code/climdata_preprocessing/indicators_drywet_crop.py:132-146 | Take irrigated calendar (100, 200) and rainfed calendar (120, 210). Rainfed-only area gives (120, 210); both areas give (100, 210). |
| GrowingSeason.ResolveAllCrops | code/climdata_preprocessing/indicators_drywet_aggr.py:186-239 | The crop loop over `start_day_loc`/`end_day_loc`/`start_day_crop`/`end_day_crop` returns `AggregateWindow(crops)`. |
| GrowingSeason.AccumulateWellFormed | code/scripts/droughts_floods_filtering_aggr.py:170-224 | With valid calendars, both running windows stay at the initial value or hold days in 1..366. |
| GrowingSeason.AggregateEnclosesLatestMixed | code/climdata_preprocessing/indicators_hot_aggr.py:216-223 | The running window always encloses the latest both-area crop window. |
| GrowingSeason.AggregateSkipsAbsentCrops | code/scripts/droughts_floods_filtering_aggr.py:189-190 | Crops with zero area in both land uses change nothing: the result equals the result over the present crops alone. |
| GrowingSeason.AbsentSuffixChangesNothing | code/climdata_preprocessing/indicators_drywet_aggr.py:204-205 | Zero-area crops after the last present crop leave every running variable as it was. |
| GrowingSeason.AggregateLastSingleOverwrites | code/scripts/droughts_floods_filtering_aggr.py:203-224 | When the last present crop has a single land use, the result is that crop's calendar widened only by the latest both-area window before it. Everything else is forgotten. |
| GrowingSeason.AggregateAllMixedIsUnion | code/scripts/droughts_floods_filtering_aggr.py:211-224 | When every present crop has both areas, the window covers every calendar of every present crop, and its start and end are attained by some present crop. With no present crop it stays at the initial window. |
| GrowingSeason.AggregateIsNotUnion | code/climdata_preprocessing/indicators_hot_aggr.py:201-207 | Two rainfed-only crops with seasons (100, 200) then (250, 300) resolve to (250, 300), which does not cover the first season. |
| SeasonDays.SelectBetween | code/scripts/droughts_floods_filtering_aggr.py:243-248 | The in-year selection `start <= doy <= end` is the slice of days start..min(end, year length). It has at most `end - start + 1` days. |
| SeasonDays.SelectFrom | code/climdata_preprocessing/indicators_drywet_aggr.py:332 | The tail selection `doy >= start` is the slice from day start to the end of the year. |
| SeasonDays.SelectUpTo | code/climdata_preprocessing/indicators_drywet_aggr.py:331 | The head selection `doy <= end` is the first `end` days of the year. |
| SeasonDays.SelectFromOrUpTo | code/scripts/droughts_floods_filtering_aggr.py:292 | For a wrapping window, the percentile sample takes from each year its head followed by its tail. |
| SeasonDays.Mask | code/scripts/droughts_floods_filtering_aggr.py:250-254 | The binary mask has one 0/1 entry per selected day, and the entry is 1 exactly when the day passes the comparison (`>= p95`, `<= p05` or `> 0`). |
| SeasonDays.Count | code/climdata_preprocessing/indicators_hot_aggr.py:249 | A day count never exceeds the number of selected days. |
| SeasonDays.MaskAppend | code/climdata_preprocessing/indicators_drywet_aggr.py:353-366 | The mask of tail-then-head is the tail mask followed by the head mask, as `xr.concat` joins them. |
| SeasonDays.CountAppend | code/climdata_preprocessing/indicators_drywet_aggr.py:340-346 | Adding the counts of the two parts gives the count of the joined season. |
| SeasonDays.SumAppend | code/climdata_preprocessing/indicators_drywet_aggr.py:349 | Adding the sums of the two parts gives the sum of the joined season. |
| SeasonDays.SpellAtMostCount | code/climdata_preprocessing/indicators_hot_aggr.py:247-262 | A longest spell is at most the number of days passing the same test. |
| SeasonDays.DisjointCounts | code/climdata_preprocessing/indicators_drywet_aggr.py:265-274 | If p05 < p95, the dry-day count plus the wet-day count is at most the number of days. |
| Indicators.TotalDaysNonZero | code/climdata_preprocessing/indicators_hot_aggr.py:245-284 | `total_days` is never 0. It lies in 1..366 for calendar windows and is -1 for the initial window. |
| Indicators.NonWrapFrequencyInUnitRange | code/scripts/droughts_floods_filtering_aggr.py:241-263 | In the in-year branch every year label of the cell is written, and every frequency lies in [0, 1]. |
| Indicators.FrequencyInUnitRange | code/climdata_preprocessing/indicators_hot_crop.py:156-162 | A count divided by a positive `total_days` that is at least the number of days lies in [0, 1]. |
| Indicators.NonWrapDryWetExclusive | code/climdata_preprocessing/indicators_drywet_aggr.py:263-274 | If p05 < p95, then FDD + FWD <= 1 in the in-year branch. |
| Indicators.FirstLabelNeverWritten | code/climdata_preprocessing/indicators_hot_crop.py:182-186 | A wrapping cell leaves the first year's label untouched. The one exception: when the first year is 2019, the reset grids get 0 there. |
| Indicators.SentinelLabel | code/scripts/droughts_floods_filtering_aggr.py:303-308 | In the wrapping branch, label 2019 is 0 in every grid the family resets. The precipitation-extremes `tot_pr` instead keeps the sum of the season that ends in 2019. |
| Indicators.WrapLabelJoinsYears | code/climdata_preprocessing/indicators_drywet_crop.py:219-271 | Label Y+1 holds each indicator over days start.. of year Y followed by days ..end of year Y+1. |
| Indicators.WrapSeasonLength | code/climdata_preprocessing/indicators_drywet_aggr.py:329-333 | A wrapping season has `total_days` days, plus one more exactly when year Y is a leap year (day 366 is selected, 365 is divided by). |
| Indicators.WrapFrequencyInUnitRange | code/climdata_preprocessing/indicators_hot_aggr.py:284-293 | When year Y is not a leap year, every frequency written under label Y+1 lies in [0, 1]. |
| Indicators.LeapYearFrequencyAboveOne | code/scripts/heat_filtering_swh.py:166-176 | Window (366, 1) after the leap year 2016 with both days hot gives a hot-day frequency of 2. |
| Indicators.BoundaryScenario | code/scripts/heat_filtering_swh.py:156-181 | Window (350, 10) over 1981..1990: label 1981 stays untouched, and label 1982 is computed over days 350..365 of 1981 and days 1..10 of 1982 (26 days). The run raises at 1990. |
| Aggregator.WindowAtWellFormed | code/climdata_preprocessing/indicators_drywet_crop.py:125-146 | Every window a row is processed with is well formed when the calendars are valid. |
| Aggregator.UnlistedCellStaysZero | code/climdata_preprocessing/indicators_drywet_aggr.py:148-182 | A grid cell that no row names stays 0 in every grid and year. |
| Aggregator.OwnRowDecidesCell | code/climdata_preprocessing/indicators_drywet_aggr.py:137 | With one row per location, a cell's slot holds what its own row writes there, and 0 where that row writes nothing. |
| Aggregator.UnmatchedRowReusesWindow | code/scripts/heat_filtering_swh.py:94-108 | A single-crop row with no positive area reuses the previous row's window. As the first row, it raises. |
| Aggregator.AllAbsentRowWraps | code/climdata_preprocessing/indicators_hot_aggr.py:171-176 | A multi-crop row whose crops all have zero area keeps the initial window, which wraps. The row raises exactly when the data have years and do not end in 2019. |
| Aggregator.IndicatorGrids.constructor | code/scripts/droughts_floods_filtering_aggr.py:129-163 | Allocates one zero-filled grid per indicator of the family, over years × lat × lon. |
| Aggregator.IndicatorGrids.WriteLabel | code/climdata_preprocessing/indicators_hot_aggr.py:251-262 | Writes one value per grid at (year, lat, lon) and changes no other slot. |
| Aggregator.IndicatorGrids.ZeroSentinel | code/climdata_preprocessing/indicators_hot_aggr.py:274-276 | Sets the reset grids to 0 at (year, lat, lon) and changes no other slot. |
| Aggregator.IndicatorGrids.ProcessCell | code/scripts/droughts_floods_filtering_aggr.py:231-361 | Exactly one branch runs. Afterwards the cell's column holds `LabelWrite` for every slot the row writes, and every other slot and cell is unchanged. It fails exactly on `WrapFails`. |
| Aggregator.IndicatorGrids.ProcessInYear | code/climdata_preprocessing/indicators_drywet_aggr.py:246-299 | Every year label of the cell gets that year's in-year season values; other cells are unchanged. |
| Aggregator.IndicatorGrids.ProcessWrapping | code/climdata_preprocessing/indicators_drywet_aggr.py:302-369 | The year loop leaves each label as `LabelWrite` prescribes, including the 2019 reset after the 2018 write. It fails exactly when the last year is not 2019. |
| Aggregator.SpellLength | code/climdata_preprocessing/indicators_hot_crop.py:165-172 | Applying the scanner to a mask gives `LongestRun` of that mask. |
| Aggregator.SeasonValues | code/scripts/droughts_floods_filtering_aggr.py:250-286 | The values of one season year are the family's indicators, in return order, over the joined season. |
| Aggregator.IndicatorOver | code/scripts/droughts_floods_filtering_aggr.py:320-361 | Part-wise counts and sums added, and the spell over the joined masks, equal the indicator over the joined season. |
| Aggregator.SeasonStat | code/scripts/droughts_floods_filtering_aggr.py:109-363 | Succeeds exactly when no row raises. On success every slot equals `CellAfter`, the row-by-row effect of the rows on that cell. |

## Left out

- Data loading and saving is not modelled: `xr.open_dataset`, `pyreadr.read_r`, the crop-table reshaping and the NetCDF output. This includes the loader lines that attach crop names to the wrong tables.
- Percentiles are a `quantile` parameter, not numpy's interpolating, NaN-skipping `quantile`.
- Floating point is not modelled. Values are exact reals, and NaN values, NaN areas and missing calendar cells are not represented. The initial window gives `total_days = -1` where the scripts compute -infinity. A frequency of 0 stands for the scripts' -0.0.
- Datetime handling is replaced by per-year sequences indexed by day of year. `pd.to_datetime` and `dt.dayofyear` are not modelled, and the years are assumed consecutive.
- `xr.apply_ufunc` is modelled as a direct call of the scanner (`Aggregator.SpellLength`). Label-based `.loc` lookup is modelled as index arithmetic over year, lat and lon indices.
- The six scripts' separate `DataArray` objects are one `array4` whose first index is the indicator. Aliasing between grids is therefore not modelled, and the scripts have none.
- Aggregator.SeasonValues: loops over the family's indicators, where the scripts write each indicator in its own statement. The per-indicator formulas are the same.
- The commented-out block at the end of droughts_floods_filtering_aggr.py is not modelled. It is dead code.
- The scripts' missing `Path` import and the undefined `season_firr_dict` in the call at indicators_drywet_crop.py:282 are not modelled. They are scripting defects outside `season_stat`.
- Rows are required to lie on the grid and to carry one year of climate per grid year (`RowsFit`). The scripts build the grid axes from the same table and the same data, so this always holds there.
- `RowsFit` also requires every calendar of a row to hold days in 1..366 (`CompositionValid`). This includes the calendars of absent crops and of a land use with zero area, which the scripts never read. It excludes no behaviour, because those calendars are never consulted.
