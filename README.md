# iMPACT precipitation and drought dashboard: a Dafny model of its core

iMPACT is a dashboard of daily CHIRPS rainfall over Nepal. It loads a
(time, lat, lon) grid, relabels it by hydrological year and bins it into
monthly and yearly sums. It runs a per-pixel Mann-Kendall trend test and a
per-pixel SPI (Standardized Precipitation Index) computation, and it drives
its pages and widgets with a set of small callbacks. This project models
that core in Dafny and proves properties of the model.

- `wrappers.dfy`: `Option` and `Result`.
- `text.dfy`: Python's `str(int)` and `int(str)`, `join`, `startswith` and `endswith`, including the parse of a printed integer.
- `calendar.dfy`: proleptic Gregorian dates, days in a month with leap years, month ends, month names.
- `grids.dfy`: a missing value is `None` (NaN). It defines the grid with records of a date and a [lat][lon] slice, pixel series, skip-NaN sums and filters on the time axis.
- `sequences.dfy`: the sorted elements of a finite set of integers, and the indices of the true entries of a mask.
- `spatial_trend.dfy`: `calculate_spatial_trend` as a method with nested loops over preallocated 2-D arrays.
- `spi_calculation.dfy`: `_spi_core` and `calculate_spi_with_ufunc`.
- `load_dataset.dfy`:
  - the fill-value drop of `preprocess`
  - `seasonal_calculation`
  - the filter and sort of `load_hydrological_year_dataset`
  - the monthly and yearly sums and the date bounds of `process`
  - the two loaders
- `dashboard_tables.dfy`: the `seasons` table and the SPI classes, with the class lookup.
- `dashboard_routing.dfy`: URL routing, nav-link highlighting, the collapse and modal toggles, and the control-panel visibility callbacks.
- `dashboard_analysis.dfy`:
  - the incomplete-season warning
  - the end-month options
  - the date windows of the temporal view
  - the threshold-day mask and count
  - the guards before each trend test
- `drought_map.dfy`: the hover-label builder of the SPI map, a method with nested loops over a preallocated 2-D array.
- `chirps_preprocessing.dfy`: download planning, with the file-name and URL construction and the read-back of a year from a file name.

Some outside facts are parameters of the model:
- the Mann-Kendall test (`pymannkendall.original_test`)
- the SPI routine (`climate_indices.indices.spi`)
- the current date (`datetime.now()`)
- the `:.2f` float formatter
- whether the temporal trend test raises `ValueError`
- the value xarray stores for a resample bin with no present value

Where the program's comments, legend or titles disagree with its code, the model follows the code:
- The SPI legend (main.py:2051-2052) lists "≤ -2.0" as "Exceptional Drought", but the classes in `SPI_CLASSES` are half-open intervals `lo <= z < hi`, so −2.0 is "Extreme Drought" (`BoundariesBelongAbove`).
- The comment "CHIRPS data starts from 1981" (CHIRPS_PREPROCESSING.py:56) sits above a range that starts at 2024 (`FirstYear`).
- The threshold-map title "Days with Precipitation > {threshold} mm" (main.py:1798) says `>`, but the mask is `>=` (`Exceeds`).
- The trend guards differ from view to view:
  - the seasonal and threshold views need more than two values;
  - the temporal view needs at least two values after `dropna`;
  - the quantile view calls the test before checking the length (`GuardsDiffer`).

## Model

| member | source | states |
|---|---|---|
| SpatialTrend.CalculateSpatialTrend | Analysis/spatial_trend.py:5-34 | The output has the input's lat and lon coordinates and shape (lat, lon). Every cell is the significance-masked result of its own pixel. The test is invoked exactly on the pixels that are not all NaN, in row-major order, each once. |
| SpatialTrend.FillRow | Analysis/spatial_trend.py:16-25 | The inner loop stores in every column of its row that pixel's slope and p-value, or NaN for an all-NaN series. It leaves every other row as it was and returns the tested pixels of the row. |
| SpatialTrend.FillRows | Analysis/spatial_trend.py:15-25 | The outer loop leaves every row of the slope and p-value arrays holding its pixels' results, and returns the tested pixels in row-major order. |
| SpatialTrend.Significant | Analysis/spatial_trend.py:27 | A cell keeps the slope exactly when its p-value is present and at most 0.05. Otherwise it is missing, including when p is NaN. |
| SpatialTrend.RowTestsMembers | Analysis/spatial_trend.py:16-23 | A pixel of a row is tested exactly when it is in range and its series is not all NaN. |
| SpatialTrend.RowTestsOrdered | Analysis/spatial_trend.py:16 | The pixels of a row are tested in strictly increasing column order. |
| SpatialTrend.GridTestsMembers | Analysis/spatial_trend.py:15-23 | A pixel of the grid is tested exactly when it is in range and its series is not all NaN. |
| SpatialTrend.GridTestsOrdered | Analysis/spatial_trend.py:15-16 | Tested pixels come in strictly increasing row-major order, so none is tested twice. |
| SpatialTrend.AllMissingPixelIsMissing | Analysis/spatial_trend.py:19-21 | An all-NaN pixel gives a missing cell, whatever the test would return. |
| SpatialTrend.PartlyMissingPixelIsTested | Analysis/spatial_trend.py:22-27 | A pixel with some present value goes to the test unchanged, NaNs included. Its cell is the test's slope exactly when p <= 0.05. |
| SpatialTrend.TrendCell | Analysis/spatial_trend.py:16-27 | An all-NaN pixel gives NaN, and a present cell comes from a test whose p-value is present and at most 0.05. |
| SpatialTrend.PresentCellIsSignificant | Analysis/spatial_trend.py:27 | Every present cell is the slope of a tested pixel whose p-value is present and at most 0.05. |
| SpatialTrend.PixelIsolation | Analysis/spatial_trend.py:17 | Replacing one pixel's series changes no other output cell. |
| SpatialTrend.CellDependsOnlyOnItsSeries | Analysis/spatial_trend.py:17-27 | Two grids whose pixel has the same series give the same cell there. |
| SpiCalculation.Filled | Analysis/spi_calculation.py:18-28 | Masked entries become NaN, and every other entry is kept. |
| SpiCalculation.SpiCore | Analysis/spi_calculation.py:13-32 | An all-NaN series gives an all-NaN series of its length. A raising library call gives an all-NaN series of the input's length. A returned result is filled, with masks replaced by NaN. Output length equals input length for a length-preserving library. |
| SpiCalculation.AllMissingSkipsLibrary | Analysis/spi_calculation.py:14-15 | For an all-NaN series the library is never consulted: any two libraries give the same output. |
| SpiCalculation.OnlyTheForwardedCallMatters | Analysis/spi_calculation.py:19-27 | The output depends on the library only through one call: the series, scale unchanged, gamma, monthly, data start = calibration start = first year, calibration end = last year. |
| SpiCalculation.RaisedIsContained | Analysis/spi_calculation.py:30-32 | A raising call gives an all-NaN series of the input's length and no error. |
| SpiCalculation.CalibrationYears | Analysis/spi_calculation.py:9-10 | The window is the year of the first timestamp to the year of the last one. It is absent for an empty time axis. |
| SpiCalculation.CalculateSpiWithUfunc | Analysis/spi_calculation.py:6-46 | It fails exactly on an empty time axis, where indexing `[0]` raises. Otherwise the result is named "SPI", has the input's dims, coordinates and time labels, and holds at each cell `_spi_core` of that pixel's series with the calibration window. |
| SpiCalculation.SpiPixelSeries | Analysis/spi_calculation.py:35-44 | Each pixel's output series is `_spi_core` of its input series. |
| SpiCalculation.SpiPixelIsolation | Analysis/spi_calculation.py:35-44 | Replacing one pixel's series leaves every other pixel's SPI series unchanged. |
| LoadDataset.DropFillValue | load_dataset.py:33 | The result is well shaped and holds no cell equal to the −99.9 sentinel. |
| LoadDataset.DropFillValueKeeps | load_dataset.py:33 | The kept time, lat and lon labels are those with at least one passing cell, in their original order. Every passing value is kept unchanged. |
| LoadDataset.DroppedTimesAreAllFill | load_dataset.py:33 | A time step is dropped exactly when every one of its cells is the sentinel. |
| LoadDataset.DropFillValueKeepsDistinct | load_dataset.py:33 | Distinct input times remain distinct after the drop. |
| LoadDataset.SeasonalDate | load_dataset.py:82-89 | The year becomes year+1 for December and stays otherwise. Month and day are kept. |
| LoadDataset.SeasonalDateValid | load_dataset.py:94 | A relabelled valid date is a valid date. |
| LoadDataset.SeasonalDateInjective | load_dataset.py:82-89 | No two distinct dates get the same label. |
| LoadDataset.SeasonalCalculation | load_dataset.py:77-102 | Coordinates, values and the length of the time axis are kept. Each label is the relabelled date. |
| LoadDataset.SeasonalCalculationKeepsDistinct | load_dataset.py:96-102 | A duplicate-free time axis stays duplicate-free after relabelling. |
| LoadDataset.DropFutureYears | load_dataset.py:113 | Every kept label's year is at most the current year. Every record at or below it is kept as often as before, and no other record is. |
| LoadDataset.Insert | load_dataset.py:116 | Inserting into a time-sorted sequence keeps it sorted and adds exactly the one record. |
| LoadDataset.SortByTime | load_dataset.py:116 | The result is sorted by time and is a permutation of the input. |
| LoadDataset.InsertStrict | load_dataset.py:116 | Inserting a record with a new time into a strictly ascending sequence keeps it strictly ascending. |
| LoadDataset.SortStrict | load_dataset.py:116 | Sorting records with pairwise distinct times gives a strictly ascending axis. |
| LoadDataset.SortGridByTime | load_dataset.py:116 | The coordinates are kept, and the records are sorted by time and are a permutation of the input's. |
| LoadDataset.HydrologicalYearRecords | load_dataset.py:109-116 | After relabel, filter and sort: same coordinates, sorted by time, every year at most the current year. |
| LoadDataset.HydrologicalYearWellShaped | load_dataset.py:109-116 | Relabelling, filtering and sorting keep every slice in the grid's (lat, lon) shape. |
| LoadDataset.HydrologicalYearKeepsCurrentRecords | load_dataset.py:109-116 | Each record appears as often as its relabelled form appears with a year at most the current year: nothing is merged or invented. |
| LoadDataset.HydrologicalYearStrictlyAscending | load_dataset.py:109-116 | A duplicate-free input axis gives a strictly ascending output axis. |
| LoadDataset.PeriodCloseOfDate | load_dataset.py:47-48 | A date's bin is labelled with the last day of its month ('1ME') or with 31 December of its year ('1YE'). That label is a valid date not before the date. |
| LoadDataset.PeriodCloseIncreasing | load_dataset.py:47-48 | Later periods have strictly later labels. |
| LoadDataset.PeriodKeys | load_dataset.py:47-48 | The bins are strictly increasing. Each time step's period is among them, and each of them holds some time step. |
| LoadDataset.BinSum | load_dataset.py:47-48 | A bin with a present value sums its present values, skipping NaN. |
| LoadDataset.BinRecord | load_dataset.py:47-48 | A bin's record carries the period label and, per pixel, the skip-NaN sum of the bin's values. |
| LoadDataset.Resample | load_dataset.py:47-48 | The result keeps the coordinates and has one record per present period, strictly ascending in time. Each record is its period's bin. |
| LoadDataset.BinValuesOfPeriod | load_dataset.py:47-48 | Each present period's bin is non-empty, and each value in it is the pixel on a day of that period. |
| LoadDataset.EveryStepInOneBin | load_dataset.py:47-48 | Every time step lies in exactly one bin. |
| LoadDataset.SkipMissingExample | load_dataset.py:47 | Days [1, 1, 1, NaN, 1] sum to 4. |
| LoadDataset.BinSumSplit | load_dataset.py:47-48 | A bin split in two sums to the sum of its halves. |
| LoadDataset.MinDate | load_dataset.py:58 | The earliest date is on the axis and not after any date on it. |
| LoadDataset.MaxDate | load_dataset.py:59 | The latest date is on the axis and not before any date on it. |
| LoadDataset.MinYear | load_dataset.py:55 | The smallest year is the year of some step and at most every step's year. |
| LoadDataset.MaxYear | load_dataset.py:56 | The largest year is the year of some step and at least every step's year. |
| LoadDataset.DatasetBounds | load_dataset.py:55-59 | The bounds exist exactly for a non-empty axis. They then satisfy min_year <= max_year and min_date <= max_date, both dates are on the axis, and every step lies between them. |
| LoadDataset.BoundsAgree | load_dataset.py:55-59 | min_year is min_date's year and max_year is max_date's year: both come from one axis. |
| LoadDataset.YearsBoundMaxYear | load_dataset.py:56 | If every step's year is at most y, then max_year is at most y. |
| LoadDataset.Process | load_dataset.py:37-61 | The daily grid is the input. The monthly and yearly grids are its month-end and year-end resamples, and the bounds are its dataset bounds, present exactly for a non-empty axis. |
| LoadDataset.LoadMainDataset | load_dataset.py:66-68 | The daily grid is the fill-dropped archive, and no cell equals the sentinel. The monthly and yearly grids are its resamples. |
| LoadDataset.LoadHydrologicalYearDataset | load_dataset.py:104-118 | The daily grid is the relabelled, year-filtered and sorted fill-dropped archive, and the monthly and yearly grids are its resamples. It is well shaped, keeps the fill-dropped coordinates, is sorted by time and has no year past the current one. max_year is at most the current year. |
| DashboardTables.SeasonOf | main.py:84-89 | Every calendar month has a season that lists it. |
| DashboardTables.SeasonMonths | main.py:84-89 | Every season lists two to four months, each a calendar month. |
| DashboardTables.SeasonsPartitionMonths | main.py:84-89 | The four lists cover months 1..12 exactly once: only calendar months, no repeats, each month in one season, 12 entries in total. |
| DashboardTables.FirstClassName | main.py:1992 | The result is the name of the first class with lo <= z < hi, or "N/A" when no class contains z. |
| DashboardTables.SpiClassesShape | main.py:92-102 | The table starts at −inf, ends at +inf, is contiguous and its bounds never decrease. |
| DashboardTables.ContiguousIsOrdered | main.py:92-102 | A contiguous table whose rows each start no later than they end is ordered. |
| DashboardTables.SomeClassContains | main.py:92-102 | In a contiguous table every value at or above the first start falls in some class. |
| DashboardTables.AtMostOneClass | main.py:92-102 | In an ordered table no value falls in two classes. |
| DashboardTables.ClassifySpi | main.py:1992 | The label is the name of a class that contains the value. |
| DashboardTables.ClassifySpiIsTheUniqueClass | main.py:1968-1978 | Every real SPI value falls in exactly one of the nine classes, the lookup returns its name, and it is never "N/A". |
| DashboardTables.ClassifyInRow | main.py:1992 | The lookup returns the name of whichever class contains the value. |
| DashboardTables.BoundariesBelongAbove | main.py:93-101 | Boundary values belong to the class that starts there: −2.0 is "Extreme Drought", 2.0 is "Exceptionally Wet". |
| DashboardTables.CellClass | main.py:1987-1992 | A cell is "No data" exactly when it is NaN. Otherwise it is the name of the class containing it. |
| DroughtMap.HoverLines | main.py:1993-1998 | A present cell's label has four lines, the second naming the value's class. |
| DroughtMap.HoverText | main.py:1987-1998 | A label is "No data" exactly when the cell is NaN. |
| DroughtMap.HoverTextOfPresentCell | main.py:1992-1998 | A present cell's label is its four lines joined by `<br>`, starts with "SPI-{scale}: ", and never shows class "N/A". |
| DroughtMap.FillHoverRow | main.py:1986-1998 | The inner loop sets every cell of its row to that cell's label and leaves every other row as it was. |
| DroughtMap.BuildHoverText | main.py:1984-1998 | A new array of the map's shape, holding at each cell the label of that cell at its own latitude and longitude. |
| DashboardRouting.RenderPageContent | main.py:1400-1407 | "/" is home. A path starting with "/precipitation" is the precipitation page. Otherwise a path starting with "/drought" is the drought page. Anything else is home. |
| DashboardRouting.RenderPrecipitationContent | main.py:1414-1421 | "/precipitation/temporal" is the temporal tab and "/precipitation/extremes" the extremes tab. Every other path is the seasonal tab. |
| DashboardRouting.RenderDroughtContent | main.py:1430-1433 | "/drought" and "/drought/spi" show the SPI view, and any other path the home layout. |
| DashboardRouting.UpdateNavLinks | main.py:1378-1390 | Home is active exactly on "/". Precipitation is active exactly on other paths starting with "/precipitation". Drought is active exactly on "/drought". |
| DashboardRouting.AtMostOneNavLinkActive | main.py:1383-1388 | No two links are active together. |
| DashboardRouting.NavLinkMatchesPage | main.py:1378-1407 | An active link names the page shown. "/drought/spi" shows the drought page with no link active. |
| DashboardRouting.DroughtPathsShowSpi | main.py:1405-1432 | Both drought paths reach the drought page and its SPI view. |
| DashboardRouting.ToggleCollapse | main.py:1343-1349 | A click flips the state, and the arrow points up exactly when the new state is open. With no click the state is kept and the arrow points down. |
| DashboardRouting.ToggleCollapseTwice | main.py:1343-1349 | Two clicks restore the state. |
| DashboardRouting.ToggleModal | main.py:925-928 | The modal flips exactly when either button has been clicked. |
| DashboardRouting.ModalOpenThenClose | main.py:936-939 | Opening with one button and closing with the other restores the state. |
| DashboardRouting.ShowIf | main.py:1610 | The style is a block display exactly when the condition holds. |
| DashboardRouting.UpdateControlVisibility | main.py:1609-1613 | Each frequency's panel is displayed exactly when that frequency is selected. |
| DashboardRouting.OneFrequencyPanel | main.py:1609-1613 | Exactly one panel shows for "Daily", "Monthly" or "Yearly", and none for any other value. |
| DashboardRouting.UpdateIndicesControlsVisibility | main.py:1754-1757 | The threshold panel shows exactly for "threshold" and the quantile panel exactly for "quantile". |
| DashboardRouting.IndicesPanelsExclusive | main.py:1754-1757 | The two panels never show together. |
| DashboardAnalysis.MonthsAfter | main.py:1456 | The result holds exactly the listed months after the given one. |
| DashboardAnalysis.CheckedMonths | main.py:1452-1464 | Winter checks only January and February. Other seasons check their own months. December is never checked. |
| DashboardAnalysis.IncompleteMonths | main.py:1452-1466 | Every incomplete month is a calendar month. |
| DashboardAnalysis.WarningText | main.py:1468-1473 | The message starts with the warning sign, the season and the year, and ends with "). Results may be biased.". |
| DashboardAnalysis.CheckIncompleteSeason | main.py:1446-1475 | The warning is open exactly when some months are incomplete. The text is empty exactly when it is not open. An open warning's text is the message built from the season, the year and the names of the incomplete months. |
| DashboardAnalysis.IncompleteSeasonRule | main.py:1452-1466 | A year other than the current one is never flagged. In the current year the flagged months are exactly the checked months after the current month. December is never flagged. Winter flags only 1 and 2. |
| DashboardAnalysis.DecemberNoWarning | main.py:1452-1466 | In December no season of the current year is flagged. |
| DashboardAnalysis.MonthOptions | main.py:1488-1491 | The options are months 1..last, each labelled with its month name. |
| DashboardAnalysis.UpdateEndMonthOptions | main.py:1485-1500 | If the end year is max_date's year: months 1..max_date.month with value max_date.month. Otherwise months 1..12 with value 12. |
| DashboardAnalysis.EndMonthValueOffered | main.py:1485-1500 | The value is always one of the options, and no option lies past the data. |
| DashboardAnalysis.TemporalWindow | main.py:1636-1663 | Daily: the two dates, when both are set. Monthly: the month ends of the start and the end month, when all four inputs are truthy. Otherwise: 1 January of the start year to 31 December of the end year, when both are truthy. With an input missing there is no window. |
| Calendar.MonthEnd | main.py:1653-1656 | `to_period('M').end_time` is a valid date in the given month and year. No later day exists in that month, and every date of the month is not after it. |
| DashboardAnalysis.MonthlyWindowSelectsMonths | main.py:1649-1666 | A month's label lies in a monthly window exactly when the month lies between the chosen start and end months, inclusive. |
| DashboardAnalysis.YearlyWindowSelectsYears | main.py:1662-1666 | A year's label lies in a yearly window exactly when the year lies between the chosen years. |
| DashboardAnalysis.SelectWindow | main.py:1666 | The kept records are exactly those whose label is in the window, both ends included. |
| DashboardAnalysis.Exceeds | main.py:1780 | The mask is 1 exactly for a present value at least the threshold, otherwise 0 (NaN gives 0). |
| DashboardAnalysis.ThresholdMask | main.py:1780 | The mask keeps the labels and shape and has no missing cell. |
| DashboardAnalysis.CountAtLeast | main.py:1780-1781 | The count of days at or above the threshold never exceeds the number of days. |
| DashboardAnalysis.MaskSumIsCount | main.py:1780-1781 | The sum of a series' mask is its number of days at or above the threshold. |
| DashboardAnalysis.ThresholdDaysPerYear | main.py:1781 | The yearly count grid keeps the coordinates and is well shaped. |
| DashboardAnalysis.MaskBinValues | main.py:1780-1781 | A year's bin of the mask is the mask of that year's bin. |
| DashboardAnalysis.ThresholdDaysAreCounts | main.py:1780-1781 | Each yearly cell is the number of that year's days on which the pixel reached the threshold. It is never missing and at most that year's day count. |
| DashboardAnalysis.TrendDrawn | main.py:1713-1744 | The trend is drawn only where the test ran. The temporal view draws exactly with two present values and no ValueError. The other views draw exactly with more than two values. |
| DashboardAnalysis.TestInvoked | main.py:1713-1715 | Outside the quantile view the test runs only on at least two values. |
| DashboardAnalysis.GuardsDiffer | main.py:1892-1898 | Two values suffice for the temporal view but not the seasonal one. One present value out of three passes the seasonal guard but not the temporal one. The quantile view runs the test on an empty series. |
| DashboardAnalysis.GuardMinimum | main.py:1573 | Outside the quantile view the test never sees fewer than two values, and in the temporal view never fewer than two present ones. |
| ChirpsPreprocessing.LastField | CHIRPS_PREPROCESSING.py:52 | `split(sep)[-1]` is a suffix free of the separator, preceded by the separator unless it is the whole string. |
| ChirpsPreprocessing.LastFieldOfJoined | CHIRPS_PREPROCESSING.py:52 | A separator-free field after the last separator is recovered whole. |
| ChirpsPreprocessing.YearOfName | CHIRPS_PREPROCESSING.py:52 | A name whose last underscore field is empty has no year, as `int('')` raises. |
| ChirpsPreprocessing.GetExistingYears | CHIRPS_PREPROCESSING.py:50-52 | Every year in the result is one that some matching name stands for. |
| ChirpsPreprocessing.ExistingYearsSpec | CHIRPS_PREPROCESSING.py:50-52 | The call fails exactly when some matching name does not end in an integer. Otherwise the set holds exactly the years that matching names stand for. |
| ChirpsPreprocessing.LocalName | CHIRPS_PREPROCESSING.py:64 | A year's local name matches the glob `chirps_*.nc`. |
| ChirpsPreprocessing.RemoteUrl | CHIRPS_PREPROCESSING.py:63 | A URL starts with the base URL and ends with `.days_p05.nc`. |
| ChirpsPreprocessing.LocalNameRoundTrip | CHIRPS_PREPROCESSING.py:64 | A year's local name matches `chirps_*.nc` and parses back to that year. |
| ChirpsPreprocessing.LocalNameInjective | CHIRPS_PREPROCESSING.py:64 | Different years get different local names. |
| ChirpsPreprocessing.RemoteUrlInjective | CHIRPS_PREPROCESSING.py:63 | Different years get different URLs. |
| ChirpsPreprocessing.Years | CHIRPS_PREPROCESSING.py:57 | The set holds exactly the years from lo to hi. |
| ChirpsPreprocessing.DetermineYearsToDownload | CHIRPS_PREPROCESSING.py:54-58 | The plan is strictly ascending. It holds exactly the years from 2024 to the current year that are not on disk. |
| ChirpsPreprocessing.CompleteRangePlansNothing | CHIRPS_PREPROCESSING.py:57-58 | With the whole range on disk nothing is planned. |
| ChirpsPreprocessing.DownloadTargets | CHIRPS_PREPROCESSING.py:62-64 | Each planned year gets its URL and local name, in plan order. |
| ChirpsPreprocessing.TargetsDistinct | CHIRPS_PREPROCESSING.py:62-64 | No two planned years share a URL or a local file. |
| ChirpsPreprocessing.ReadBackAppended | CHIRPS_PREPROCESSING.py:50-52 | Adding files whose names parse extends the read-back set by exactly their years. |
| ChirpsPreprocessing.PlannedNames | CHIRPS_PREPROCESSING.py:64 | The local file names of a plan, in order. |
| ChirpsPreprocessing.ReplanAfterDownloadIsEmpty | CHIRPS_PREPROCESSING.py:50-64 | After the planned files are written, the directory reads back as the old years plus the planned ones, and planning again asks for nothing. |

## Left out

- Network and file I/O are not modelled:
  - the NetCDF write and re-read of `preprocess`
  - `download_chirps` and the body of `download_yearly_files`
  - `create_merged_dataset`
  - the shapefile reads
  The write and re-read also turn stored −99.9 values into NaN; the model applies the fill-value filter to whatever values it is given.
- Geometry clipping (`rio.clip`) is a GIS library call; the model's grids are the clipped grids.
- Plotting, Dash layouts and styles, and the `utils/` figure builders are presentation and are not modelled.
- Mean reductions over lat/lon and over time involve float averaging and are not modelled. This includes the area-mean dataframe `process` returns.
- `np.percentile` in the quantile branch is library numerics and is not modelled.
- The internals of `pymannkendall.original_test` and `climate_indices.indices.spi` are library numerics; both are function parameters.
- Floating point: values are exact reals, so there is no rounding, infinity or NaN arithmetic.
- `apply_ufunc` with dask and `lru_cache` loading are runtime plumbing; the pixel map is a plain sequential map.
- LoadDataset.BinSum: does not state the value of a bin with no present value, because xarray's result there depends on its version. It is the parameter `allMissing`.
- LoadDataset.Resample: bins exist only for periods that hold a time step. Empty periods inside the range, which pandas would emit, are not modelled.
- LoadDataset.Process: the clip to the shapefile before the sums is not modelled, as above.
- DroughtMap.HoverText: the `:.2f` formatting of the value, latitude and longitude is a parameter, so the label's digits are not stated.
- DroughtMap.BuildHoverText: the element type is `string` rather than a NumPy object array. Its `fresh` contract says the array is new.
- DashboardAnalysis.TemporalWindow: the daily dates are taken as parsed dates, and `str()` of a date and pandas' `sel` string parsing are not modelled. A frequency other than "Daily" and "Monthly" is handled as "Yearly", as in the code.
- DashboardAnalysis.TrendDrawn: whether `original_test` raises `ValueError` is a parameter.
- DashboardAnalysis.CheckIncompleteSeason: the clock is the parameter pair (current year, current month). The season is a datatype, so an unknown season key is not representable.
- DashboardAnalysis.UpdateEndMonthOptions: `max_date` is a parameter. Python's `==` between an int and `None` is the `Option` comparison.
- ChirpsPreprocessing.GetExistingYears: Python's `int()` also accepts non-ASCII digits and underscores between digits; the model parses ASCII digits with an optional sign. Only the six ASCII whitespace characters are stripped around them, while `int()` also strips \x1c-\x1f, \x85, \xa0 and the other Unicode spaces. A directory listing is a sequence of names.
- The rest of `update_drought_analysis` is not modelled: the SPI recomputation call, the `sel` by target date with its `KeyError`, and the clip fallback. Its hover loop and class lookup are modelled.
