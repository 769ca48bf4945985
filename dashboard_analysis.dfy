/**
 * The analysis callbacks of `main.py`, apart from plotting: the
 * incomplete-season warning, the end-month options, the date windows of the
 * temporal view, the threshold-day count, and the guards that decide when
 * the Mann-Kendall trend test runs.
 */
module DashboardAnalysis {
  import opened Wrappers
  import opened Text
  import opened Calendar
  import opened Grids
  import opened LoadDataset
  import opened DashboardTables
  import opened DashboardRouting

  // ---------------------------------------------------------------------------
  // check_incomplete_season

  /** The months of `ms` after `month`, in order: `[m for m in ms if m > month]`. */
  function MonthsAfter(ms: seq<int>, month: int): (r: seq<int>)
    ensures forall m :: m in r <==> m in ms && m > month
    ensures |r| <= |ms|
  {
    if |ms| == 0 then []
    else (if ms[0] > month then [ms[0]] else []) + MonthsAfter(ms[1..], month)
  }

  /** The months the check looks at: Winter only counts January and February, since December fell in the previous year. */
  function CheckedMonths(s: Season): (ms: seq<int>)
    ensures forall m :: m in ms ==> m in SeasonMonths(s) && m != 12
    ensures s != Winter ==> ms == SeasonMonths(s)
  {
    if s == Winter then [1, 2] else SeasonMonths(s)
  }

  /** The months of the selected season-year that have not happened yet; `now` is `(year, month)`. */
  function IncompleteMonths(s: Season, endYear: int, currentYear: int, currentMonth: int): (ms: seq<int>)
    ensures forall k :: 0 <= k < |ms| ==> 1 <= ms[k] <= 12
  {
    SeasonsPartitionMonths();
    var ms := if endYear == currentYear then MonthsAfter(CheckedMonths(s), currentMonth) else [];
    assert forall k :: 0 <= k < |ms| ==> ms[k] in ms;
    ms
  }

  /** The warning text: the emoji U+26A0 U+FE0F, the season and year, then the missing month names. */
  function WarningText(s: Season, endYear: int, months: seq<int>): (text: string)
    requires forall k :: 0 <= k < |months| ==> 1 <= months[k] <= 12
    ensures StartsWith(text, "\U{26A0}\U{FE0F} Warning: " + SeasonName(s) + " " + IntToString(endYear))
    ensures EndsWith(text, "). Results may be biased.")
  {
    "\U{26A0}\U{FE0F} Warning: " + SeasonName(s) + " " + IntToString(endYear)
      + " data is incomplete (missing "
      + Join(", ", seq(|months|, k requires 0 <= k < |months| => MonthName(months[k])))
      + "). Results may be biased."
  }

  datatype SeasonWarning = SeasonWarning(text: string, isOpen: bool)

  /** `check_incomplete_season`, with the clock's year and month as parameters. */
  function CheckIncompleteSeason(s: Season, endYear: int, currentYear: int, currentMonth: int): (w: SeasonWarning)
    ensures w.isOpen <==> |IncompleteMonths(s, endYear, currentYear, currentMonth)| > 0
    ensures !w.isOpen ==> w.text == ""
    ensures w.isOpen ==> w.text != ""
    ensures w.isOpen ==> w.text == WarningText(s, endYear, IncompleteMonths(s, endYear, currentYear, currentMonth))
  {
    var months := IncompleteMonths(s, endYear, currentYear, currentMonth);
    SeasonsPartitionMonths();
    if |months| > 0 then
      assert forall k :: 0 <= k < |months| ==> months[k] in SeasonMonths(s);
      var t := WarningText(s, endYear, months);
      assert t[0] == '\U{26A0}';
      SeasonWarning(t, true)
    else SeasonWarning("", false)
  }

  /**
   * A season-year other than the current one is never flagged; in the current
   * year the flagged months are exactly the checked months still to come, and
   * December is never among them.
   */
  lemma IncompleteSeasonRule(s: Season, endYear: int, currentYear: int, currentMonth: int)
    ensures endYear != currentYear ==> CheckIncompleteSeason(s, endYear, currentYear, currentMonth) == SeasonWarning("", false)
    ensures endYear == currentYear ==> forall m ::
      m in IncompleteMonths(s, endYear, currentYear, currentMonth) <==> m in CheckedMonths(s) && m > currentMonth
    ensures 12 !in IncompleteMonths(s, endYear, currentYear, currentMonth)
    ensures s == Winter ==> forall m :: m in IncompleteMonths(s, endYear, currentYear, currentMonth) ==> m == 1 || m == 2
  {
  }

  /** In December every season of the current year is complete. */
  lemma DecemberNoWarning(s: Season, year: int)
    ensures !CheckIncompleteSeason(s, year, year, 12).isOpen
  {
    SeasonsPartitionMonths();
    var ms := CheckedMonths(s);
    assert forall k :: 0 <= k < |ms| ==> ms[k] in SeasonMonths(s);
    NothingAfterDecember(ms);
  }

  /** No calendar month comes after December. */
  lemma {:induction false} NothingAfterDecember(ms: seq<int>)
    requires forall k :: 0 <= k < |ms| ==> ms[k] <= 12
    ensures MonthsAfter(ms, 12) == []
  {
    if |ms| > 0 {
      assert forall k :: 0 <= k < |ms[1..]| ==> ms[1..][k] == ms[k + 1];
      NothingAfterDecember(ms[1..]);
    }
  }

  // ---------------------------------------------------------------------------
  // update_end_month_options

  datatype MonthOption = MonthOption(name: string, value: int)

  /** `[{'label': month_name[i], 'value': i} for i in range(1, last + 1)]`. */
  function MonthOptions(last: int): (os: seq<MonthOption>)
    requires 1 <= last <= 12
    ensures |os| == last
    ensures forall k :: 0 <= k < |os| ==> os[k].value == k + 1 && os[k].name == MonthName(k + 1)
  {
    seq(last, k requires 0 <= k < last => MonthOption(MonthName(k + 1), k + 1))
  }

  datatype EndMonth = EndMonth(options: seq<MonthOption>, value: int)

  /** `update_end_month_options`, with the dataset's `max_date` as a parameter. */
  function UpdateEndMonthOptions(selectedEndYear: Option<int>, maxDate: Date): (e: EndMonth)
    requires ValidDate(maxDate)
    ensures selectedEndYear == Some(maxDate.year) ==> |e.options| == maxDate.month && e.value == maxDate.month
    ensures selectedEndYear != Some(maxDate.year) ==> |e.options| == 12 && e.value == 12
    ensures forall k :: 0 <= k < |e.options| ==> e.options[k].value == k + 1 && e.options[k].name == MonthName(k + 1)
  {
    if selectedEndYear == Some(maxDate.year) then EndMonth(MonthOptions(maxDate.month), maxDate.month)
    else EndMonth(MonthOptions(12), 12)
  }

  /** The selected value is always one of the offered options, and no offered month lies past the data. */
  lemma EndMonthValueOffered(selectedEndYear: Option<int>, maxDate: Date)
    requires ValidDate(maxDate)
    ensures var e := UpdateEndMonthOptions(selectedEndYear, maxDate);
      (exists k :: 0 <= k < |e.options| && e.options[k].value == e.value)
      && (selectedEndYear.Some? && selectedEndYear.value == maxDate.year ==>
            forall k :: 0 <= k < |e.options| ==> NotAfter(Calendar.MonthEnd(maxDate.year, e.options[k].value), Calendar.MonthEnd(maxDate.year, maxDate.month)))
  {
    var e := UpdateEndMonthOptions(selectedEndYear, maxDate);
    assert e.options[e.value - 1].value == e.value;
  }

  // ---------------------------------------------------------------------------
  // update_temporal_analysis: the date window

  datatype Window = Window(start: Date, end: Date)

  predicate InWindow(w: Window, d: Date) { NotAfter(w.start, d) && NotAfter(d, w.end) }

  datatype TemporalInputs = TemporalInputs(
    dailyStart: Option<Date>, dailyEnd: Option<Date>,
    monthlyStartYear: Option<int>, monthlyStartMonth: Option<int>,
    monthlyEndYear: Option<int>, monthlyEndMonth: Option<int>,
    yearlyStartYear: Option<int>, yearlyEndYear: Option<int>)

  /** The month inputs name calendar months whenever they are set (`date()` raises otherwise). */
  predicate MonthsInRange(x: TemporalInputs) {
    (Truthy(x.monthlyStartMonth) ==> 1 <= x.monthlyStartMonth.value <= 12)
    && (Truthy(x.monthlyEndMonth) ==> 1 <= x.monthlyEndMonth.value <= 12)
  }

  /**
   * The window `update_temporal_analysis` selects, or `None` when a needed
   * input is unset and the callback returns empty figures. Any frequency other
   * than Daily and Monthly is handled as Yearly.
   */
  function TemporalWindow(freq: string, x: TemporalInputs): (w: Option<Window>)
    requires freq == "Monthly" ==> MonthsInRange(x)
    ensures freq == "Daily" ==> (w.Some? <==> x.dailyStart.Some? && x.dailyEnd.Some?)
    ensures freq == "Daily" && w.Some? ==> w.value == Window(x.dailyStart.value, x.dailyEnd.value)
    ensures freq == "Monthly" ==> (w.Some? <==>
      Truthy(x.monthlyStartYear) && Truthy(x.monthlyStartMonth) && Truthy(x.monthlyEndYear) && Truthy(x.monthlyEndMonth))
    ensures freq == "Monthly" && w.Some? ==>
      && ValidDate(w.value.start) && ValidDate(w.value.end)
      && w.value.start.year == x.monthlyStartYear.value && w.value.start.month == x.monthlyStartMonth.value
      && w.value.end.year == x.monthlyEndYear.value && w.value.end.month == x.monthlyEndMonth.value
      && w.value.start.day == DaysInMonth(w.value.start.year, w.value.start.month)
      && w.value.end.day == DaysInMonth(w.value.end.year, w.value.end.month)
    ensures freq != "Daily" && freq != "Monthly" ==> (w.Some? <==> Truthy(x.yearlyStartYear) && Truthy(x.yearlyEndYear))
    ensures freq != "Daily" && freq != "Monthly" && w.Some? ==>
      w.value == Window(Date(x.yearlyStartYear.value, 1, 1), Date(x.yearlyEndYear.value, 12, 31))
  {
    if freq == "Daily" then
      if x.dailyStart.None? || x.dailyEnd.None? then None
      else Some(Window(x.dailyStart.value, x.dailyEnd.value))
    else if freq == "Monthly" then
      if !Truthy(x.monthlyStartYear) || !Truthy(x.monthlyStartMonth) || !Truthy(x.monthlyEndYear) || !Truthy(x.monthlyEndMonth) then None
      else Some(Window(Calendar.MonthEnd(x.monthlyStartYear.value, x.monthlyStartMonth.value),
                       Calendar.MonthEnd(x.monthlyEndYear.value, x.monthlyEndMonth.value)))
    else
      if !Truthy(x.yearlyStartYear) || !Truthy(x.yearlyEndYear) then None
      else Some(Window(Date(x.yearlyStartYear.value, 1, 1), Date(x.yearlyEndYear.value, 12, 31)))
  }

  predicate MonthNotBefore(y1: int, m1: int, y2: int, m2: int) { y1 < y2 || (y1 == y2 && m1 <= m2) }

  /**
   * Monthly labels are month ends, and both ends of a monthly window are moved
   * to month ends: the label of month (y, m) is selected exactly when that
   * month lies between the chosen start and end months, inclusive.
   */
  lemma MonthlyWindowSelectsMonths(sy: int, sm: int, ey: int, em: int, y: int, m: int)
    requires 1 <= sm <= 12 && 1 <= em <= 12 && 1 <= m <= 12
    ensures InWindow(Window(Calendar.MonthEnd(sy, sm), Calendar.MonthEnd(ey, em)), Calendar.MonthEnd(y, m))
      <==> MonthNotBefore(sy, sm, y, m) && MonthNotBefore(y, m, ey, em)
  {
  }

  /** A yearly window selects the year-end label of exactly the years from the start to the end year. */
  lemma YearlyWindowSelectsYears(sy: int, ey: int, y: int)
    ensures InWindow(Window(Date(sy, 1, 1), Date(ey, 12, 31)), Date(y, 12, 31)) <==> sy <= y <= ey
  {
  }

  /** `dataset.sel(time=slice(start, end))`: the records whose label lies in the window, both ends included. */
  function SelectWindow(g: Grid, w: Window): (r: Grid)
    ensures r.lat == g.lat && r.lon == g.lon
    ensures forall k :: 0 <= k < |r.records| ==> InWindow(w, r.records[k].time)
    ensures forall x :: multiset(r.records)[x] == if InWindow(w, x.time) then multiset(g.records)[x] else 0
  {
    g.(records := FilterByTime(g.records, (d: Date) => InWindow(w, d)))
  }

  // ---------------------------------------------------------------------------
  // update_indices_analysis, threshold branch: days at or above the threshold

  /** `xr.where(tp >= threshold, 1, 0)`; a NaN compares false and gives 0. */
  function Exceeds(v: Value, threshold: real): (r: real)
    ensures r == 1.0 <==> v.Some? && v.value >= threshold
    ensures r == 0.0 || r == 1.0
  {
    if v.Some? && v.value >= threshold then 1.0 else 0.0
  }

  /** The binary mask of the whole grid: same labels and shape, no missing cell. */
  function ThresholdMask(g: Grid, threshold: real): (r: Grid)
    requires WellShaped(g)
    ensures WellShaped(r) && r.lat == g.lat && r.lon == g.lon && Times(r) == Times(g)
    ensures forall t, i, j :: 0 <= t < |g.records| && 0 <= i < |g.lat| && 0 <= j < |g.lon| ==>
      r.records[t].slice[i][j] == Some(Exceeds(g.records[t].slice[i][j], threshold))
  {
    var r := Grid(g.lat, g.lon, seq(|g.records|, t requires 0 <= t < |g.records| =>
      Record(g.records[t].time,
        seq(|g.lat|, i requires 0 <= i < |g.lat| =>
          seq(|g.lon|, j requires 0 <= j < |g.lon| => Some(Exceeds(g.records[t].slice[i][j], threshold)))))));
    assert Times(r) == Times(g);
    r
  }

  /** The number of present entries at or above the threshold. */
  function CountAtLeast(vs: seq<Value>, threshold: real): (n: nat)
    ensures n <= |vs|
  {
    if |vs| == 0 then 0
    else CountAtLeast(vs[..|vs| - 1], threshold) + (if Exceeds(vs[|vs| - 1], threshold) == 1.0 then 1 else 0)
  }

  /** Summing the mask of a series counts its days at or above the threshold. */
  lemma {:induction false} MaskSumIsCount(vs: seq<Value>, threshold: real)
    ensures SkipSum(seq(|vs|, k requires 0 <= k < |vs| => Some(Exceeds(vs[k], threshold)))) == CountAtLeast(vs, threshold) as real
  {
    var ms := seq(|vs|, k requires 0 <= k < |vs| => Some(Exceeds(vs[k], threshold)));
    if |vs| > 0 {
      var init := vs[..|vs| - 1];
      MaskSumIsCount(init, threshold);
      assert ms[..|ms| - 1] == seq(|init|, k requires 0 <= k < |init| => Some(Exceeds(init[k], threshold)));
    }
  }

  /** `binary_mask.resample(time='YE').sum(dim=['time'])`: threshold days per pixel and year. */
  function ThresholdDaysPerYear(g: Grid, threshold: real): (r: Grid)
    requires WellShaped(g)
    ensures WellShaped(r) && r.lat == g.lat && r.lon == g.lon
  {
    Resample(ThresholdMask(g, threshold), YearEnd, None)
  }

  /** The mask keeps the time axis, so a year's bin of the mask is the mask of that year's bin. */
  lemma MaskBinValues(g: Grid, threshold: real, k: int, i: nat, j: nat)
    requires WellShaped(g) && i < |g.lat| && j < |g.lon|
    ensures var vs := BinValues(g, YearEnd, k, i, j);
      BinValues(ThresholdMask(g, threshold), YearEnd, k, i, j)
        == seq(|vs|, m requires 0 <= m < |vs| => Some(Exceeds(vs[m], threshold)))
  {
    var mg := ThresholdMask(g, threshold);
    assert Members(mg, YearEnd, k) == Members(g, YearEnd, k) by {
      assert forall t :: 0 <= t < |g.records| ==> mg.records[t].time == Times(mg)[t] == Times(g)[t] == g.records[t].time;
      assert seq(|mg.records|, t requires 0 <= t < |mg.records| => PeriodKey(YearEnd, mg.records[t].time) == k)
          == seq(|g.records|, t requires 0 <= t < |g.records| => PeriodKey(YearEnd, g.records[t].time) == k);
    }
  }

  /**
   * Each yearly cell counts the days of that year on which the pixel reached
   * the threshold; a NaN day never counts and no cell is missing.
   */
  lemma ThresholdDaysAreCounts(g: Grid, threshold: real, b: nat, i: nat, j: nat)
    requires WellShaped(g) && i < |g.lat| && j < |g.lon|
    requires b < |ThresholdDaysPerYear(g, threshold).records|
    ensures var mg := ThresholdMask(g, threshold);
      var key := PeriodKeys(mg, YearEnd)[b];
      var vs := BinValues(g, YearEnd, key, i, j);
      ThresholdDaysPerYear(g, threshold).records[b].slice[i][j] == Some(CountAtLeast(vs, threshold) as real)
      && CountAtLeast(vs, threshold) <= |vs|
  {
    var mg := ThresholdMask(g, threshold);
    var key := PeriodKeys(mg, YearEnd)[b];
    var vs := BinValues(g, YearEnd, key, i, j);
    var ms := BinValues(mg, YearEnd, key, i, j);
    MaskBinValues(g, threshold, key, i, j);
    MaskSumIsCount(vs, threshold);
    assert key in PeriodKeys(mg, YearEnd);
    BinValuesOfPeriod(mg, YearEnd, key, i, j);
    assert ms[0].Some?;
    assert BinRecord(mg, YearEnd, key, None).slice[i][j] == BinSum(ms, None);
  }

  // ---------------------------------------------------------------------------
  // the guards in front of mk.original_test

  /** The four places that draw a trend line. */
  datatype TrendPanel = SeasonalTrend | TemporalTrend | ThresholdTrend | QuantileTrend

  /**
   * Whether `mk.original_test` is called on `values`: the seasonal and
   * threshold views need more than two yearly values, the temporal view at
   * least two values that survive `dropna`, and the quantile view calls it
   * before looking at the length.
   */
  function TestInvoked(p: TrendPanel, values: seq<Value>): (invoked: bool)
    ensures invoked && p != QuantileTrend ==> |values| >= 2
  {
    match p
    case SeasonalTrend => |values| > 2
    case ThresholdTrend => |values| > 2
    case TemporalTrend => CountPresent(values) >= 2
    case QuantileTrend => true
  }

  /**
   * Whether the trend figure is drawn rather than the "Not enough data points"
   * figure. In the temporal view the test may raise `ValueError`, given here as
   * `raises`, which also leaves the figure undrawn.
   */
  function TrendDrawn(p: TrendPanel, values: seq<Value>, raises: bool): (drawn: bool)
    ensures drawn ==> TestInvoked(p, values)
    ensures p == TemporalTrend ==> (drawn <==> CountPresent(values) >= 2 && !raises)
    ensures p != TemporalTrend ==> (drawn <==> |values| > 2)
  {
    match p
    case TemporalTrend => CountPresent(values) >= 2 && !raises
    case _ => |values| > 2
  }

  /**
   * The guards differ: two values are enough for the temporal view but not
   * for the seasonal one, a series with a single present value passes the
   * seasonal guard but not the temporal one, and the quantile view runs the
   * test even on an empty series.
   */
  lemma GuardsDiffer()
    ensures TestInvoked(TemporalTrend, [Some(1.0), Some(2.0)]) && !TestInvoked(SeasonalTrend, [Some(1.0), Some(2.0)])
    ensures TestInvoked(SeasonalTrend, [Some(1.0), None, None]) && !TestInvoked(TemporalTrend, [Some(1.0), None, None])
    ensures TestInvoked(QuantileTrend, []) && !TrendDrawn(QuantileTrend, [], false)
  {
    var two: seq<Value> := [Some(1.0), Some(2.0)];
    assert two[..1] == [Some(1.0)] && two[..1][..0] == [];
    var one: seq<Value> := [Some(1.0), None, None];
    assert one[..2] == [Some(1.0), None] && one[..2][..1] == [Some(1.0)] && one[..2][..1][..0] == [];
  }

  /** Outside the quantile view the test never sees fewer than two values, and in the temporal view never fewer than two present ones. */
  lemma GuardMinimum(p: TrendPanel, values: seq<Value>)
    requires p != QuantileTrend && TestInvoked(p, values)
    ensures |values| >= 2
    ensures p == TemporalTrend ==> CountPresent(values) >= 2
  {
  }
}
