/**
 * `load_dataset.py`: the sentinel drop of `preprocess`, the hydrological-year
 * relabelling, the future-year filter and the sort of
 * `load_hydrological_year_dataset`, and the monthly and yearly sums and the
 * date bounds of `process`.
 */
module LoadDataset {
  import opened Wrappers
  import opened Calendar
  import opened Grids
  import opened Sequences

  // ---------------------------------------------------------------------------
  // preprocess: drop the -99.9 fill value

  const Sentinel: real := -99.9

  /** `tp != -99.9`; a NaN is unequal to the sentinel, so it passes. */
  predicate PassesFill(v: Value) { v != Some(Sentinel) }

  /** No cell of the grid holds the fill value. */
  predicate NoSentinel(g: Grid)
    requires WellShaped(g)
  {
    forall t, i, j :: 0 <= t < |g.records| && 0 <= i < |g.lat| && 0 <= j < |g.lon| ==>
      g.records[t].slice[i][j] != Some(Sentinel)
  }

  /** `where` keeps a passing value and turns a failing one into NaN. */
  function MaskFill(v: Value): Value { if PassesFill(v) then v else None }

  /** Time steps with at least one passing cell: the labels `drop=True` keeps along time. */
  function KeepTimes(g: Grid): seq<bool>
    requires WellShaped(g)
  {
    seq(|g.records|, t requires 0 <= t < |g.records| =>
      exists i, j | 0 <= i < |g.lat| && 0 <= j < |g.lon| :: PassesFill(g.records[t].slice[i][j]))
  }

  /** Latitudes with at least one passing cell. */
  function KeepLats(g: Grid): seq<bool>
    requires WellShaped(g)
  {
    seq(|g.lat|, i requires 0 <= i < |g.lat| =>
      exists t, j | 0 <= t < |g.records| && 0 <= j < |g.lon| :: PassesFill(g.records[t].slice[i][j]))
  }

  /** Longitudes with at least one passing cell. */
  function KeepLons(g: Grid): seq<bool>
    requires WellShaped(g)
  {
    seq(|g.lon|, j requires 0 <= j < |g.lon| =>
      exists t, i | 0 <= t < |g.records| && 0 <= i < |g.lat| :: PassesFill(g.records[t].slice[i][j]))
  }

  predicate Indices(idx: seq<nat>, n: nat) {
    forall k :: 0 <= k < |idx| ==> idx[k] < n
  }

  /** The sub-grid at the chosen positions of each axis, with the fill value masked. */
  function SelectMasked(g: Grid, ts: seq<nat>, ls: seq<nat>, ns: seq<nat>): (r: Grid)
    requires WellShaped(g) && Indices(ts, |g.records|) && Indices(ls, |g.lat|) && Indices(ns, |g.lon|)
    ensures |r.records| == |ts| && |r.lat| == |ls| && |r.lon| == |ns|
    ensures forall a :: 0 <= a < |ts| ==> r.records[a].time == g.records[ts[a]].time
    ensures forall b :: 0 <= b < |ls| ==> r.lat[b] == g.lat[ls[b]]
    ensures forall c :: 0 <= c < |ns| ==> r.lon[c] == g.lon[ns[c]]
    ensures forall a :: 0 <= a < |ts| ==>
      SliceShaped(r.records[a].slice, |ls|, |ns|) &&
      forall b, c :: 0 <= b < |ls| && 0 <= c < |ns| ==>
        r.records[a].slice[b][c] == MaskFill(g.records[ts[a]].slice[ls[b]][ns[c]])
  {
    Grid(
      seq(|ls|, b requires 0 <= b < |ls| => g.lat[ls[b]]),
      seq(|ns|, c requires 0 <= c < |ns| => g.lon[ns[c]]),
      seq(|ts|, a requires 0 <= a < |ts| =>
        Record(g.records[ts[a]].time,
          seq(|ls|, b requires 0 <= b < |ls| =>
            seq(|ns|, c requires 0 <= c < |ns| => MaskFill(g.records[ts[a]].slice[ls[b]][ns[c]]))))))
  }

  /**
   * `ds.where(ds.tp != -99.9, drop=True)`: every coordinate label whose cells
   * all equal the sentinel is dropped, and remaining sentinel cells become NaN.
   */
  function DropFillValue(g: Grid): (r: Grid)
    requires WellShaped(g)
    ensures WellShaped(r) && NoSentinel(r)
  {
    SelectMasked(g, TrueIndices(KeepTimes(g)), TrueIndices(KeepLats(g)), TrueIndices(KeepLons(g)))
  }

  /**
   * The kept labels, in their original order, are those with a passing cell,
   * and every passing value is kept unchanged.
   */
  lemma DropFillValueKeeps(g: Grid)
    requires WellShaped(g)
    ensures var r := DropFillValue(g);
      var ts, ls, ns := TrueIndices(KeepTimes(g)), TrueIndices(KeepLats(g)), TrueIndices(KeepLons(g));
      |r.records| == |ts| && |r.lat| == |ls| && |r.lon| == |ns|
      && (forall a :: 0 <= a < |ts| ==> r.records[a].time == g.records[ts[a]].time)
      && (forall b :: 0 <= b < |ls| ==> r.lat[b] == g.lat[ls[b]])
      && (forall c :: 0 <= c < |ns| ==> r.lon[c] == g.lon[ns[c]])
      && (forall a, b, c :: 0 <= a < |ts| && 0 <= b < |ls| && 0 <= c < |ns| ==>
            PassesFill(g.records[ts[a]].slice[ls[b]][ns[c]]) ==>
              r.records[a].slice[b][c] == g.records[ts[a]].slice[ls[b]][ns[c]])
  {
  }

  /** A time step is dropped exactly when every one of its cells is the sentinel. */
  lemma DroppedTimesAreAllFill(g: Grid, t: nat)
    requires WellShaped(g) && t < |g.records|
    ensures t !in TrueIndices(KeepTimes(g)) <==>
      forall i, j :: 0 <= i < |g.lat| && 0 <= j < |g.lon| ==> g.records[t].slice[i][j] == Some(Sentinel)
  {
    var ts := TrueIndices(KeepTimes(g));
    if t in ts {
      var k :| 0 <= k < |ts| && ts[k] == t;
      assert KeepTimes(g)[t];
    }
  }

  /** The kept time steps are a subsequence: distinct input times stay distinct. */
  lemma DropFillValueKeepsDistinct(g: Grid)
    requires WellShaped(g) && DistinctTimes(g.records)
    ensures DistinctTimes(DropFillValue(g).records)
  {
    var r, ts := DropFillValue(g), TrueIndices(KeepTimes(g));
    forall a, b | 0 <= a < b < |r.records| ensures r.records[a].time != r.records[b].time {
      assert ts[a] < ts[b];
    }
  }

  // ---------------------------------------------------------------------------
  // seasonal_calculation: December belongs to the next hydrological year

  /** `np.where(month == 12, year + 1, year)`. */
  function SeasonYear(d: Date): int {
    if d.month == 12 then d.year + 1 else d.year
  }

  /** The date rebuilt from its season year, month and day. */
  function SeasonalDate(d: Date): (s: Date)
    ensures s.month == d.month && s.day == d.day
    ensures s.year == if d.month == 12 then d.year + 1 else d.year
  {
    Date(SeasonYear(d), d.month, d.day)
  }

  /** The relabelled date is a real date: December has 31 days in every year. */
  lemma SeasonalDateValid(d: Date)
    requires ValidDate(d)
    ensures ValidDate(SeasonalDate(d))
  {
  }

  /** No two distinct dates get the same label. */
  lemma SeasonalDateInjective(d: Date, e: Date)
    requires SeasonalDate(d) == SeasonalDate(e)
    ensures d == e
  {
  }

  /** `dataset.assign_coords(time=seasonal_date)`: values stay, labels change. */
  function SeasonalCalculation(g: Grid): (r: Grid)
    ensures r.lat == g.lat && r.lon == g.lon && |r.records| == |g.records|
    ensures forall t :: 0 <= t < |g.records| ==>
      r.records[t].time == SeasonalDate(g.records[t].time) && r.records[t].slice == g.records[t].slice
  {
    g.(records := seq(|g.records|, t requires 0 <= t < |g.records| =>
      g.records[t].(time := SeasonalDate(g.records[t].time))))
  }

  lemma SeasonalCalculationKeepsDistinct(g: Grid)
    requires DistinctTimes(g.records)
    ensures DistinctTimes(SeasonalCalculation(g).records)
  {
    var r := SeasonalCalculation(g);
    forall k, l | 0 <= k < l < |r.records| ensures r.records[k].time != r.records[l].time {
      if r.records[k].time == r.records[l].time {
        SeasonalDateInjective(g.records[k].time, g.records[l].time);
      }
    }
  }

  // ---------------------------------------------------------------------------
  // load_hydrological_year_dataset: drop future labels, then sort

  /** `dataset.where(dataset['time.year'] <= current_year, drop=True)`. */
  function DropFutureYears(g: Grid, currentYear: int): (r: Grid)
    ensures r.lat == g.lat && r.lon == g.lon
    ensures forall k :: 0 <= k < |r.records| ==> r.records[k].time.year <= currentYear
    ensures forall x :: multiset(r.records)[x] == if x.time.year <= currentYear then multiset(g.records)[x] else 0
  {
    g.(records := FilterByTime(g.records, (d: Date) => d.year <= currentYear))
  }

  predicate SortedByTime(rs: seq<Record>) {
    forall k, l :: 0 <= k < l < |rs| ==> NotAfter(rs[k].time, rs[l].time)
  }

  predicate StrictlyAscending(rs: seq<Record>) {
    forall k, l :: 0 <= k < l < |rs| ==> Before(rs[k].time, rs[l].time)
  }

  /** Insert one record into a time-sorted sequence. */
  function Insert(x: Record, rs: seq<Record>): (r: seq<Record>)
    requires SortedByTime(rs)
    ensures SortedByTime(r)
    ensures multiset(r) == multiset(rs) + multiset{x}
    ensures forall y :: y in r <==> y == x || y in rs
  {
    if |rs| == 0 then [x]
    else if NotAfter(x.time, rs[0].time) then [x] + rs
    else
      var tail := Insert(x, rs[1..]);
      assert rs == [rs[0]] + rs[1..];
      var r := [rs[0]] + tail;
      forall l | 0 < l < |r| ensures NotAfter(r[0].time, r[l].time) {
        BeforeIsStrictTotalOrder(rs[0].time, x.time, x.time);
        assert r[l] in tail;
        if r[l] != x {
          assert r[l] in rs[1..];
          var m :| 1 <= m < |rs| && rs[m] == r[l];
        }
      }
      r
  }

  /** `dataset.sortby('time')`: a time-ordered permutation of the records. */
  function SortByTime(rs: seq<Record>): (r: seq<Record>)
    ensures SortedByTime(r)
    ensures multiset(r) == multiset(rs)
  {
    if |rs| == 0 then []
    else
      assert rs == [rs[0]] + rs[1..];
      Insert(rs[0], SortByTime(rs[1..]))
  }

  /** Inserting a record whose time is new into a strictly ascending sequence keeps it strictly ascending. */
  lemma {:induction false} InsertStrict(x: Record, rs: seq<Record>)
    requires SortedByTime(rs) && StrictlyAscending(rs)
    requires forall y :: y in rs ==> y.time != x.time
    ensures StrictlyAscending(Insert(x, rs))
  {
    if |rs| > 0 {
      BeforeIsStrictTotalOrder(x.time, rs[0].time, rs[0].time);
      if NotAfter(x.time, rs[0].time) {
        InsertFrontStrict(x, rs);
      } else {
        var rest := rs[1..];
        assert StrictlyAscending(rest) by {
          forall k, l | 0 <= k < l < |rest| ensures Before(rest[k].time, rest[l].time) {
            assert rest[k] == rs[k + 1] && rest[l] == rs[l + 1];
          }
        }
        assert forall y :: y in rest ==> y in rs;
        InsertStrict(x, rest);
        InsertBehindStrict(x, rs);
      }
    }
  }

  /** The case where `x` goes in front. */
  lemma InsertFrontStrict(x: Record, rs: seq<Record>)
    requires SortedByTime(rs) && StrictlyAscending(rs) && |rs| > 0
    requires forall y :: y in rs ==> y.time != x.time
    requires NotAfter(x.time, rs[0].time)
    ensures StrictlyAscending(Insert(x, rs))
  {
    var r := Insert(x, rs);
    assert r == [x] + rs;
    assert Before(x.time, rs[0].time);
    forall k, l | 0 <= k < l < |r| ensures Before(r[k].time, r[l].time) {
      if k == 0 {
        if l > 1 {
          BeforeIsStrictTotalOrder(x.time, rs[0].time, rs[l - 1].time);
        }
      } else {
        assert r[k] == rs[k - 1] && r[l] == rs[l - 1];
      }
    }
  }

  /** The case where `x` goes behind the first record, given the tail is strict. */
  lemma InsertBehindStrict(x: Record, rs: seq<Record>)
    requires SortedByTime(rs) && StrictlyAscending(rs) && |rs| > 0
    requires !NotAfter(x.time, rs[0].time)
    requires StrictlyAscending(Insert(x, rs[1..]))
    ensures StrictlyAscending(Insert(x, rs))
  {
    var rest := rs[1..];
    var tail := Insert(x, rest);
    var r := Insert(x, rs);
    assert r == [rs[0]] + tail;
    BeforeIsStrictTotalOrder(x.time, rs[0].time, rs[0].time);
    forall l | 0 < l < |r| ensures Before(r[0].time, r[l].time) {
      assert r[l] == tail[l - 1];
      assert r[l] in tail;
      if r[l] != x {
        var m :| 0 <= m < |rest| && rest[m] == r[l];
        assert rs[m + 1] == r[l];
      }
    }
    forall k, l | 0 < k < l < |r| ensures Before(r[k].time, r[l].time) {
      assert r[k] == tail[k - 1] && r[l] == tail[l - 1];
    }
  }

  /** Sorting records whose times are pairwise distinct gives a strictly ascending time axis. */
  lemma {:induction false} SortStrict(rs: seq<Record>)
    requires DistinctTimes(rs)
    ensures StrictlyAscending(SortByTime(rs))
  {
    if |rs| > 0 {
      var rest := rs[1..];
      assert DistinctTimes(rest) by {
        forall k, l | 0 <= k < l < |rest| ensures rest[k].time != rest[l].time {
          assert rest[k] == rs[k + 1] && rest[l] == rs[l + 1];
        }
      }
      SortStrict(rest);
      var sorted := SortByTime(rest);
      forall y | y in sorted ensures y.time != rs[0].time {
        assert y in multiset(sorted);
        assert y in rest;
        var m :| 0 <= m < |rest| && rest[m] == y;
        assert rs[m + 1] == y;
      }
      InsertStrict(rs[0], sorted);
    }
  }

  function SortGridByTime(g: Grid): (r: Grid)
    ensures r.lat == g.lat && r.lon == g.lon
    ensures SortedByTime(r.records) && multiset(r.records) == multiset(g.records)
  {
    g.(records := SortByTime(g.records))
  }

  /**
   * Steps 2 to 4 of `load_hydrological_year_dataset` on the preprocessed grid:
   * relabel, drop labels beyond the current year, sort.
   */
  function HydrologicalYearRecords(pre: Grid, currentYear: int): (r: Grid)
    ensures r.lat == pre.lat && r.lon == pre.lon
    ensures SortedByTime(r.records)
    ensures forall k :: 0 <= k < |r.records| ==> r.records[k].time.year <= currentYear
  {
    SortGridByTime(DropFutureYears(SeasonalCalculation(pre), currentYear))
  }

  /**
   * Records are moved, never merged or invented: a record is in the result
   * exactly as often as its relabelled form would be kept by the year filter.
   */
  lemma HydrologicalYearKeepsCurrentRecords(pre: Grid, currentYear: int, x: Record)
    ensures multiset(HydrologicalYearRecords(pre, currentYear).records)[x]
      == if x.time.year <= currentYear then multiset(SeasonalCalculation(pre).records)[x] else 0
  {
  }

  /** With a duplicate-free input axis the resulting axis is strictly ascending. */
  lemma HydrologicalYearStrictlyAscending(pre: Grid, currentYear: int)
    requires DistinctTimes(pre.records)
    ensures StrictlyAscending(HydrologicalYearRecords(pre, currentYear).records)
  {
    SeasonalCalculationKeepsDistinct(pre);
    FilterKeepsDistinct(SeasonalCalculation(pre).records, (d: Date) => d.year <= currentYear);
    SortStrict(DropFutureYears(SeasonalCalculation(pre), currentYear).records);
  }

  // ---------------------------------------------------------------------------
  // process: monthly and yearly sums, date bounds

  /** `resample(time='1ME')` and `resample(time='1YE')`. */
  datatype Resolution = MonthEnd | YearEnd

  /** The period a date falls in, numbered so that later periods have larger keys. */
  function PeriodKey(res: Resolution, d: Date): int {
    match res
    case MonthEnd => d.year * 12 + (d.month - 1)
    case YearEnd => d.year
  }

  /** The closing boundary of a period: the label resample gives its bin. */
  function PeriodClose(res: Resolution, k: int): Date {
    match res
    case MonthEnd => Calendar.MonthEnd(k / 12, k % 12 + 1)
    case YearEnd => Date(k, 12, 31)
  }

  /** A date's bin is labelled with the last day of its month or year, never before the date. */
  lemma PeriodCloseOfDate(res: Resolution, d: Date)
    requires ValidDate(d)
    ensures var c := PeriodClose(res, PeriodKey(res, d));
      ValidDate(c) && c.year == d.year && NotAfter(d, c)
      && (res == MonthEnd ==> c.month == d.month && c.day == DaysInMonth(d.year, d.month))
      && (res == YearEnd ==> c.month == 12 && c.day == 31)
  {
    if res == MonthEnd {
      var k := PeriodKey(res, d);
      assert k / 12 == d.year && k % 12 == d.month - 1;
    }
  }

  /** Later periods have later labels. */
  lemma PeriodCloseIncreasing(res: Resolution, k: int, l: int)
    requires k < l
    ensures Before(PeriodClose(res, k), PeriodClose(res, l))
  {
  }

  /** The periods present on the time axis, in increasing order. */
  function PeriodKeys(g: Grid, res: Resolution): (keys: seq<int>)
    ensures StrictlyIncreasing(keys)
    ensures forall t :: 0 <= t < |g.records| ==> PeriodKey(res, g.records[t].time) in keys
    ensures forall k :: k in keys ==> exists t :: 0 <= t < |g.records| && PeriodKey(res, g.records[t].time) == k
  {
    SortedElements(set t | 0 <= t < |g.records| :: PeriodKey(res, g.records[t].time))
  }

  /** The time steps that fall in period `k`, in time-axis order. */
  function Members(g: Grid, res: Resolution, k: int): seq<nat> {
    TrueIndices(seq(|g.records|, t requires 0 <= t < |g.records| => PeriodKey(res, g.records[t].time) == k))
  }

  /** The bin's values at one pixel. */
  function BinValues(g: Grid, res: Resolution, k: int, i: nat, j: nat): seq<Value>
    requires WellShaped(g) && i < |g.lat| && j < |g.lon|
  {
    var ms := Members(g, res, k);
    seq(|ms|, m requires 0 <= m < |ms| => g.records[ms[m]].slice[i][j])
  }

  /**
   * `sum(skipna=True)` of one bin. What xarray stores for a bin with no
   * present value is left as the parameter `allMissing`.
   */
  function BinSum(vs: seq<Value>, allMissing: Value): (r: Value)
    ensures !AllMissing(vs) ==> r == Some(SkipSum(vs))
  {
    if AllMissing(vs) then allMissing else Some(SkipSum(vs))
  }

  /** One output time step of the resample: the bin of period `k`. */
  function BinRecord(g: Grid, res: Resolution, k: int, allMissing: Value): (x: Record)
    requires WellShaped(g)
    ensures x.time == PeriodClose(res, k) && SliceShaped(x.slice, |g.lat|, |g.lon|)
    ensures forall i, j :: 0 <= i < |g.lat| && 0 <= j < |g.lon| ==>
      x.slice[i][j] == BinSum(BinValues(g, res, k, i, j), allMissing)
  {
    Record(PeriodClose(res, k),
      seq(|g.lat|, i requires 0 <= i < |g.lat| =>
        seq(|g.lon|, j requires 0 <= j < |g.lon| => BinSum(BinValues(g, res, k, i, j), allMissing))))
  }

  /** `dataset.resample(time=...).sum(dim=['time'], skipna=True)`. */
  function Resample(g: Grid, res: Resolution, allMissing: Value): (r: Grid)
    requires WellShaped(g)
    ensures WellShaped(r) && r.lat == g.lat && r.lon == g.lon
    ensures |r.records| == |PeriodKeys(g, res)|
    ensures StrictlyAscending(r.records)
    ensures forall b :: 0 <= b < |r.records| ==> r.records[b] == BinRecord(g, res, PeriodKeys(g, res)[b], allMissing)
  {
    var keys := PeriodKeys(g, res);
    var r := Grid(g.lat, g.lon, seq(|keys|, b requires 0 <= b < |keys| => BinRecord(g, res, keys[b], allMissing)));
    forall k, l | 0 <= k < l < |r.records| ensures Before(r.records[k].time, r.records[l].time) {
      PeriodCloseIncreasing(res, keys[k], keys[l]);
    }
    r
  }

  /** A bin of a present period is non-empty, and each of its values is that pixel on a day of the period. */
  lemma BinValuesOfPeriod(g: Grid, res: Resolution, k: int, i: nat, j: nat)
    requires WellShaped(g) && k in PeriodKeys(g, res) && i < |g.lat| && j < |g.lon|
    ensures var vs := BinValues(g, res, k, i, j);
      |vs| > 0
      && forall m :: 0 <= m < |vs| ==>
           exists t :: 0 <= t < |g.records| && PeriodKey(res, g.records[t].time) == k &&
             vs[m] == g.records[t].slice[i][j]
  {
    var ms := Members(g, res, k);
    var vs := BinValues(g, res, k, i, j);
    var t :| 0 <= t < |g.records| && PeriodKey(res, g.records[t].time) == k;
    assert t in ms;
    forall m | 0 <= m < |vs|
      ensures exists t :: 0 <= t < |g.records| && PeriodKey(res, g.records[t].time) == k && vs[m] == g.records[t].slice[i][j]
    {
      var u := ms[m];
      assert vs[m] == g.records[u].slice[i][j];
    }
  }

  /** Every time step lies in exactly one bin: the one of its own period. */
  lemma EveryStepInOneBin(g: Grid, res: Resolution, t: nat)
    requires t < |g.records|
    ensures var keys := PeriodKeys(g, res);
      exists b :: 0 <= b < |keys| && t in Members(g, res, keys[b]) &&
        (forall c :: 0 <= c < |keys| && t in Members(g, res, keys[c]) ==> c == b)
  {
    var keys := PeriodKeys(g, res);
    var k := PeriodKey(res, g.records[t].time);
    var b :| 0 <= b < |keys| && keys[b] == k;
    assert t in Members(g, res, keys[b]);
    forall c | 0 <= c < |keys| && t in Members(g, res, keys[c]) ensures c == b {
      var ms := Members(g, res, keys[c]);
      var m :| 0 <= m < |ms| && ms[m] == t;
      if c < b {} else if c > b {}
    }
  }

  /** Skipping missing values: five days `[1, 1, 1, NaN, 1]` sum to 4. */
  lemma SkipMissingExample()
    ensures BinSum([Some(1.0), Some(1.0), Some(1.0), None, Some(1.0)], None) == Some(4.0)
  {
    var s1: seq<Value> := [Some(1.0)];
    var s2 := s1 + [Some(1.0)];
    var s3 := s2 + [Some(1.0)];
    var s4 := s3 + [None];
    var s := s4 + [Some(1.0)];
    assert s1[..0] == [] && s2[..1] == s1 && s3[..2] == s2 && s4[..3] == s3 && s[..4] == s4;
    assert SkipSum(s1) == 1.0;
    assert SkipSum(s2) == 2.0;
    assert SkipSum(s3) == 3.0;
    assert SkipSum(s4) == 3.0;
    assert SkipSum(s) == 4.0;
    assert s[0].Some?;
    assert s == [Some(1.0), Some(1.0), Some(1.0), None, Some(1.0)];
    assert BinSum(s, None) == Some(4.0);
    assert !AllMissing(s);
  }

  /** A bin sum is additive: a bin split in two sums to the two halves' sums. */
  lemma BinSumSplit(a: seq<Value>, b: seq<Value>, allMissing: Value)
    requires !AllMissing(a) && !AllMissing(b)
    ensures BinSum(a + b, allMissing) == Some(SkipSum(a) + SkipSum(b))
  {
    var t :| 0 <= t < |a| && a[t].Some?;
    assert (a + b)[t] == a[t];
    SkipSumAppend(a, b);
  }

  /** The earliest and the latest date of a non-empty time axis. */
  function MinDate(ds: seq<Date>): (m: Date)
    requires |ds| > 0
    ensures m in ds && forall k :: 0 <= k < |ds| ==> NotAfter(m, ds[k])
  {
    if |ds| == 1 then ds[0]
    else
      var rest := MinDate(ds[1..]);
      BeforeIsStrictTotalOrder(ds[0], rest, rest);
      if NotAfter(ds[0], rest) then
        assert forall k :: 1 <= k < |ds| ==> ds[k] == ds[1..][k - 1];
        forall k | 1 <= k < |ds| ensures NotAfter(ds[0], ds[k]) {
          BeforeIsStrictTotalOrder(ds[0], rest, ds[k]);
        }
        ds[0]
      else
        assert forall k :: 1 <= k < |ds| ==> ds[k] == ds[1..][k - 1];
        rest
  }

  function MaxDate(ds: seq<Date>): (m: Date)
    requires |ds| > 0
    ensures m in ds && forall k :: 0 <= k < |ds| ==> NotAfter(ds[k], m)
  {
    if |ds| == 1 then ds[0]
    else
      var rest := MaxDate(ds[1..]);
      BeforeIsStrictTotalOrder(ds[0], rest, rest);
      if NotAfter(rest, ds[0]) then
        assert forall k :: 1 <= k < |ds| ==> ds[k] == ds[1..][k - 1];
        forall k | 1 <= k < |ds| ensures NotAfter(ds[k], ds[0]) {
          BeforeIsStrictTotalOrder(ds[k], rest, ds[0]);
        }
        ds[0]
      else
        assert forall k :: 1 <= k < |ds| ==> ds[k] == ds[1..][k - 1];
        rest
  }

  /** The smallest and the largest year, taken from `dataframe['year']`. */
  function MinYear(ds: seq<Date>): (y: int)
    requires |ds| > 0
    ensures (exists k :: 0 <= k < |ds| && ds[k].year == y) && forall k :: 0 <= k < |ds| ==> y <= ds[k].year
  {
    if |ds| == 1 then ds[0].year
    else
      var rest := MinYear(ds[1..]);
      assert forall k :: 1 <= k < |ds| ==> ds[k] == ds[1..][k - 1];
      if ds[0].year <= rest then ds[0].year else rest
  }

  function MaxYear(ds: seq<Date>): (y: int)
    requires |ds| > 0
    ensures (exists k :: 0 <= k < |ds| && ds[k].year == y) && forall k :: 0 <= k < |ds| ==> ds[k].year <= y
  {
    if |ds| == 1 then ds[0].year
    else
      var rest := MaxYear(ds[1..]);
      assert forall k :: 1 <= k < |ds| ==> ds[k] == ds[1..][k - 1];
      if ds[0].year >= rest then ds[0].year else rest
  }

  datatype Bounds = Bounds(minYear: int, maxYear: int, minDate: Date, maxDate: Date)

  /** `min_year, max_year, min_date, max_date`; an empty axis gives pandas' NaN, here None. */
  function DatasetBounds(g: Grid): (b: Option<Bounds>)
    ensures b.None? <==> |g.records| == 0
    ensures b.Some? ==> b.value.minYear <= b.value.maxYear && NotAfter(b.value.minDate, b.value.maxDate)
    ensures b.Some? ==> b.value.minDate in Times(g) && b.value.maxDate in Times(g)
    ensures b.Some? ==> forall t :: 0 <= t < |g.records| ==>
      NotAfter(b.value.minDate, g.records[t].time) && NotAfter(g.records[t].time, b.value.maxDate)
      && b.value.minYear <= g.records[t].time.year <= b.value.maxYear
  {
    if |g.records| == 0 then None
    else
      var ts := Times(g);
      var lo, hi := MinDate(ts), MaxDate(ts);
      BeforeIsStrictTotalOrder(lo, ts[0], hi);
      Some(Bounds(MinYear(ts), MaxYear(ts), lo, hi))
  }

  /** Both bounds come from one time axis: each year bound is the year of the matching date bound. */
  lemma BoundsAgree(g: Grid)
    requires |g.records| > 0
    ensures var b := DatasetBounds(g).value;
      b.minYear == b.minDate.year && b.maxYear == b.maxDate.year
  {
    var b := DatasetBounds(g).value;
    var ts := Times(g);
    var t :| 0 <= t < |ts| && ts[t] == b.minDate;
    var u :| 0 <= u < |ts| && ts[u].year == b.minYear;
    assert NotAfter(b.minDate, ts[u]);
    var v :| 0 <= v < |ts| && ts[v] == b.maxDate;
    var w :| 0 <= w < |ts| && ts[w].year == b.maxYear;
    assert NotAfter(ts[w], b.maxDate);
  }

  /** A year bound on every time step bounds `max_year` too. */
  lemma YearsBoundMaxYear(g: Grid, y: int)
    requires forall k :: 0 <= k < |g.records| ==> g.records[k].time.year <= y
    ensures DatasetBounds(g).Some? ==> DatasetBounds(g).value.maxYear <= y
  {
    if |g.records| > 0 {
      BoundsAgree(g);
      var b := DatasetBounds(g).value;
      var ts := Times(g);
      var v :| 0 <= v < |ts| && ts[v] == b.maxDate;
      assert ts[v] == g.records[v].time;
    }
  }

  /** What `process` returns, apart from the shapefile and the area-mean dataframe. */
  datatype Processed = Processed(daily: Grid, monthly: Grid, yearly: Grid, bounds: Option<Bounds>)

  function Process(g: Grid, allMissing: Value): (p: Processed)
    requires WellShaped(g)
    ensures p.daily == g && WellShaped(p.monthly) && WellShaped(p.yearly)
    ensures p.monthly == Resample(g, MonthEnd, allMissing) && p.yearly == Resample(g, YearEnd, allMissing)
    ensures p.bounds == DatasetBounds(g)
    ensures p.bounds.Some? <==> |g.records| > 0
  {
    Processed(g, Resample(g, MonthEnd, allMissing), Resample(g, YearEnd, allMissing), DatasetBounds(g))
  }

  /** `load_main_dataset()`: `process(preprocess())` on the raw archive. */
  function LoadMainDataset(raw: Grid, allMissing: Value): (p: Processed)
    requires WellShaped(raw)
    ensures p.daily == DropFillValue(raw) && NoSentinel(p.daily)
    ensures p.monthly == Resample(p.daily, MonthEnd, allMissing) && p.yearly == Resample(p.daily, YearEnd, allMissing)
  {
    var pre := DropFillValue(raw);
    var p := Process(pre, allMissing);
    assert p.daily == pre && p.monthly == Resample(pre, MonthEnd, allMissing);
    p
  }

  /** `load_hydrological_year_dataset()` from the raw archive, `now` given as the current year. */
  function LoadHydrologicalYearDataset(raw: Grid, currentYear: int, allMissing: Value): (p: Processed)
    requires WellShaped(raw)
    ensures WellShaped(p.daily) && p.daily == HydrologicalYearRecords(DropFillValue(raw), currentYear)
    ensures p.monthly == Resample(p.daily, MonthEnd, allMissing) && p.yearly == Resample(p.daily, YearEnd, allMissing)
    ensures p.daily.lat == DropFillValue(raw).lat && p.daily.lon == DropFillValue(raw).lon
    ensures SortedByTime(p.daily.records)
    ensures forall k :: 0 <= k < |p.daily.records| ==> p.daily.records[k].time.year <= currentYear
    ensures p.bounds.Some? ==> p.bounds.value.maxYear <= currentYear
  {
    var pre := DropFillValue(raw);
    var hydro := HydrologicalYearRecords(pre, currentYear);
    HydrologicalYearWellShaped(pre, currentYear);
    YearsBoundMaxYear(hydro, currentYear);
    var p := Process(hydro, allMissing);
    assert p.daily == hydro && p.monthly == Resample(hydro, MonthEnd, allMissing);
    p
  }

  /** Relabelling, filtering and sorting keep every slice's shape. */
  lemma HydrologicalYearWellShaped(pre: Grid, currentYear: int)
    requires WellShaped(pre)
    ensures WellShaped(HydrologicalYearRecords(pre, currentYear))
  {
    var hydro := HydrologicalYearRecords(pre, currentYear);
    forall x | x in hydro.records ensures SliceShaped(x.slice, |pre.lat|, |pre.lon|) {
      HydroRecordFrom(pre, currentYear, x);
    }
  }

  lemma HydroRecordFrom(pre: Grid, currentYear: int, x: Record)
    requires WellShaped(pre)
    requires x in HydrologicalYearRecords(pre, currentYear).records
    ensures SliceShaped(x.slice, |pre.lat|, |pre.lon|)
  {
    HydrologicalYearKeepsCurrentRecords(pre, currentYear, x);
    var s := SeasonalCalculation(pre).records;
    assert x in multiset(s);
    var t :| 0 <= t < |s| && s[t] == x;
  }
}
