/**
 * The gridded precipitation field shared by every stage: a time axis of
 * records, each holding one (lat, lon) slice of values that may be missing.
 */
module Grids {
  import opened Wrappers
  import opened Calendar

  /** A cell or series entry: a real, or `None` for NaN. */
  type Value = Option<real>

  /** One time step of the field, indexed `[lat][lon]`. */
  type Slice = seq<seq<Value>>

  datatype Record = Record(time: Date, slice: Slice)

  /** An xarray Dataset's `tp` variable with its `time`, `lat` and `lon` coordinates. */
  datatype Grid = Grid(lat: seq<real>, lon: seq<real>, records: seq<Record>)

  predicate SliceShaped(s: Slice, nlat: nat, nlon: nat) {
    |s| == nlat && forall i :: 0 <= i < nlat ==> |s[i]| == nlon
  }

  /** Every time step has the (lat, lon) shape of the coordinates. */
  predicate WellShaped(g: Grid) {
    forall t :: 0 <= t < |g.records| ==> SliceShaped(g.records[t].slice, |g.lat|, |g.lon|)
  }

  function Times(g: Grid): (ts: seq<Date>)
    ensures |ts| == |g.records| && forall t :: 0 <= t < |ts| ==> ts[t] == g.records[t].time
  {
    seq(|g.records|, t requires 0 <= t < |g.records| => g.records[t].time)
  }

  /** `z[:, i, j]`: the time series of one pixel. */
  function Series(g: Grid, i: nat, j: nat): (s: seq<Value>)
    requires WellShaped(g) && i < |g.lat| && j < |g.lon|
    ensures |s| == |g.records|
    ensures forall t :: 0 <= t < |s| ==> s[t] == g.records[t].slice[i][j]
  {
    seq(|g.records|, t requires 0 <= t < |g.records| => g.records[t].slice[i][j])
  }

  /** `np.isnan(s).all()`. */
  predicate AllMissing(s: seq<Value>) {
    forall t :: 0 <= t < |s| ==> s[t].None?
  }

  /** `np.full_like(s, np.nan)` for a series of length `n`. */
  function MissingSeries(n: nat): (s: seq<Value>)
    ensures |s| == n && AllMissing(s)
  {
    seq(n, _ => None)
  }

  /** The sum of the present entries: a sum with `skipna=True`. */
  function SkipSum(s: seq<Value>): real {
    if |s| == 0 then 0.0
    else SkipSum(s[..|s| - 1]) + (match s[|s| - 1] case Some(v) => v case None => 0.0)
  }

  /** Number of present entries (what survives `dropna`). */
  function CountPresent(s: seq<Value>): (n: nat)
    ensures n <= |s|
  {
    if |s| == 0 then 0 else CountPresent(s[..|s| - 1]) + (if s[|s| - 1].Some? then 1 else 0)
  }

  lemma {:induction false} SkipSumAppend(a: seq<Value>, b: seq<Value>)
    ensures SkipSum(a + b) == SkipSum(a) + SkipSum(b)
    decreases |b|
  {
    if |b| > 0 {
      assert (a + b)[..|a + b| - 1] == a + b[..|b| - 1];
      SkipSumAppend(a, b[..|b| - 1]);
    } else {
      assert a + b == a;
    }
  }

  /** Missing entries add nothing: the all-missing series sums to zero. */
  lemma {:induction false} SkipSumAllMissing(s: seq<Value>)
    requires AllMissing(s)
    ensures SkipSum(s) == 0.0 && CountPresent(s) == 0
  {
    if |s| > 0 {
      SkipSumAllMissing(s[..|s| - 1]);
    }
  }

  /** A series is all missing exactly when none of its entries is present. */
  lemma {:induction false} AllMissingIffNonePresent(s: seq<Value>)
    ensures AllMissing(s) <==> CountPresent(s) == 0
  {
    if |s| > 0 {
      AllMissingIffNonePresent(s[..|s| - 1]);
      if s[|s| - 1].None? && !AllMissing(s) {
        var t :| 0 <= t < |s| && s[t].Some?;
        assert s[..|s| - 1][t] == s[t];
      }
    }
  }

  /** The grid with pixel (a, b)'s series replaced by `s`, everything else as before. */
  function ReplacePixel(g: Grid, a: nat, b: nat, s: seq<Value>): (r: Grid)
    requires WellShaped(g) && a < |g.lat| && b < |g.lon| && |s| == |g.records|
    ensures WellShaped(r) && r.lat == g.lat && r.lon == g.lon && Times(r) == Times(g)
  {
    var r := Grid(g.lat, g.lon, seq(|g.records|, t requires 0 <= t < |g.records| =>
      Record(g.records[t].time,
        seq(|g.lat|, i requires 0 <= i < |g.lat| =>
          seq(|g.lon|, j requires 0 <= j < |g.lon| =>
            if i == a && j == b then s[t] else g.records[t].slice[i][j])))));
    assert Times(r) == Times(g);
    r
  }

  /** Replacing one pixel's series changes that series and no other. */
  lemma ReplacePixelSeries(g: Grid, a: nat, b: nat, s: seq<Value>, i: nat, j: nat)
    requires WellShaped(g) && a < |g.lat| && b < |g.lon| && |s| == |g.records|
    requires i < |g.lat| && j < |g.lon|
    ensures Series(ReplacePixel(g, a, b, s), i, j) == if i == a && j == b then s else Series(g, i, j)
  {
  }

  /** No two records share a time label. */
  predicate DistinctTimes(rs: seq<Record>) {
    forall k, l :: 0 <= k < l < |rs| ==> rs[k].time != rs[l].time
  }

  /** The records whose label satisfies `keep`, in their original order: a label selection with `drop=True`. */
  function FilterByTime(rs: seq<Record>, keep: Date -> bool): (r: seq<Record>)
    ensures forall k :: 0 <= k < |r| ==> keep(r[k].time)
    ensures forall x :: multiset(r)[x] == if keep(x.time) then multiset(rs)[x] else 0
  {
    if |rs| == 0 then []
    else
      var prefix := FilterByTime(rs[..|rs| - 1], keep);
      assert rs == rs[..|rs| - 1] + [rs[|rs| - 1]];
      if keep(rs[|rs| - 1].time) then prefix + [rs[|rs| - 1]] else prefix
  }

  /** Filtering keeps the relative order, so distinct labels stay distinct. */
  lemma {:induction false} FilterKeepsDistinct(rs: seq<Record>, keep: Date -> bool)
    requires DistinctTimes(rs)
    ensures DistinctTimes(FilterByTime(rs, keep))
  {
    if |rs| > 0 {
      var init, last := rs[..|rs| - 1], rs[|rs| - 1];
      assert DistinctTimes(init) by {
        forall k, l | 0 <= k < l < |init| ensures init[k].time != init[l].time {
          assert init[k] == rs[k] && init[l] == rs[l];
        }
      }
      FilterKeepsDistinct(init, keep);
      var prefix := FilterByTime(init, keep);
      if keep(last.time) {
        forall k | 0 <= k < |prefix| ensures prefix[k].time != last.time {
          var x := prefix[k];
          assert multiset(prefix)[x] > 0;
          assert x in init;
          var m :| 0 <= m < |init| && init[m] == x;
          assert rs[m] == x;
        }
        var r := prefix + [last];
        forall k, l | 0 <= k < l < |r| ensures r[k].time != r[l].time {
          if l < |prefix| {
            assert r[k] == prefix[k] && r[l] == prefix[l];
          }
        }
      }
    }
  }
}
