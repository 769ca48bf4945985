/**
 * `calculate_spatial_trend`: the Mann-Kendall test run pixel by pixel over a
 * (time, lat, lon) grid, then masked to the slopes that are significant.
 * The test itself (pymannkendall's `original_test`) is a parameter.
 */
module SpatialTrend {
  import opened Wrappers
  import opened Grids

  /** The two fields of the test result the source reads; either may be NaN. */
  datatype MkResult = MkResult(slope: Value, p: Value)

  /** `mk.original_test`, seen as a function of the series it is given. */
  type MannKendall = seq<Value> -> MkResult

  const SignificanceLevel: real := 0.05

  /** The output DataArray: dims (lat, lon), its coordinates and its cells. */
  datatype TrendField = TrendField(lat: seq<real>, lon: seq<real>, cells: seq<seq<Value>>)

  /** What one pixel's loop iteration stores: NaN for an all-NaN series, else the test's result. */
  function PixelResult(series: seq<Value>, mk: MannKendall): MkResult {
    if AllMissing(series) then MkResult(None, None) else mk(series)
  }

  /** `np.where(p_value <= 0.05, slope, np.nan)` for one cell (a NaN p compares false). */
  function Significant(slope: Value, p: Value): (v: Value)
    ensures v.Some? ==> p.Some? && p.value <= SignificanceLevel && v == slope
    ensures p.Some? && p.value <= SignificanceLevel ==> v == slope
    ensures p.None? || p.value > SignificanceLevel ==> v.None?
  {
    if p.Some? && p.value <= SignificanceLevel then slope else None
  }

  /** The output cell for pixel (i, j). */
  function TrendCell(g: Grid, mk: MannKendall, i: nat, j: nat): (cell: Value)
    requires WellShaped(g) && i < |g.lat| && j < |g.lon|
    ensures AllMissing(Series(g, i, j)) ==> cell.None?
    ensures cell.Some? ==> mk(Series(g, i, j)).p.Some? && mk(Series(g, i, j)).p.value <= SignificanceLevel
  {
    var r := PixelResult(Series(g, i, j), mk);
    Significant(r.slope, r.p)
  }

  /** Row-major order of (lat, lon) index pairs: the order of the nested loops. */
  predicate PixelBefore(a: (int, int), b: (int, int)) {
    a.0 < b.0 || (a.0 == b.0 && a.1 < b.1)
  }

  /** Pixels of row `i` among its first `m` columns on which the test runs, in column order. */
  function RowTests(g: Grid, i: nat, m: nat): seq<(int, int)>
    requires WellShaped(g) && i < |g.lat| && m <= |g.lon|
  {
    if m == 0 then []
    else RowTests(g, i, m - 1) + (if AllMissing(Series(g, i, m - 1)) then [] else [(i, m - 1)])
  }

  /** Pixels of the first `n` rows on which the test runs, in row-major order. */
  function GridTests(g: Grid, n: nat): seq<(int, int)>
    requires WellShaped(g) && n <= |g.lat|
  {
    if n == 0 then [] else GridTests(g, n - 1) + RowTests(g, n - 1, |g.lon|)
  }

  /** A pixel is in the row's test list exactly when it is in range and not all NaN. */
  lemma {:induction false} RowTestsMembers(g: Grid, i: nat, m: nat, p: (int, int))
    requires WellShaped(g) && i < |g.lat| && m <= |g.lon|
    ensures p in RowTests(g, i, m) <==> p.0 == i && 0 <= p.1 < m && !AllMissing(Series(g, i, p.1))
  {
    if m > 0 {
      RowTestsMembers(g, i, m - 1, p);
    }
  }

  lemma {:induction false} RowTestsOrdered(g: Grid, i: nat, m: nat)
    requires WellShaped(g) && i < |g.lat| && m <= |g.lon|
    ensures forall k, l :: 0 <= k < l < |RowTests(g, i, m)| ==> PixelBefore(RowTests(g, i, m)[k], RowTests(g, i, m)[l])
  {
    if m > 0 {
      RowTestsOrdered(g, i, m - 1);
      var prev, whole := RowTests(g, i, m - 1), RowTests(g, i, m);
      forall k | 0 <= k < |prev| ensures prev[k].0 == i && prev[k].1 < m - 1 {
        RowTestsMembers(g, i, m - 1, prev[k]);
      }
      forall k, l | 0 <= k < l < |whole| ensures PixelBefore(whole[k], whole[l]) {
        if l >= |prev| {
          assert whole[l] == (i, m - 1) && whole[k] == prev[k];
        } else {
          assert whole[l] == prev[l] && whole[k] == prev[k];
        }
      }
    }
  }

  /** A pixel is in the grid's test list exactly when it is in range and not all NaN. */
  lemma {:induction false} GridTestsMembers(g: Grid, n: nat, p: (int, int))
    requires WellShaped(g) && n <= |g.lat|
    ensures p in GridTests(g, n) <==>
      0 <= p.0 < n && 0 <= p.1 < |g.lon| && !AllMissing(Series(g, p.0, p.1))
  {
    if n > 0 {
      GridTestsMembers(g, n - 1, p);
      RowTestsMembers(g, n - 1, |g.lon|, p);
    }
  }

  /** The test runs on pixels in strictly increasing row-major order: no pixel twice. */
  lemma {:induction false} GridTestsOrdered(g: Grid, n: nat)
    requires WellShaped(g) && n <= |g.lat|
    ensures forall k, l :: 0 <= k < l < |GridTests(g, n)| ==> PixelBefore(GridTests(g, n)[k], GridTests(g, n)[l])
  {
    if n > 0 {
      var a, b := GridTests(g, n - 1), RowTests(g, n - 1, |g.lon|);
      GridTestsOrdered(g, n - 1);
      RowTestsOrdered(g, n - 1, |g.lon|);
      forall k | 0 <= k < |a| ensures a[k].0 < n - 1 {
        GridTestsMembers(g, n - 1, a[k]);
      }
      forall l | 0 <= l < |b| ensures b[l].0 == n - 1 {
        RowTestsMembers(g, n - 1, |g.lon|, b[l]);
      }
    }
  }

  /** Row `i`'s cells of the slope and p-value arrays hold that pixel's result, for columns below `m`. */
  ghost predicate RowFilled(g: Grid, mk: MannKendall, slope: array2<Value>, pValue: array2<Value>, i: nat, m: nat)
    reads slope, pValue
    requires WellShaped(g) && i < |g.lat| && m <= |g.lon|
    requires slope.Length0 == pValue.Length0 == |g.lat| && slope.Length1 == pValue.Length1 == |g.lon|
  {
    forall j :: 0 <= j < m ==> slope[i, j] == Expected(g, mk, i, j).slope && pValue[i, j] == Expected(g, mk, i, j).p
  }

  ghost function Expected(g: Grid, mk: MannKendall, i: nat, j: nat): MkResult
    requires WellShaped(g) && i < |g.lat| && j < |g.lon|
  {
    PixelResult(Series(g, i, j), mk)
  }

  /** The inner `for ilon` loop over one row. */
  method FillRow(g: Grid, mk: MannKendall, slope: array2<Value>, pValue: array2<Value>, ilat: nat)
    returns (rowTested: seq<(int, int)>)
    requires WellShaped(g) && ilat < |g.lat| && slope != pValue
    requires slope.Length0 == pValue.Length0 == |g.lat| && slope.Length1 == pValue.Length1 == |g.lon|
    requires forall i :: 0 <= i < ilat ==> RowFilled(g, mk, slope, pValue, i, |g.lon|)
    modifies slope, pValue
    ensures forall i :: 0 <= i <= ilat ==> RowFilled(g, mk, slope, pValue, i, |g.lon|)
    ensures forall i, j :: ilat < i < |g.lat| && 0 <= j < |g.lon| ==>
      slope[i, j] == old(slope[i, j]) && pValue[i, j] == old(pValue[i, j])
    ensures rowTested == RowTests(g, ilat, |g.lon|)
  {
    rowTested := [];
    forall i, j | 0 <= i < ilat && 0 <= j < |g.lon|
      ensures slope[i, j] == Expected(g, mk, i, j).slope && pValue[i, j] == Expected(g, mk, i, j).p
    {
      assert RowFilled(g, mk, slope, pValue, i, |g.lon|);
    }
    var ilon := 0;
    while ilon < |g.lon|
      invariant 0 <= ilon <= |g.lon|
      invariant RowFilled(g, mk, slope, pValue, ilat, ilon)
      invariant forall i, j :: 0 <= i < ilat && 0 <= j < |g.lon| ==>
        slope[i, j] == Expected(g, mk, i, j).slope && pValue[i, j] == Expected(g, mk, i, j).p
      invariant forall i, j :: ilat < i < |g.lat| && 0 <= j < |g.lon| ==>
        slope[i, j] == old(slope[i, j]) && pValue[i, j] == old(pValue[i, j])
      invariant rowTested == RowTests(g, ilat, ilon)
    {
      var precipSeries := Series(g, ilat, ilon);
      if AllMissing(precipSeries) {
        slope[ilat, ilon] := None;
        pValue[ilat, ilon] := None;
      } else {
        var result := mk(precipSeries);
        rowTested := rowTested + [(ilat, ilon)];
        slope[ilat, ilon] := result.slope;
        pValue[ilat, ilon] := result.p;
      }
      ilon := ilon + 1;
    }
  }

  /** The outer `for ilat` loop: every row of the slope and p-value arrays filled. */
  method FillRows(g: Grid, mk: MannKendall, slope: array2<Value>, pValue: array2<Value>)
    returns (tested: seq<(int, int)>)
    requires WellShaped(g) && slope != pValue
    requires slope.Length0 == pValue.Length0 == |g.lat| && slope.Length1 == pValue.Length1 == |g.lon|
    modifies slope, pValue
    ensures forall i :: 0 <= i < |g.lat| ==> RowFilled(g, mk, slope, pValue, i, |g.lon|)
    ensures tested == GridTests(g, |g.lat|)
  {
    tested := [];
    var ilat := 0;
    while ilat < |g.lat|
      invariant 0 <= ilat <= |g.lat|
      invariant forall i :: 0 <= i < ilat ==> RowFilled(g, mk, slope, pValue, i, |g.lon|)
      invariant tested == GridTests(g, ilat)
    {
      var rowTested := FillRow(g, mk, slope, pValue, ilat);
      tested := tested + rowTested;
      ilat := ilat + 1;
    }
  }

  /**
   * The nested loops over `ilat` and `ilon`, filling preallocated slope and
   * p-value arrays, then the significance mask. `tested` lists, in visiting
   * order, the pixels on which the test was invoked.
   */
  method CalculateSpatialTrend(g: Grid, mk: MannKendall) returns (r: TrendField, tested: seq<(int, int)>)
    requires WellShaped(g)
    ensures r.lat == g.lat && r.lon == g.lon
    ensures SliceShaped(r.cells, |g.lat|, |g.lon|)
    ensures forall i, j :: 0 <= i < |g.lat| && 0 <= j < |g.lon| ==> r.cells[i][j] == TrendCell(g, mk, i, j)
    ensures tested == GridTests(g, |g.lat|)
    ensures forall p :: p in tested <==> 0 <= p.0 < |g.lat| && 0 <= p.1 < |g.lon| && !AllMissing(Series(g, p.0, p.1))
    ensures forall k, l :: 0 <= k < l < |tested| ==> PixelBefore(tested[k], tested[l])
  {
    var nlat, nlon := |g.lat|, |g.lon|;
    var slope := new Value[nlat, nlon]((_, _) => Some(0.0));
    var pValue := new Value[nlat, nlon]((_, _) => Some(0.0));
    tested := FillRows(g, mk, slope, pValue);
    var cells := seq(nlat, i requires 0 <= i < nlat reads slope, pValue =>
      seq(nlon, j requires 0 <= j < nlon reads slope, pValue => Significant(slope[i, j], pValue[i, j])));
    forall i, j | 0 <= i < nlat && 0 <= j < nlon ensures cells[i][j] == TrendCell(g, mk, i, j) {
      assert RowFilled(g, mk, slope, pValue, i, nlon);
    }
    r := TrendField(g.lat, g.lon, cells);
    forall p ensures p in tested <==> 0 <= p.0 < nlat && 0 <= p.1 < nlon && !AllMissing(Series(g, p.0, p.1)) {
      GridTestsMembers(g, nlat, p);
    }
    GridTestsOrdered(g, nlat);
  }

  /** An all-NaN pixel comes out NaN whatever the test would have said. */
  lemma AllMissingPixelIsMissing(g: Grid, mk: MannKendall, i: nat, j: nat)
    requires WellShaped(g) && i < |g.lat| && j < |g.lon|
    requires AllMissing(Series(g, i, j))
    ensures TrendCell(g, mk, i, j) == None
  {
  }

  /**
   * A pixel with at least one value is given to the test as it is, NaNs
   * included, and its cell is the test's slope exactly when p <= 0.05.
   */
  lemma PartlyMissingPixelIsTested(g: Grid, mk: MannKendall, i: nat, j: nat)
    requires WellShaped(g) && i < |g.lat| && j < |g.lon|
    requires !AllMissing(Series(g, i, j))
    ensures var res := mk(Series(g, i, j));
      TrendCell(g, mk, i, j) == if res.p.Some? && res.p.value <= SignificanceLevel then res.slope else None
  {
  }

  /** Every present output cell is the slope of a tested pixel whose p-value is at most 0.05. */
  lemma PresentCellIsSignificant(g: Grid, mk: MannKendall, i: nat, j: nat)
    requires WellShaped(g) && i < |g.lat| && j < |g.lon|
    requires TrendCell(g, mk, i, j).Some?
    ensures var res := mk(Series(g, i, j));
      !AllMissing(Series(g, i, j)) && res.p.Some? && res.p.value <= SignificanceLevel
      && TrendCell(g, mk, i, j) == res.slope
  {
  }

  /** Changing one pixel's series changes no other output cell. */
  lemma PixelIsolation(g: Grid, mk: MannKendall, a: nat, b: nat, s: seq<Value>, i: nat, j: nat)
    requires WellShaped(g) && a < |g.lat| && b < |g.lon| && |s| == |g.records|
    requires i < |g.lat| && j < |g.lon| && (i, j) != (a, b)
    ensures TrendCell(ReplacePixel(g, a, b, s), mk, i, j) == TrendCell(g, mk, i, j)
  {
    ReplacePixelSeries(g, a, b, s, i, j);
  }

  /** Two grids whose pixel (i, j) has the same series agree on cell (i, j). */
  lemma CellDependsOnlyOnItsSeries(g: Grid, h: Grid, mk: MannKendall, i: nat, j: nat)
    requires WellShaped(g) && i < |g.lat| && j < |g.lon|
    requires WellShaped(h) && i < |h.lat| && j < |h.lon|
    requires Series(g, i, j) == Series(h, i, j)
    ensures TrendCell(g, mk, i, j) == TrendCell(h, mk, i, j)
  {
  }
}
