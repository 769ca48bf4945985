/**
 * `calculate_spi_with_ufunc` and its per-pixel `_spi_core`: the calibration
 * window, the all-NaN short cut and the containment of library errors.
 * climate_indices' `indices.spi` is a parameter.
 */
module SpiCalculation {
  import opened Wrappers
  import opened Calendar
  import opened Grids

  datatype Distribution = Gamma | Pearson
  datatype Periodicity = Monthly | Daily

  /** The keyword arguments `_spi_core` passes to `indices.spi`. */
  datatype SpiParams = SpiParams(
    scale: int,
    distribution: Distribution,
    periodicity: Periodicity,
    dataStartYear: int,
    calibrationYearInitial: int,
    calibrationYearFinal: int)

  /** An entry of the masked array the library returns. */
  datatype LibEntry = Masked | Unmasked(v: Value)

  /** The library either raises or returns a (masked) series. */
  datatype SpiOutcome = Raised | Returned(entries: seq<LibEntry>)

  type SpiLibrary = (seq<Value>, SpiParams) -> SpiOutcome

  /** The library returns a series as long as the one it was given. */
  ghost predicate PreservesLength(spi: SpiLibrary) {
    forall x, p :: spi(x, p).Returned? ==> |spi(x, p).entries| == |x|
  }

  /** The call `_spi_core` makes: scale forwarded, gamma and monthly fixed, one window for both years. */
  function CallParams(scale: int, startYear: int, endYear: int): SpiParams {
    SpiParams(scale, Gamma, Monthly, startYear, startYear, endYear)
  }

  /** `np.ma.filled(result, np.nan)`. */
  function Filled(entries: seq<LibEntry>): (r: seq<Value>)
    ensures |r| == |entries|
    ensures forall k :: 0 <= k < |r| ==> r[k] == if entries[k].Masked? then None else entries[k].v
  {
    seq(|entries|, k requires 0 <= k < |entries| => if entries[k].Masked? then None else entries[k].v)
  }

  /** `_spi_core(precip_series, scale, start_year, end_year)`. */
  function SpiCore(series: seq<Value>, scale: int, startYear: int, endYear: int, spi: SpiLibrary): (r: seq<Value>)
    ensures AllMissing(series) ==> r == MissingSeries(|series|)
    ensures !AllMissing(series) && spi(series, CallParams(scale, startYear, endYear)).Raised? ==> r == MissingSeries(|series|)
    ensures !AllMissing(series) && spi(series, CallParams(scale, startYear, endYear)).Returned? ==>
      var e := spi(series, CallParams(scale, startYear, endYear)).entries;
      |r| == |e| && forall k :: 0 <= k < |e| ==> (e[k].Masked? ==> r[k].None?) && (e[k].Unmasked? ==> r[k] == e[k].v)
    ensures PreservesLength(spi) ==> |r| == |series|
  {
    if AllMissing(series) then MissingSeries(|series|)
    else match spi(series, CallParams(scale, startYear, endYear))
      case Raised => MissingSeries(|series|)
      case Returned(e) => Filled(e)
  }

  /** For an all-NaN series the library is not consulted: any two libraries give the same output. */
  lemma AllMissingSkipsLibrary(series: seq<Value>, scale: int, sy: int, ey: int, spi: SpiLibrary, other: SpiLibrary)
    requires AllMissing(series)
    ensures SpiCore(series, scale, sy, ey, spi) == SpiCore(series, scale, sy, ey, other)
  {
  }

  /**
   * The output depends on the library only through the one call with the
   * series itself and `CallParams`: scale unchanged, gamma, monthly, and
   * the same year as data start and calibration start.
   */
  lemma OnlyTheForwardedCallMatters(series: seq<Value>, scale: int, sy: int, ey: int, spi: SpiLibrary, other: SpiLibrary)
    requires spi(series, SpiParams(scale, Gamma, Monthly, sy, sy, ey)) == other(series, SpiParams(scale, Gamma, Monthly, sy, sy, ey))
    ensures SpiCore(series, scale, sy, ey, spi) == SpiCore(series, scale, sy, ey, other)
  {
  }

  /** A library error costs that pixel its values and nothing else: the output is all NaN, same length. */
  lemma RaisedIsContained(series: seq<Value>, scale: int, sy: int, ey: int, spi: SpiLibrary)
    requires spi(series, CallParams(scale, sy, ey)).Raised?
    ensures |SpiCore(series, scale, sy, ey, spi)| == |series| && AllMissing(SpiCore(series, scale, sy, ey, spi))
  {
  }

  /** The grid result: the DataArray named `SPI` with dims (time, lat, lon). */
  datatype SpiField = SpiField(name: string, grid: Grid)

  datatype SpiError = EmptyTimeAxis

  /** `(start_year, end_year)`: the years of the first and the last timestamp. */
  function CalibrationYears(g: Grid): (years: Option<(int, int)>)
    ensures years.None? <==> |g.records| == 0
    ensures years.Some? ==> years.value.0 == g.records[0].time.year
    ensures years.Some? ==> years.value.1 == g.records[|g.records| - 1].time.year
  {
    if |g.records| == 0 then None
    else Some((g.records[0].time.year, g.records[|g.records| - 1].time.year))
  }

  /**
   * `calculate_spi_with_ufunc(monthly_ds, scale)`: `_spi_core` mapped over every
   * pixel's time series, assembled back as (time, lat, lon). An empty time
   * axis makes `time_coords.dt.year[0]` raise.
   */
  function CalculateSpiWithUfunc(g: Grid, scale: int, spi: SpiLibrary): (r: Result<SpiField, SpiError>)
    requires WellShaped(g) && PreservesLength(spi)
    ensures r.Err? <==> |g.records| == 0
    ensures r.Ok? ==> r.value.name == "SPI" && WellShaped(r.value.grid)
    ensures r.Ok? ==> r.value.grid.lat == g.lat && r.value.grid.lon == g.lon && Times(r.value.grid) == Times(g)
    ensures r.Ok? ==> forall t, i, j :: 0 <= t < |g.records| && 0 <= i < |g.lat| && 0 <= j < |g.lon| ==>
      r.value.grid.records[t].slice[i][j]
        == SpiCore(Series(g, i, j), scale, g.records[0].time.year, g.records[|g.records| - 1].time.year, spi)[t]
  {
    match CalibrationYears(g)
    case None => Err(EmptyTimeAxis)
    case Some((startYear, endYear)) =>
      var n := |g.records|;
      var out := Grid(g.lat, g.lon, seq(n, t requires 0 <= t < n =>
        Record(g.records[t].time,
          seq(|g.lat|, i requires 0 <= i < |g.lat| =>
            seq(|g.lon|, j requires 0 <= j < |g.lon| => SpiCore(Series(g, i, j), scale, startYear, endYear, spi)[t])))));
      assert Times(out) == Times(g);
      Ok(SpiField("SPI", out))
  }

  /** The SPI series of pixel (i, j), read back from the assembled grid. */
  lemma SpiPixelSeries(g: Grid, scale: int, spi: SpiLibrary, i: nat, j: nat)
    requires WellShaped(g) && PreservesLength(spi) && |g.records| > 0 && i < |g.lat| && j < |g.lon|
    ensures var r := CalculateSpiWithUfunc(g, scale, spi);
      r.Ok? && Series(r.value.grid, i, j)
        == SpiCore(Series(g, i, j), scale, g.records[0].time.year, g.records[|g.records| - 1].time.year, spi)
  {
    var r := CalculateSpiWithUfunc(g, scale, spi);
    var sy, ey := g.records[0].time.year, g.records[|g.records| - 1].time.year;
    assert |SpiCore(Series(g, i, j), scale, sy, ey, spi)| == |g.records|;
  }

  /**
   * Replacing one pixel's series, for example by an all-NaN one, leaves every
   * other pixel's SPI series as it was, and the call still succeeds.
   */
  lemma SpiPixelIsolation(g: Grid, scale: int, spi: SpiLibrary, a: nat, b: nat, s: seq<Value>, i: nat, j: nat)
    requires WellShaped(g) && PreservesLength(spi) && |g.records| > 0
    requires a < |g.lat| && b < |g.lon| && |s| == |g.records|
    requires i < |g.lat| && j < |g.lon| && (i, j) != (a, b)
    ensures var h := ReplacePixel(g, a, b, s);
      var r, q := CalculateSpiWithUfunc(g, scale, spi), CalculateSpiWithUfunc(h, scale, spi);
      r.Ok? && q.Ok? && Series(q.value.grid, i, j) == Series(r.value.grid, i, j)
  {
    var h := ReplacePixel(g, a, b, s);
    ReplacePixelSeries(g, a, b, s, i, j);
    assert h.records[0].time == Times(h)[0] == Times(g)[0] == g.records[0].time;
    var last := |g.records| - 1;
    assert h.records[last].time == Times(h)[last] == Times(g)[last] == g.records[last].time;
    SpiPixelSeries(g, scale, spi, i, j);
    SpiPixelSeries(h, scale, spi, i, j);
  }
}
