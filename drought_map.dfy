/**
 * The hover labels of the SPI map in `update_drought_analysis` (`main.py`):
 * a preallocated 2-D array filled cell by cell in nested loops.
 */
module DroughtMap {
  import opened Wrappers
  import opened Text
  import opened Grids
  import opened DashboardTables

  /** The `:.2f` rendering of a real, which the model leaves as a parameter. */
  type Format = real -> string

  const Degree: string := "\U{00B0}"
  const Br: string := "<br>"

  /** The four lines of a present cell's label: value, class, latitude, longitude. */
  function HoverLines(z: real, spiType: int, la: real, lo: real, fmt: Format): (lines: seq<string>)
    ensures |lines| == 4 && lines[1] == "Class: " + ClassifySpi(z)
  {
    ["SPI-" + IntToString(spiType) + ": " + fmt(z),
     "Class: " + ClassifySpi(z),
     "Lat: " + fmt(la) + Degree,
     "Lon: " + fmt(lo) + Degree]
  }

  /** The label of one cell at latitude `la`, longitude `lo`: "No data" for NaN, else the lines joined by `<br>`. */
  function HoverText(v: Value, spiType: int, la: real, lo: real, fmt: Format): (text: string)
    ensures v.None? <==> text == NoData
  {
    match v
    case None => NoData
    case Some(z) =>
      var lines := HoverLines(z, spiType, la, lo, fmt);
      var text := Join(Br, lines);
      assert text[0] == 'S';
      text
  }

  /** A present cell's label starts with its SPI scale and names the value's class, never "N/A". */
  lemma HoverTextOfPresentCell(z: real, spiType: int, la: real, lo: real, fmt: Format)
    ensures HoverText(Some(z), spiType, la, lo, fmt) == Join(Br, HoverLines(z, spiType, la, lo, fmt))
    ensures StartsWith(HoverLines(z, spiType, la, lo, fmt)[0], "SPI-" + IntToString(spiType) + ": ")
    ensures HoverLines(z, spiType, la, lo, fmt)[1] != "Class: " + NotApplicable
  {
    ClassifySpiIsTheUniqueClass(z);
  }

  /** The inner `for j` loop: row `i` of `hover` filled, the other rows left as they were. */
  method FillHoverRow(hover: array2<string>, values: Slice, lat: seq<real>, lon: seq<real>, spiType: int, fmt: Format, i: nat)
    requires SliceShaped(values, |lat|, |lon|) && i < |lat|
    requires hover.Length0 == |lat| && hover.Length1 == |lon|
    modifies hover
    ensures forall b :: 0 <= b < |lon| ==> hover[i, b] == HoverText(values[i][b], spiType, lat[i], lon[b], fmt)
    ensures forall a, b :: 0 <= a < |lat| && a != i && 0 <= b < |lon| ==> hover[a, b] == old(hover[a, b])
  {
    var j := 0;
    while j < |lon|
      invariant 0 <= j <= |lon|
      invariant forall b :: 0 <= b < j ==> hover[i, b] == HoverText(values[i][b], spiType, lat[i], lon[b], fmt)
      invariant forall a, b :: 0 <= a < |lat| && a != i && 0 <= b < |lon| ==> hover[a, b] == old(hover[a, b])
    {
      var z := values[i][j];
      if z.None? {
        hover[i, j] := NoData;
      } else {
        hover[i, j] := HoverText(z, spiType, lat[i], lon[j], fmt);
      }
      j := j + 1;
    }
  }

  /**
   * The nested `for i` / `for j` loop: `hover[i, j]` is the label of cell
   * `values[i][j]` at `lat[i]`, `lon[j]` (the meshgrid of the coordinates).
   */
  method BuildHoverText(values: Slice, lat: seq<real>, lon: seq<real>, spiType: int, fmt: Format)
    returns (hover: array2<string>)
    requires SliceShaped(values, |lat|, |lon|)
    ensures fresh(hover) && hover.Length0 == |lat| && hover.Length1 == |lon|
    ensures forall i, j :: 0 <= i < |lat| && 0 <= j < |lon| ==>
      hover[i, j] == HoverText(values[i][j], spiType, lat[i], lon[j], fmt)
  {
    hover := new string[|lat|, |lon|]((i, j) => "");
    var i := 0;
    while i < |lat|
      invariant 0 <= i <= |lat|
      invariant forall a, b :: 0 <= a < i && 0 <= b < |lon| ==>
        hover[a, b] == HoverText(values[a][b], spiType, lat[a], lon[b], fmt)
    {
      FillHoverRow(hover, values, lat, lon, spiType, fmt, i);
      i := i + 1;
    }
  }
}
