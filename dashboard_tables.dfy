/** The constant tables of `main.py`: the season months and the SPI classes. */
module DashboardTables {
  import opened Wrappers
  import opened Grids

  // ---------------------------------------------------------------------------
  // seasons

  datatype Season = Winter | PreMonsoon | Monsoon | PostMonsoon

  /** The dictionary key the selector sends. */
  function SeasonName(s: Season): string {
    match s
    case Winter => "Winter"
    case PreMonsoon => "Pre-Monsoon"
    case Monsoon => "Monsoon"
    case PostMonsoon => "Post-Monsoon"
  }

  /** `seasons[name]`. */
  function SeasonMonths(s: Season): (ms: seq<int>)
    ensures 2 <= |ms| <= 4
    ensures forall k :: 0 <= k < |ms| ==> 1 <= ms[k] <= 12
  {
    match s
    case Winter => [12, 1, 2]
    case PreMonsoon => [3, 4, 5]
    case Monsoon => [6, 7, 8, 9]
    case PostMonsoon => [10, 11]
  }

  /** The season a calendar month belongs to. */
  function SeasonOf(m: int): (s: Season)
    requires 1 <= m <= 12
    ensures m in SeasonMonths(s)
  {
    if m == 12 || m <= 2 then Winter
    else if m <= 5 then PreMonsoon
    else if m <= 9 then Monsoon
    else PostMonsoon
  }

  /**
   * The four month lists partition 1..12: every listed month is a calendar
   * month, no list repeats one, and each month is in exactly one season.
   */
  lemma SeasonsPartitionMonths()
    ensures forall s, m :: m in SeasonMonths(s) ==> 1 <= m <= 12
    ensures forall s :: forall k, l :: 0 <= k < l < |SeasonMonths(s)| ==> SeasonMonths(s)[k] != SeasonMonths(s)[l]
    ensures forall s, m :: 1 <= m <= 12 && m in SeasonMonths(s) ==> s == SeasonOf(m)
    ensures |SeasonMonths(Winter)| + |SeasonMonths(PreMonsoon)| + |SeasonMonths(Monsoon)| + |SeasonMonths(PostMonsoon)| == 12
  {
    forall s, m | 1 <= m <= 12 && m in SeasonMonths(s) ensures s == SeasonOf(m) {
      var t := SeasonOf(m);
      assert m in SeasonMonths(t);
    }
  }

  // ---------------------------------------------------------------------------
  // SPI classes

  /** An interval end: `-float('inf')`, a finite value, or `float('inf')`. */
  datatype Bound = NegInf | At(r: real) | PosInf

  predicate AtLeast(z: real, lo: Bound) {
    match lo
    case NegInf => true
    case At(r) => r <= z
    case PosInf => false
  }

  predicate Below(z: real, hi: Bound) {
    match hi
    case NegInf => false
    case At(r) => z < r
    case PosInf => true
  }

  predicate BoundLe(a: Bound, b: Bound) {
    a.NegInf? || b.PosInf? || (a.At? && b.At? && a.r <= b.r)
  }

  /** One row `[lo, hi, name]`. */
  datatype SpiClass = SpiClass(lo: Bound, hi: Bound, name: string)

  /** `cls[0] <= z < cls[1]`. */
  predicate InClass(c: SpiClass, z: real) {
    AtLeast(z, c.lo) && Below(z, c.hi)
  }

  /** `SPI_CLASSES`, which `update_drought_analysis` repeats verbatim as `spi_classes`. */
  const SpiClasses: seq<SpiClass> := [
    SpiClass(NegInf, At(-2.0), "Exceptional Drought"),
    SpiClass(At(-2.0), At(-1.5), "Extreme Drought"),
    SpiClass(At(-1.5), At(-1.0), "Severe Drought"),
    SpiClass(At(-1.0), At(-0.5), "Moderate Drought"),
    SpiClass(At(-0.5), At(0.5), "Near Normal"),
    SpiClass(At(0.5), At(1.0), "Moderately Wet"),
    SpiClass(At(1.0), At(1.5), "Very Wet"),
    SpiClass(At(1.5), At(2.0), "Extremely Wet"),
    SpiClass(At(2.0), PosInf, "Exceptionally Wet")
  ]

  const NotApplicable: string := "N/A"
  const NoData: string := "No data"

  /** `next((cls[2] for cls in classes if cls[0] <= z < cls[1]), "N/A")`. */
  function FirstClassName(classes: seq<SpiClass>, z: real): (name: string)
    ensures (exists k :: 0 <= k < |classes| && InClass(classes[k], z)
               && name == classes[k].name && forall l :: 0 <= l < k ==> !InClass(classes[l], z))
         || (name == NotApplicable && forall k :: 0 <= k < |classes| ==> !InClass(classes[k], z))
  {
    if |classes| == 0 then NotApplicable
    else if InClass(classes[0], z) then classes[0].name
    else
      var rest := FirstClassName(classes[1..], z);
      assert forall k :: 1 <= k < |classes| ==> classes[k] == classes[1..][k - 1];
      rest
  }

  /** The table starts at minus infinity, ends at plus infinity, and each row starts where the previous ends. */
  predicate Contiguous(cs: seq<SpiClass>) {
    && |cs| > 0
    && cs[|cs| - 1].hi == PosInf
    && forall k :: 0 <= k < |cs| - 1 ==> cs[k].hi == cs[k + 1].lo
  }

  /** Row ends never go down from one row to any later one. */
  predicate Ordered(cs: seq<SpiClass>) {
    forall k, l :: 0 <= k < l < |cs| ==> BoundLe(cs[k].hi, cs[l].lo)
  }

  lemma SpiClassesShape()
    ensures Contiguous(SpiClasses) && Ordered(SpiClasses) && SpiClasses[0].lo == NegInf
  {
    assert Contiguous(SpiClasses);
    assert forall k :: 0 <= k < |SpiClasses| ==> BoundLe(SpiClasses[k].lo, SpiClasses[k].hi);
    ContiguousIsOrdered(SpiClasses);
  }

  /** A contiguous table whose rows each start no later than they end is ordered. */
  lemma ContiguousIsOrdered(cs: seq<SpiClass>)
    requires Contiguous(cs) && forall k :: 0 <= k < |cs| ==> BoundLe(cs[k].lo, cs[k].hi)
    ensures Ordered(cs)
  {
    forall k, l | 0 <= k < l < |cs| ensures BoundLe(cs[k].hi, cs[l].lo) {
      RowEndNotAfterLaterStart(cs, k, l);
    }
  }

  lemma {:induction false} RowEndNotAfterLaterStart(cs: seq<SpiClass>, k: nat, l: nat)
    requires Contiguous(cs) && forall m :: 0 <= m < |cs| ==> BoundLe(cs[m].lo, cs[m].hi)
    requires k < l < |cs|
    ensures BoundLe(cs[k].hi, cs[l].lo)
    decreases l - k
  {
    if l > k + 1 {
      RowEndNotAfterLaterStart(cs, k, l - 1);
      assert cs[l - 1].hi == cs[l].lo;
      assert BoundLe(cs[l - 1].lo, cs[l - 1].hi);
    } else {
      assert cs[k].hi == cs[l].lo;
    }
  }

  /** In a contiguous table, a value at or above the first row's start falls in some row. */
  lemma {:induction false} SomeClassContains(cs: seq<SpiClass>, z: real)
    requires Contiguous(cs) && AtLeast(z, cs[0].lo)
    ensures exists k :: 0 <= k < |cs| && InClass(cs[k], z)
  {
    if !Below(z, cs[0].hi) {
      assert |cs| > 1;
      var rest := cs[1..];
      assert rest[0].lo == cs[0].hi;
      assert Contiguous(rest) by {
        forall k | 0 <= k < |rest| - 1 ensures rest[k].hi == rest[k + 1].lo {
          assert rest[k] == cs[k + 1] && rest[k + 1] == cs[k + 2];
        }
      }
      SomeClassContains(rest, z);
      var k :| 0 <= k < |rest| && InClass(rest[k], z);
      assert cs[k + 1] == rest[k];
    } else {
      assert InClass(cs[0], z);
    }
  }

  /** In an ordered table no value falls in two rows. */
  lemma AtMostOneClass(cs: seq<SpiClass>, z: real, k: nat, l: nat)
    requires Ordered(cs) && k < |cs| && l < |cs| && InClass(cs[k], z) && InClass(cs[l], z)
    ensures k == l
  {
  }

  /** The class label of a present SPI value. */
  function ClassifySpi(z: real): (name: string)
    ensures exists k :: 0 <= k < |SpiClasses| && InClass(SpiClasses[k], z) && name == SpiClasses[k].name
  {
    SpiClassesShape();
    SomeClassContains(SpiClasses, z);
    FirstClassName(SpiClasses, z)
  }

  /**
   * Every real value falls in exactly one of the nine classes, and the lookup
   * returns that class's name, so a present value is never labelled "N/A".
   */
  lemma ClassifySpiIsTheUniqueClass(z: real)
    ensures exists k ::
      && 0 <= k < |SpiClasses| && InClass(SpiClasses[k], z)
      && ClassifySpi(z) == SpiClasses[k].name
      && (forall l :: 0 <= l < |SpiClasses| && InClass(SpiClasses[l], z) ==> l == k)
    ensures ClassifySpi(z) != NotApplicable
  {
    SpiClassesShape();
    SomeClassContains(SpiClasses, z);
    var k :| 0 <= k < |SpiClasses| && InClass(SpiClasses[k], z);
    forall l | 0 <= l < |SpiClasses| && InClass(SpiClasses[l], z) ensures l == k {
      AtMostOneClass(SpiClasses, z, k, l);
    }
  }

  /** The label of a value is the name of any row that contains it. */
  lemma ClassifyInRow(z: real, k: nat)
    requires k < |SpiClasses| && InClass(SpiClasses[k], z)
    ensures ClassifySpi(z) == SpiClasses[k].name
  {
    ClassifySpiIsTheUniqueClass(z);
  }

  /** A value on a boundary belongs to the class that starts there. */
  lemma BoundariesBelongAbove()
    ensures ClassifySpi(-2.0) == "Extreme Drought"
    ensures ClassifySpi(-1.5) == "Severe Drought"
    ensures ClassifySpi(-0.5) == "Near Normal"
    ensures ClassifySpi(0.5) == "Moderately Wet"
    ensures ClassifySpi(2.0) == "Exceptionally Wet"
  {
    ClassifyInRow(-2.0, 1);
    ClassifyInRow(-1.5, 2);
    ClassifyInRow(-0.5, 4);
    ClassifyInRow(0.5, 5);
    ClassifyInRow(2.0, 8);
  }

  /** A cell of the SPI map: "No data" for NaN, otherwise its class. */
  function CellClass(v: Value): (text: string)
    ensures v.None? <==> text == NoData
    ensures v.Some? ==> exists k :: 0 <= k < |SpiClasses| && InClass(SpiClasses[k], v.value) && text == SpiClasses[k].name
  {
    match v
    case None => NoData
    case Some(z) =>
      ClassifySpiIsTheUniqueClass(z);
      ClassifySpi(z)
  }
}
