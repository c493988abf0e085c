/**
 * The season-year aggregator (`season_stat`): walks the crop table row by
 * row, resolves each row's growing-season window, computes the cell's
 * percentile thresholds and writes every growing-season year of the cell
 * into zero-initialised output grids indexed (indicator, year, lat, lon).
 */
module Aggregator {
  import opened Common
  import opened RunLength
  import opened GrowingSeason
  import opened SeasonDays
  import opened Indicators

  /**
   * What a crop-table row holds for the resolver: every crop, or the one crop
   * of the script. `AllCrops` lists the crops in the fixed order mai, ri1, ri2,
   * soy, swh, wwh that the multi-crop scripts iterate; the resolved window
   * depends on that order.
   */
  datatype Composition = AllCrops(crops: seq<CropArea>) | OneCrop(crop: CropArea)

  /**
   * One crop-table row: the indices of its cell in the grids' lat and lon
   * axes, its crop composition with the calendars at that cell, and the
   * cell's daily climate, one calendar year per element.
   */
  datatype Row = Row(lat: nat, lon: nat, composition: Composition, climate: seq<seq<real>>)

  /**
   * The fixed inputs of one run: the script family, the consecutive years
   * of the climate data (firstYear, firstYear + 1, ...), the grid sizes and
   * the percentile function.
   */
  datatype Run = Run(variant: Variant, firstYear: int, nYears: nat, nLat: nat, nLon: nat,
                     quantile: (seq<real>, real) -> real)

  predicate CompositionValid(c: Composition)
  {
    match c
    case AllCrops(crops) => forall i :: 0 <= i < |crops| ==> ValidCalendars(crops[i])
    case OneCrop(crop) => ValidCalendars(crop)
  }

  /** A row whose cell lies on the grids, whose climate covers every year and whose calendars hold days of year. */
  predicate RowFits(run: Run, r: Row)
  {
    r.lat < run.nLat && r.lon < run.nLon && |r.climate| == run.nYears && CompositionValid(r.composition)
  }

  predicate RowsFit(run: Run, rows: seq<Row>)
  {
    forall i :: 0 <= i < |rows| ==> RowFits(run, rows[i])
  }

  /** The window of a row, given what the window variables hold from the rows before it. */
  function RowWindow(c: Composition, previous: Option<Window>): Option<Window>
  {
    match c
    case AllCrops(crops) => Some(AggregateWindow(crops))
    case OneCrop(crop) => ResolveCrop(crop, previous)
  }

  /** The window row i is processed with; None when a single-crop row finds its window variables unassigned. */
  function WindowAt(rows: seq<Row>, i: nat): Option<Window>
    requires i < |rows|
  {
    RowWindow(rows[i].composition, if i == 0 then None else WindowAt(rows, i - 1))
  }

  /** Rows with valid calendars only ever get well-formed windows. */
  lemma {:induction false} WindowAtWellFormed(rows: seq<Row>, i: nat)
    requires i < |rows|
    requires forall n :: 0 <= n <= i ==> CompositionValid(rows[n].composition)
    ensures WindowAt(rows, i).Some? ==> WellFormed(WindowAt(rows, i).value)
  {
    var previous := if i == 0 then None else WindowAt(rows, i - 1);
    if i > 0 {
      WindowAtWellFormed(rows, i - 1);
    }
    match rows[i].composition
    case AllCrops(crops) => AccumulateWellFormed(crops);
    case OneCrop(crop) => ResolveCropWellFormed(crop, previous);
  }

  /**
   * Whether processing row i raises: a single-crop row with no window yet
   * (unbound window variables), or a wrapping window whose loop reaches a
   * last year other than 2019 (label past the grid).
   */
  predicate RowFails(run: Run, rows: seq<Row>, i: nat)
    requires i < |rows|
  {
    WindowAt(rows, i).None? || WrapFails(run.firstYear, run.nYears, WindowAt(rows, i).value)
  }

  /** Whether no row raises. */
  predicate Succeeds(run: Run, rows: seq<Row>)
  {
    forall i :: 0 <= i < |rows| ==>
      WindowAt(rows, i).Some? && !WrapFails(run.firstYear, run.nYears, WindowAt(rows, i).value)
  }

  /** What row i leaves in slot (indicator k, year index j) of its own cell. */
  function RowSlot(run: Run, rows: seq<Row>, i: nat, j: nat, k: nat): Option<real>
    requires RowsFit(run, rows) && i < |rows| && WindowAt(rows, i).Some?
    requires j < run.nYears && k < |IndicatorsOf(run.variant)|
  {
    var r := rows[i];
    var w := WindowAt(rows, i).value;
    WindowAtWellFormed(rows, i);
    LabelWrite(run.variant, run.firstYear, r.climate, w, CellThresholds(r.climate, w, run.quantile), j, k)
  }

  /** Slot (k, j, la, lo) of the grids after the first m rows are processed. */
  function CellAfter(run: Run, rows: seq<Row>, m: nat, k: nat, j: nat, la: nat, lo: nat): real
    requires RowsFit(run, rows) && m <= |rows|
    requires forall i :: 0 <= i < m ==> WindowAt(rows, i).Some?
    requires j < run.nYears && k < |IndicatorsOf(run.variant)|
  {
    if m == 0 then 0.0
    else
      var earlier := CellAfter(run, rows, m - 1, k, j, la, lo);
      if rows[m - 1].lat == la && rows[m - 1].lon == lo then RowSlot(run, rows, m - 1, j, k).GetOr(earlier)
      else earlier
  }

  /** No two rows name the same cell, as the crop table is meant to be. */
  predicate DistinctCells(rows: seq<Row>)
  {
    forall a, b :: 0 <= a < b < |rows| ==> rows[a].lat != rows[b].lat || rows[a].lon != rows[b].lon
  }

  /** A cell that no row names keeps its initial 0 in every grid and year. */
  lemma {:induction false} UnlistedCellStaysZero(run: Run, rows: seq<Row>, m: nat, k: nat, j: nat, la: nat, lo: nat)
    requires RowsFit(run, rows) && m <= |rows|
    requires forall i :: 0 <= i < m ==> WindowAt(rows, i).Some?
    requires j < run.nYears && k < |IndicatorsOf(run.variant)|
    requires forall i :: 0 <= i < m ==> rows[i].lat != la || rows[i].lon != lo
    ensures CellAfter(run, rows, m, k, j, la, lo) == 0.0
  {
    if m > 0 {
      UnlistedCellStaysZero(run, rows, m - 1, k, j, la, lo);
    }
  }

  /**
   * With one row per cell, a cell's slot holds what its row writes there,
   * or the initial 0 where the row leaves the slot alone (the first label
   * of a wrapping season).
   */
  lemma {:induction false} OwnRowDecidesCell(run: Run, rows: seq<Row>, m: nat, i: nat, k: nat, j: nat)
    requires RowsFit(run, rows) && m <= |rows| && DistinctCells(rows)
    requires forall n :: 0 <= n < m ==> WindowAt(rows, n).Some?
    requires i < m && j < run.nYears && k < |IndicatorsOf(run.variant)|
    ensures CellAfter(run, rows, m, k, j, rows[i].lat, rows[i].lon) == RowSlot(run, rows, i, j, k).GetOr(0.0)
  {
    if i == m - 1 {
      UnlistedCellStaysZero(run, rows, m - 1, k, j, rows[i].lat, rows[i].lon);
    } else {
      OwnRowDecidesCell(run, rows, m - 1, i, k, j);
    }
  }

  /**
   * A single-crop row with no positive area assigns no window variable: it
   * reuses the previous row's window, and as the first row it raises.
   */
  lemma UnmatchedRowReusesWindow(run: Run, rows: seq<Row>, i: nat)
    requires i < |rows| && rows[i].composition.OneCrop?
    requires rows[i].composition.crop.rainArea <= 0.0 && rows[i].composition.crop.irrArea <= 0.0
    ensures WindowAt(rows, i) == if i == 0 then None else WindowAt(rows, i - 1)
    ensures i == 0 ==> RowFails(run, rows, i)
  {
  }

  /**
   * A multi-crop row whose crops all have zero area keeps the initial
   * window, which counts as wrapping: the row raises unless the data end
   * in 2019.
   */
  lemma AllAbsentRowWraps(run: Run, rows: seq<Row>, i: nat)
    requires i < |rows| && rows[i].composition.AllCrops?
    requires forall c :: 0 <= c < |rows[i].composition.crops| ==> Absent(rows[i].composition.crops[c])
    ensures WindowAt(rows, i) == Some(Unset) && Wraps(Unset)
    ensures RowFails(run, rows, i) <==> run.nYears > 0 && run.firstYear + run.nYears - 1 != SentinelYear
  {
    var crops := rows[i].composition.crops;
    AbsentSuffixChangesNothing([], crops);
    assert [] + crops == crops;
  }

  // ---------------------------------------------------------------------
  // Output grids
  // ---------------------------------------------------------------------

  /**
   * The output grids of one run, one per indicator of the family, each
   * indexed (year index, lat index, lon index): data[k, j, la, lo].
   */
  class IndicatorGrids {
    const variant: Variant
    const firstYear: int
    const nYears: nat
    const nLat: nat
    const nLon: nat
    const data: array4<real>

    ghost predicate Valid()
    {
      && data.Length0 == |IndicatorsOf(variant)|
      && data.Length1 == nYears
      && data.Length2 == nLat
      && data.Length3 == nLon
    }

    /** Zero-filled grids over the given years and cells. */
    constructor (variant: Variant, firstYear: int, nYears: nat, nLat: nat, nLon: nat)
      ensures Valid() && fresh(data)
      ensures this.variant == variant && this.firstYear == firstYear
      ensures this.nYears == nYears && this.nLat == nLat && this.nLon == nLon
      ensures forall k, j, la, lo | 0 <= k < data.Length0 && 0 <= j < nYears && 0 <= la < nLat && 0 <= lo < nLon ::
        data[k, j, la, lo] == 0.0
    {
      this.variant := variant;
      this.firstYear := firstYear;
      this.nYears := nYears;
      this.nLat := nLat;
      this.nLon := nLon;
      data := new real[|IndicatorsOf(variant)|, nYears, nLat, nLon]((k, j, la, lo) => 0.0);
    }

    /** `grid.loc[year, lat, lon] = value` for every grid of the family at once. */
    method WriteLabel(j: nat, la: nat, lo: nat, values: seq<real>)
      requires Valid() && j < nYears && la < nLat && lo < nLon && |values| == data.Length0
      modifies data
      ensures forall k, j', la', lo' | 0 <= k < data.Length0 && 0 <= j' < nYears && 0 <= la' < nLat && 0 <= lo' < nLon ::
        data[k, j', la', lo'] == if j' == j && la' == la && lo' == lo then values[k] else old(data[k, j', la', lo'])
    {
      forall k | 0 <= k < data.Length0 {
        data[k, j, la, lo] := values[k];
      }
    }

    /** The 2019 reset: every grid the family resets gets 0 at this label. */
    method ZeroSentinel(j: nat, la: nat, lo: nat)
      requires Valid() && j < nYears && la < nLat && lo < nLon
      modifies data
      ensures forall k, j', la', lo' | 0 <= k < data.Length0 && 0 <= j' < nYears && 0 <= la' < nLat && 0 <= lo' < nLon ::
        data[k, j', la', lo'] ==
          if j' == j && la' == la && lo' == lo && ZeroedAtSentinel(variant, IndicatorsOf(variant)[k]) then 0.0
          else old(data[k, j', la', lo'])
    {
      forall k | 0 <= k < data.Length0 && ZeroedAtSentinel(variant, IndicatorsOf(variant)[k]) {
        data[k, j, la, lo] := 0.0;
      }
    }

    /**
     * One cell's pass over the years with its resolved window and
     * thresholds: the in-year branch, then the wrapping branch. Returns
     * false where the wrapping loop would write a label past the grid.
     */
    method ProcessCell(la: nat, lo: nat, climate: seq<seq<real>>, w: Window, th: Thresholds) returns (ok: bool)
      requires Valid() && la < nLat && lo < nLon && |climate| == nYears && WellFormed(w)
      modifies data
      ensures ok == !WrapFails(firstYear, nYears, w)
      ensures ok ==> forall k, j, la', lo' | 0 <= k < data.Length0 && 0 <= j < nYears && 0 <= la' < nLat && 0 <= lo' < nLon ::
        data[k, j, la', lo'] ==
          if la' == la && lo' == lo then LabelWrite(variant, firstYear, climate, w, th, j, k).GetOr(old(data[k, j, la', lo']))
          else old(data[k, j, la', lo'])
    {
      ok := true;
      if w.start <= w.end {
        ProcessInYear(la, lo, climate, w, th);
      }
      if w.end < w.start {
        ok := ProcessWrapping(la, lo, climate, w, th);
      }
    }

    /** A season inside one calendar year: every year's label gets that year's season. */
    method ProcessInYear(la: nat, lo: nat, climate: seq<seq<real>>, w: Window, th: Thresholds)
      requires Valid() && la < nLat && lo < nLon && |climate| == nYears && WellFormed(w) && !Wraps(w)
      modifies data
      ensures forall k, j, la', lo' | 0 <= k < data.Length0 && 0 <= j < nYears && 0 <= la' < nLat && 0 <= lo' < nLon ::
        data[k, j, la', lo'] ==
          if la' == la && lo' == lo then LabelWrite(variant, firstYear, climate, w, th, j, k).value
          else old(data[k, j, la', lo'])
    {
      TotalDaysNonZero(w);
      var totalDays := TotalDays(w);
      for j := 0 to nYears
        invariant forall k, j', la', lo' | 0 <= k < data.Length0 && 0 <= j' < nYears && 0 <= la' < nLat && 0 <= lo' < nLon ::
          data[k, j', la', lo'] ==
            if la' == la && lo' == lo && j' < j then LabelWrite(variant, firstYear, climate, w, th, j', k).value
            else old(data[k, j', la', lo'])
      {
        var current := Select(climate[j], Between(w.start, w.end));
        var values := SeasonValues(variant, [], current, th, totalDays);
        assert [] + current == InYearSeason(climate, j, w);
        WriteLabel(j, la, lo, values);
      }
    }

    /**
     * A season spanning two calendar years: the pass over year i writes the
     * season ending in year i + 1 under label i + 1, or resets label i when
     * year i is the sentinel. Returns false where label i + 1 is past the grid.
     */
    method ProcessWrapping(la: nat, lo: nat, climate: seq<seq<real>>, w: Window, th: Thresholds) returns (ok: bool)
      requires Valid() && la < nLat && lo < nLon && |climate| == nYears && WellFormed(w) && Wraps(w)
      modifies data
      ensures ok == !WrapFails(firstYear, nYears, w)
      ensures ok ==> forall k, j, la', lo' | 0 <= k < data.Length0 && 0 <= j < nYears && 0 <= la' < nLat && 0 <= lo' < nLon ::
        data[k, j, la', lo'] ==
          if la' == la && lo' == lo then LabelWrite(variant, firstYear, climate, w, th, j, k).GetOr(old(data[k, j, la', lo']))
          else old(data[k, j, la', lo'])
    {
      TotalDaysNonZero(w);
      var totalDays := TotalDays(w);
      var i := 0;
      while i < nYears
        invariant 0 <= i <= nYears
        invariant i == nYears && i > 0 ==> firstYear + nYears - 1 == SentinelYear
        invariant forall k, j', la', lo' | 0 <= k < data.Length0 && 0 <= j' < nYears && 0 <= la' < nLat && 0 <= lo' < nLon ::
          data[k, j', la', lo'] == WrapProgress(i, climate, w, th, j', k, la' == la && lo' == lo, old(data[k, j', la', lo']))
      {
        if firstYear + i == SentinelYear {
          ZeroSentinel(i, la, lo);
        } else {
          if i + 1 >= nYears {
            // The label firstYear + i + 1 is not a year of the grids.
            ok := false;
            return;
          }
          var previous := Select(climate[i], From(w.start));
          var current := Select(climate[i + 1], UpTo(w.end));
          var values := SeasonValues(variant, previous, current, th, totalDays);
          WriteLabel(i + 1, la, lo, values);
        }
        i := i + 1;
      }
      ok := true;
    }

    /**
     * Slot (k, j) of the processed cell once the wrapping loop has passed
     * years 0 .. i - 1: labels before i are final, label i holds at most the
     * season written by the pass over year i - 1.
     */
    ghost function WrapProgress(i: nat, climate: seq<seq<real>>, w: Window, th: Thresholds,
                                j: nat, k: nat, inCell: bool, before: real): real
      requires Valid() && WellFormed(w) && Wraps(w) && j < |climate| && k < data.Length0
    {
      TotalDaysNonZero(w);
      if !inCell || j > i then before
      else if j < i then LabelWrite(variant, firstYear, climate, w, th, j, k).GetOr(before)
      else if 1 <= j && firstYear + j - 1 != SentinelYear then
        IndicatorValue(IndicatorsOf(variant)[k], WrapSeason(climate, j, w), th, TotalDays(w))
      else before
    }
  }

  /** `xr.apply_ufunc(extreme_length, mask)`: the scanner run over a copy of the mask. */
  method SpellLength(mask: seq<int>) returns (n: nat)
    ensures n == LongestRun(mask)
  {
    var a := new int[|mask|](i requires 0 <= i < |mask| => mask[i]);
    assert a[..] == mask;
    n := ExtremeLength(a);
  }

  /** The values of every grid of the family over one season. */
  function SeasonValuesOf(v: Variant, days: seq<real>, th: Thresholds, totalDays: int): seq<real>
    requires totalDays != 0
  {
    seq(|IndicatorsOf(v)|, k requires 0 <= k < |IndicatorsOf(v)| => IndicatorValue(IndicatorsOf(v)[k], days, th, totalDays))
  }

  /**
   * The statements of one season year: every grid of the family in turn.
   * An in-year season has an empty `previous` part.
   */
  method SeasonValues(v: Variant, previous: seq<real>, current: seq<real>, th: Thresholds, totalDays: int)
    returns (values: seq<real>)
    requires totalDays != 0
    ensures values == SeasonValuesOf(v, previous + current, th, totalDays)
  {
    var indicators := IndicatorsOf(v);
    values := [];
    for k := 0 to |indicators|
      invariant |values| == k
      invariant forall k' :: 0 <= k' < k ==> values[k'] == IndicatorValue(indicators[k'], previous + current, th, totalDays)
    {
      var x := IndicatorOver(indicators[k], previous, current, th, totalDays);
      values := values + [x];
    }
  }

  /**
   * One indicator over a season given in two parts: the counts and sums of
   * the parts added, the spell over the joined masks.
   */
  method IndicatorOver(ind: Indicator, previous: seq<real>, current: seq<real>, th: Thresholds, totalDays: int)
    returns (x: real)
    requires totalDays != 0
    ensures x == IndicatorValue(ind, previous + current, th, totalDays)
  {
    var t := TestOf(ind, th);
    if ind == Total {
      SumAppend(previous, current);
      x := Sum(current) + Sum(previous);
    } else if ind == LowRun || ind == HighRun || ind == RainRun {
      MaskAppend(previous, current, t);
      var n := SpellLength(Mask(previous, t) + Mask(current, t));
      x := n as real;
    } else {
      CountAppend(previous, current, t);
      x := (Count(current, t) + Count(previous, t)) as real / totalDays as real;
    }
  }

  /**
   * `season_stat`: processes the rows in order and returns the grids; ok is
   * false exactly when a row raises, and then no grids are returned.
   */
  method SeasonStat(run: Run, rows: seq<Row>) returns (ok: bool, grids: IndicatorGrids)
    requires RowsFit(run, rows)
    ensures ok <==> Succeeds(run, rows)
    ensures fresh(grids.data) && grids.Valid()
    ensures grids.variant == run.variant && grids.firstYear == run.firstYear
    ensures grids.nYears == run.nYears && grids.nLat == run.nLat && grids.nLon == run.nLon
    ensures ok ==> forall k, j, la, lo | 0 <= k < grids.data.Length0 && 0 <= j < run.nYears && 0 <= la < run.nLat && 0 <= lo < run.nLon ::
      grids.data[k, j, la, lo] == CellAfter(run, rows, |rows|, k, j, la, lo)
  {
    grids := new IndicatorGrids(run.variant, run.firstYear, run.nYears, run.nLat, run.nLon);
    var previous: Option<Window> := None;
    for m := 0 to |rows|
      invariant fresh(grids.data) && grids.Valid()
      invariant previous == if m == 0 then None else WindowAt(rows, m - 1)
      invariant forall i :: 0 <= i < m ==>
        WindowAt(rows, i).Some? && !WrapFails(run.firstYear, run.nYears, WindowAt(rows, i).value)
      invariant forall k, j, la, lo | 0 <= k < grids.data.Length0 && 0 <= j < run.nYears && 0 <= la < run.nLat && 0 <= lo < run.nLon ::
        grids.data[k, j, la, lo] == CellAfter(run, rows, m, k, j, la, lo)
    {
      var row := rows[m];
      var window: Option<Window>;
      match row.composition {
        case AllCrops(crops) =>
          var loc := ResolveAllCrops(crops);
          window := Some(loc);
        case OneCrop(crop) =>
          window := ResolveCrop(crop, previous);
      }
      assert window == WindowAt(rows, m);
      if window.None? {
        // The window variables were never assigned.
        assert RowFails(run, rows, m);
        ok := false;
        return;
      }
      previous := window;
      var w := window.value;
      WindowAtWellFormed(rows, m);
      var th := CellThresholds(row.climate, w, run.quantile);
      ok := grids.ProcessCell(row.lat, row.lon, row.climate, w, th);
      if !ok {
        assert RowFails(run, rows, m);
        return;
      }
    }
    ok := true;
  }
}
