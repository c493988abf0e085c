/**
 * The indicators of the three script families and the value each one
 * takes for one growing-season year of one grid cell, including which
 * year label a wrapping season is written under and the 2019 sentinel.
 */
module Indicators {
  import opened Common
  import opened RunLength
  import opened GrowingSeason
  import opened SeasonDays

  /**
   * One output grid. Frequencies divide a count by total_days; spells are
   * longest runs; Total is the summed precipitation.
   */
  datatype Indicator =
    | LowFreq   // frequency of days <= p05: drydays_freq / FDD
    | HighFreq  // frequency of days >= p95: raindays_freq / FWD / FHD / hotdays_freq
    | RainFreq  // frequency of days > 0: wetdays_freq
    | Total     // growing-season precipitation sum: tot_pr / TPR
    | LowRun    // longest run of days <= p05: droughts / LDS
    | HighRun   // longest run of days >= p95: LWS / LHS / heatwaves
    | RainRun   // longest run of days > 0: floods

  /** The script families: precipitation extremes, dry/wet extremes, heat extremes. */
  datatype Variant = DroughtsFloods | DryWet | Hot

  /** The grids a family returns, in the order its `season_stat` returns them. */
  function IndicatorsOf(v: Variant): seq<Indicator>
  {
    match v
    case DroughtsFloods => [LowFreq, HighFreq, RainFreq, Total, LowRun, RainRun]
    case DryWet => [LowFreq, HighFreq, Total, LowRun, HighRun]
    case Hot => [HighFreq, HighRun]
  }

  /** The year whose label a wrapping season resets instead of filling the next one. */
  const SentinelYear: int := 2019

  /** The precipitation-extremes scripts never reset their total-precipitation grid. */
  predicate ZeroedAtSentinel(v: Variant, ind: Indicator)
  {
    !(v == DroughtsFloods && ind == Total)
  }

  /** The 5th and 95th percentile of a cell's pooled growing-season sample. */
  datatype Thresholds = Thresholds(low: real, high: real)

  /** The days a cell's percentile sample pools from every year. */
  function SampleMask(w: Window): DayMask
  {
    if Wraps(w) then FromOrUpTo(w.start, w.end) else Between(w.start, w.end)
  }

  /**
   * The thresholds of one cell. `quantile` stands for the percentile of
   * the array library, applied to the pooled sample.
   */
  function CellThresholds(climate: seq<seq<real>>, w: Window, quantile: (seq<real>, real) -> real): Thresholds
  {
    var sample := Pooled(climate, SampleMask(w));
    Thresholds(quantile(sample, 0.05), quantile(sample, 0.95))
  }

  /** The divisor of the frequencies, as the scripts compute it (always 365-based). */
  function TotalDays(w: Window): int
  {
    if Wraps(w) then (365 - w.start + 1) + w.end else w.end - w.start + 1
  }

  /** total_days is never zero: positive for calendar windows, -1 for the initial window. */
  lemma TotalDaysNonZero(w: Window)
    requires WellFormed(w)
    ensures TotalDays(w) != 0
    ensures w != Unset ==> 1 <= TotalDays(w) <= 366
    ensures w == Unset ==> TotalDays(w) == -1
  {
  }

  /** One indicator over the days of one season. */
  function IndicatorValue(ind: Indicator, days: seq<real>, th: Thresholds, totalDays: int): real
    requires totalDays != 0
  {
    match ind
    case LowFreq => Count(days, AtMost(th.low)) as real / totalDays as real
    case HighFreq => Count(days, AtLeast(th.high)) as real / totalDays as real
    case RainFreq => Count(days, Positive) as real / totalDays as real
    case Total => Sum(days)
    case LowRun => Spell(days, AtMost(th.low)) as real
    case HighRun => Spell(days, AtLeast(th.high)) as real
    case RainRun => Spell(days, Positive) as real
  }

  predicate IsFrequency(ind: Indicator)
  {
    ind == LowFreq || ind == HighFreq || ind == RainFreq
  }

  /** The test whose count a frequency divides, or whose run a spell measures. */
  function TestOf(ind: Indicator, th: Thresholds): Test
  {
    match ind
    case LowFreq => AtMost(th.low)
    case LowRun => AtMost(th.low)
    case HighFreq => AtLeast(th.high)
    case HighRun => AtLeast(th.high)
    case RainFreq => Positive
    case RainRun => Positive
    case Total => Positive
  }

  /** The days of calendar year j inside a season that does not wrap. */
  function InYearSeason(climate: seq<seq<real>>, j: nat, w: Window): seq<real>
    requires j < |climate|
  {
    Select(climate[j], Between(w.start, w.end))
  }

  /**
   * The days of the wrapping season labelled with year j: the end of year
   * j - 1 followed by the beginning of year j.
   */
  function WrapSeason(climate: seq<seq<real>>, j: nat, w: Window): seq<real>
    requires 1 <= j < |climate|
  {
    Select(climate[j - 1], From(w.start)) + Select(climate[j], UpTo(w.end))
  }

  /** Whether the wrapping loop reaches its last year with a label past the grid. */
  predicate WrapFails(firstYear: int, nYears: nat, w: Window)
  {
    Wraps(w) && nYears > 0 && firstYear + nYears - 1 != SentinelYear
  }

  /**
   * What a cell's processing leaves in grid slot (indicator k, year index j):
   * Some(value) when the row writes it last, None when it leaves the slot
   * as it was. Years are firstYear, firstYear + 1, ...
   */
  function LabelWrite(v: Variant, firstYear: int, climate: seq<seq<real>>, w: Window, th: Thresholds,
                      j: nat, k: nat): Option<real>
    requires WellFormed(w) && j < |climate| && k < |IndicatorsOf(v)|
  {
    var ind := IndicatorsOf(v)[k];
    TotalDaysNonZero(w);
    if !Wraps(w) then
      Some(IndicatorValue(ind, InYearSeason(climate, j, w), th, TotalDays(w)))
    else if firstYear + j == SentinelYear && ZeroedAtSentinel(v, ind) then
      Some(0.0)
    else if 1 <= j && firstYear + j - 1 != SentinelYear then
      Some(IndicatorValue(ind, WrapSeason(climate, j, w), th, TotalDays(w)))
    else
      None
  }

  // ---------------------------------------------------------------------
  // Properties of the per-season values
  // ---------------------------------------------------------------------

  /**
   * Every slot of a non-wrapping cell is written, and every frequency lies
   * in [0, 1]: the in-year season has at most total_days days.
   */
  lemma NonWrapFrequencyInUnitRange(v: Variant, firstYear: int, climate: seq<seq<real>>, w: Window,
                                    th: Thresholds, j: nat, k: nat)
    requires WellFormed(w) && !Wraps(w) && j < |climate| && k < |IndicatorsOf(v)|
    ensures LabelWrite(v, firstYear, climate, w, th, j, k).Some?
    ensures IsFrequency(IndicatorsOf(v)[k]) ==>
      0.0 <= LabelWrite(v, firstYear, climate, w, th, j, k).value <= 1.0
  {
    TotalDaysNonZero(w);
    var days := InYearSeason(climate, j, w);
    SelectBetween(climate[j], w.start, w.end);
    var ind := IndicatorsOf(v)[k];
    if IsFrequency(ind) {
      FrequencyInUnitRange(ind, days, th, TotalDays(w));
    }
  }

  /** A frequency over at most `totalDays` days lies in [0, 1]. */
  lemma FrequencyInUnitRange(ind: Indicator, days: seq<real>, th: Thresholds, totalDays: int)
    requires IsFrequency(ind) && 0 < totalDays && |days| <= totalDays
    ensures 0.0 <= IndicatorValue(ind, days, th, totalDays) <= 1.0
  {
    var n := Count(days, TestOf(ind, th));
    assert IndicatorValue(ind, days, th, totalDays) == n as real / totalDays as real;
    ShareOfTotal(n as real, totalDays as real);
  }

  lemma ShareOfTotal(a: real, t: real)
    requires 0.0 < t && 0.0 <= a <= t
    ensures 0.0 <= a / t <= 1.0
  {
    var x := a / t;
    assert x * t == a;
    assert (x - 1.0) * t == a - t;
  }

  /**
   * With p05 below p95, the dry-day and wet-day frequencies of an in-year
   * season add up to at most 1.
   */
  lemma NonWrapDryWetExclusive(climate: seq<seq<real>>, w: Window, th: Thresholds, j: nat)
    requires WellFormed(w) && !Wraps(w) && j < |climate| && th.low < th.high
    ensures IndicatorValue(LowFreq, InYearSeason(climate, j, w), th, TotalDays(w)) +
            IndicatorValue(HighFreq, InYearSeason(climate, j, w), th, TotalDays(w)) <= 1.0
  {
    var days := InYearSeason(climate, j, w);
    SelectBetween(climate[j], w.start, w.end);
    DisjointCounts(days, th.low, th.high);
    SharesOfTotal(Count(days, AtMost(th.low)) as real, Count(days, AtLeast(th.high)) as real, TotalDays(w) as real);
  }

  lemma SharesOfTotal(a: real, b: real, t: real)
    requires 0.0 < t && a + b <= t
    ensures a / t + b / t <= 1.0
  {
    var x, y := a / t, b / t;
    assert (x + y - 1.0) * t == a + b - t;
  }

  /**
   * A wrapping cell never writes the first year's label, except to zero it
   * when the first year is the sentinel.
   */
  lemma FirstLabelNeverWritten(v: Variant, firstYear: int, climate: seq<seq<real>>, w: Window, th: Thresholds, k: nat)
    requires WellFormed(w) && Wraps(w) && 0 < |climate| && k < |IndicatorsOf(v)|
    ensures firstYear != SentinelYear ==> LabelWrite(v, firstYear, climate, w, th, 0, k) == None
    ensures firstYear == SentinelYear ==>
      LabelWrite(v, firstYear, climate, w, th, 0, k) ==
        (if ZeroedAtSentinel(v, IndicatorsOf(v)[k]) then Some(0.0) else None)
  {
  }

  /**
   * The sentinel label of a wrapping cell is reset to 0, except for the
   * precipitation-extremes total, which keeps the season that ends in 2019.
   */
  lemma SentinelLabel(v: Variant, firstYear: int, climate: seq<seq<real>>, w: Window, th: Thresholds, j: nat, k: nat)
    requires WellFormed(w) && Wraps(w) && j < |climate| && k < |IndicatorsOf(v)|
    requires firstYear + j == SentinelYear
    ensures v != DroughtsFloods || IndicatorsOf(v)[k] != Total ==>
      LabelWrite(v, firstYear, climate, w, th, j, k) == Some(0.0)
    ensures v == DroughtsFloods && IndicatorsOf(v)[k] == Total && 1 <= j ==>
      LabelWrite(v, firstYear, climate, w, th, j, k) == Some(Sum(WrapSeason(climate, j, w)))
  {
  }

  /**
   * A wrapping label j > 0 not reset by the sentinel holds the season made
   * of days start.. of year j - 1 and days ..end of year j; counts, sums
   * and spells over that season are the part-wise ones combined.
   */
  lemma WrapLabelJoinsYears(v: Variant, firstYear: int, climate: seq<seq<real>>, w: Window, th: Thresholds, j: nat, k: nat)
    requires WellFormed(w) && Wraps(w) && w != Unset && 1 <= j < |climate| && k < |IndicatorsOf(v)|
    requires |climate[j - 1]| == YearLength(firstYear + j - 1) && |climate[j]| == YearLength(firstYear + j)
    requires firstYear + j - 1 != SentinelYear
    requires firstYear + j != SentinelYear || !ZeroedAtSentinel(v, IndicatorsOf(v)[k])
    ensures WrapSeason(climate, j, w) == climate[j - 1][w.start - 1..] + climate[j][..w.end]
    ensures LabelWrite(v, firstYear, climate, w, th, j, k) ==
      Some(IndicatorValue(IndicatorsOf(v)[k], climate[j - 1][w.start - 1..] + climate[j][..w.end], th, TotalDays(w)))
  {
    SelectFrom(climate[j - 1], w.start);
    SelectUpTo(climate[j], w.end);
  }

  /**
   * The leap-day quirk: a wrapping season has one day more than total_days
   * exactly when its first calendar year is a leap year (day 366 is selected,
   * total_days counts 365).
   */
  lemma WrapSeasonLength(firstYear: int, climate: seq<seq<real>>, w: Window, j: nat)
    requires WellFormed(w) && Wraps(w) && w != Unset && 1 <= j < |climate|
    requires |climate[j - 1]| == YearLength(firstYear + j - 1) && |climate[j]| == YearLength(firstYear + j)
    ensures |WrapSeason(climate, j, w)| == TotalDays(w) + (if IsLeapYear(firstYear + j - 1) then 1 else 0)
  {
    SelectFrom(climate[j - 1], w.start);
    SelectUpTo(climate[j], w.end);
  }

  /** After a common year, the frequencies of a wrapping label lie in [0, 1]. */
  lemma WrapFrequencyInUnitRange(v: Variant, firstYear: int, climate: seq<seq<real>>, w: Window, th: Thresholds, j: nat, k: nat)
    requires WellFormed(w) && Wraps(w) && w != Unset && 1 <= j < |climate| && k < |IndicatorsOf(v)|
    requires |climate[j - 1]| == YearLength(firstYear + j - 1) && |climate[j]| == YearLength(firstYear + j)
    requires !IsLeapYear(firstYear + j - 1) && IsFrequency(IndicatorsOf(v)[k])
    ensures LabelWrite(v, firstYear, climate, w, th, j, k).Some? ==>
      0.0 <= LabelWrite(v, firstYear, climate, w, th, j, k).value <= 1.0
  {
    WrapSeasonLength(firstYear, climate, w, j);
    TotalDaysNonZero(w);
    FrequencyInUnitRange(IndicatorsOf(v)[k], WrapSeason(climate, j, w), th, TotalDays(w));
  }

  /**
   * After a leap year a frequency can exceed 1: with the window (366, 1),
   * total_days is 1 but the season has days 366 and 1, both hot.
   */
  lemma LeapYearFrequencyAboveOne()
    ensures var climate := [seq(366, _ => 30.0), seq(365, _ => 30.0)];
            var w := Window(366, 1);
            var th := Thresholds(0.0, 25.0);
            WellFormed(w) && Wraps(w) && IsLeapYear(2016) &&
            LabelWrite(Hot, 2016, climate, w, th, 1, 0) == Some(2.0)
  {
    var climate := [seq(366, _ => 30.0), seq(365, _ => 30.0)];
    var w := Window(366, 1);
    var th := Thresholds(0.0, 25.0);
    SelectFrom(climate[0], 366);
    SelectUpTo(climate[1], 1);
    var days := WrapSeason(climate, 1, w);
    assert days == [30.0, 30.0];
    var m := Mask(days, AtLeast(25.0));
    assert m == [1, 1];
    assert m[..1] == [1];
    assert [1][..0] == [];
    assert CountOnes([1]) == 1;
    assert CountOnes(m) == 2;
  }

  /**
   * The boundary scenario: window (350, 10) over 1981..1990. Label 1982
   * joins days 350.. of 1981 with days ..10 of 1982, and the run fails at
   * 1990, whose next label is past the grid.
   */
  lemma BoundaryScenario(climate: seq<seq<real>>, th: Thresholds)
    requires |climate| == 10
    requires |climate[0]| == YearLength(1981) && |climate[1]| == YearLength(1982)
    ensures LabelWrite(Hot, 1981, climate, Window(350, 10), th, 0, 0) == None
    ensures LabelWrite(Hot, 1981, climate, Window(350, 10), th, 1, 0) ==
      Some(IndicatorValue(HighFreq, climate[0][349..] + climate[1][..10], th, 26))
    ensures |climate[0][349..] + climate[1][..10]| == 26
    ensures WrapFails(1981, 10, Window(350, 10))
  {
    WrapLabelJoinsYears(Hot, 1981, climate, Window(350, 10), th, 1, 0);
  }
}
