/**
 * Growing-season days of one grid cell and the per-season reductions:
 * day-of-year selection of daily values, binary masks against the
 * percentile thresholds, counts, sums and longest spells.
 *
 * A calendar year of daily values is a `seq<real>` whose element k holds
 * day of year k + 1.
 */
module SeasonDays {
  import opened Common
  import opened RunLength

  /** Gregorian leap years, the calendar of the daily time axis. */
  predicate IsLeapYear(y: int)
  {
    (y % 4 == 0 && y % 100 != 0) || y % 400 == 0
  }

  function YearLength(y: int): nat
  {
    if IsLeapYear(y) then 366 else 365
  }

  /** Which days of year a selection keeps. */
  datatype DayMask =
    | Between(first: int, last: int)   // first <= doy && doy <= last
    | From(start: int)                 // doy >= start
    | UpTo(end: int)                   // doy <= end
    | FromOrUpTo(start: int, end: int) // doy >= start || doy <= end

  predicate Keeps(m: DayMask, doy: int)
  {
    match m
    case Between(first, last) => first <= doy && doy <= last
    case From(start) => doy >= start
    case UpTo(end) => doy <= end
    case FromOrUpTo(start, end) => doy >= start || doy <= end
  }

  /** The values of one calendar year on the days `m` keeps, in time order. */
  function Select(year: seq<real>, m: DayMask): (r: seq<real>)
    ensures |r| <= |year|
  {
    if |year| == 0 then []
    else Select(year[..|year| - 1], m) + (if Keeps(m, |year|) then [year[|year| - 1]] else [])
  }

  /**
   * A selection whose kept days are exactly lo..hi is the slice of the year
   * holding those days.
   */
  lemma {:induction false} SelectInterval(year: seq<real>, m: DayMask, lo: int, hi: int)
    requires 1 <= lo <= hi + 1 && hi <= |year|
    requires forall d :: 1 <= d <= |year| ==> (Keeps(m, d) <==> lo <= d <= hi)
    ensures Select(year, m) == year[lo - 1..hi]
  {
    if lo == hi + 1 {
      SelectNone(year, m);
    } else {
      var n := |year|;
      var p := year[..n - 1];
      if hi == n {
        SelectInterval(p, m, lo, n - 1);
        assert p[lo - 1..n - 1] + [year[n - 1]] == year[lo - 1..n];
      } else {
        SelectInterval(p, m, lo, hi);
        assert p[lo - 1..hi] == year[lo - 1..hi];
      }
    }
  }

  /** The in-year season: the days from `first` to `last` that the year has. */
  lemma SelectBetween(year: seq<real>, first: int, last: int)
    requires 1 <= first <= last + 1
    ensures first - 1 <= |year| ==> Select(year, Between(first, last)) == year[first - 1..Min(last, |year|)]
    ensures |Select(year, Between(first, last))| <= last - first + 1
  {
    if first - 1 <= |year| {
      SelectInterval(year, Between(first, last), first, Min(last, |year|));
    } else {
      SelectNone(year, Between(first, last));
    }
  }

  /** The tail of a wrapping season: the days from `start` to the end of the year. */
  lemma SelectFrom(year: seq<real>, start: int)
    requires 1 <= start <= |year| + 1
    ensures Select(year, From(start)) == year[start - 1..]
  {
    SelectInterval(year, From(start), start, |year|);
  }

  /** The head of a wrapping season: the days of the year up to `end`. */
  lemma SelectUpTo(year: seq<real>, end: int)
    requires 0 <= end <= |year|
    ensures Select(year, UpTo(end)) == year[..end]
  {
    SelectInterval(year, UpTo(end), 1, end);
  }

  /** A selection that keeps none of the year's days is empty. */
  lemma {:induction false} SelectNone(year: seq<real>, m: DayMask)
    requires forall d :: 1 <= d <= |year| ==> !Keeps(m, d)
    ensures Select(year, m) == []
  {
    if |year| > 0 {
      SelectNone(year[..|year| - 1], m);
    }
  }

  /**
   * For a wrapping window, the days a calendar year gives to the percentile
   * sample are its head (..end) followed by its tail (start..).
   */
  lemma {:induction false} SelectFromOrUpTo(year: seq<real>, start: int, end: int)
    requires end < start
    ensures Select(year, FromOrUpTo(start, end)) == Select(year, UpTo(end)) + Select(year, From(start))
  {
    if |year| > 0 {
      var n := |year|;
      var p := year[..n - 1];
      SelectFromOrUpTo(p, start, end);
      if n <= end {
        SelectNone(p, From(start));
      }
    }
  }

  /** The pooled sample of a cell: every year's kept days, one year after the other. */
  function Pooled(climate: seq<seq<real>>, m: DayMask): seq<real>
  {
    if |climate| == 0 then []
    else Pooled(climate[..|climate| - 1], m) + Select(climate[|climate| - 1], m)
  }

  // ---------------------------------------------------------------------
  // Masks and reductions
  // ---------------------------------------------------------------------

  /** The comparison a binary mask applies to each selected day. */
  datatype Test =
    | AtLeast(threshold: real) // value >= threshold: wet, rain or hot extreme
    | AtMost(threshold: real)  // value <= threshold: dry extreme
    | Positive                 // value > 0: a day with rain

  predicate Passes(t: Test, x: real)
  {
    match t
    case AtLeast(threshold) => x >= threshold
    case AtMost(threshold) => x <= threshold
    case Positive => x > 0.0
  }

  /** The 0/1 mask of `days` under test t. */
  function Mask(days: seq<real>, t: Test): (r: seq<int>)
    ensures |r| == |days|
    ensures forall i :: 0 <= i < |days| ==> (r[i] == 1 <==> Passes(t, days[i]))
    ensures forall i :: 0 <= i < |days| ==> r[i] == 0 || r[i] == 1
  {
    if |days| == 0 then []
    else Mask(days[..|days| - 1], t) + [if Passes(t, days[|days| - 1]) then 1 else 0]
  }

  /** The number of days passing test t. */
  function Count(days: seq<real>, t: Test): (n: nat)
    ensures n <= |days|
  {
    CountOnes(Mask(days, t))
  }

  /** The sum of the values, as `.sum(dim="time")` gives it. */
  function Sum(days: seq<real>): real
  {
    if |days| == 0 then 0.0 else Sum(days[..|days| - 1]) + days[|days| - 1]
  }

  /** The longest stretch of consecutive days passing test t. */
  function Spell(days: seq<real>, t: Test): nat
  {
    LongestRun(Mask(days, t))
  }

  lemma {:induction false} MaskAppend(a: seq<real>, b: seq<real>, t: Test)
    ensures Mask(a + b, t) == Mask(a, t) + Mask(b, t)
  {
    if |b| == 0 {
      assert a + b == a;
    } else {
      var c := a + b;
      assert c[..|c| - 1] == a + b[..|b| - 1];
      MaskAppend(a, b[..|b| - 1], t);
    }
  }

  lemma {:induction false} CountOnesAppend(a: seq<int>, b: seq<int>)
    ensures CountOnes(a + b) == CountOnes(a) + CountOnes(b)
  {
    if |b| == 0 {
      assert a + b == a;
    } else {
      var c := a + b;
      assert c[..|c| - 1] == a + b[..|b| - 1];
      CountOnesAppend(a, b[..|b| - 1]);
    }
  }

  /** Counting the two parts of a season separately and adding gives the count of the season. */
  lemma CountAppend(a: seq<real>, b: seq<real>, t: Test)
    ensures Count(a + b, t) == Count(a, t) + Count(b, t)
  {
    MaskAppend(a, b, t);
    CountOnesAppend(Mask(a, t), Mask(b, t));
  }

  /** Summing the two parts of a season separately and adding gives the sum of the season. */
  lemma {:induction false} SumAppend(a: seq<real>, b: seq<real>)
    ensures Sum(a + b) == Sum(a) + Sum(b)
  {
    if |b| == 0 {
      assert a + b == a;
    } else {
      var c := a + b;
      assert c[..|c| - 1] == a + b[..|b| - 1];
      SumAppend(a, b[..|b| - 1]);
    }
  }

  /** A spell never exceeds the number of days passing the test. */
  lemma SpellAtMostCount(days: seq<real>, t: Test)
    ensures Spell(days, t) <= Count(days, t)
  {
    LongestRunAtMostOnes(Mask(days, t));
  }

  /**
   * With the dry threshold below the wet one, no day is both dry and wet,
   * so the two counts add up to at most the number of days.
   */
  lemma {:induction false} DisjointCounts(days: seq<real>, low: real, high: real)
    requires low < high
    ensures Count(days, AtMost(low)) + Count(days, AtLeast(high)) <= |days|
  {
    if |days| > 0 {
      var p := days[..|days| - 1];
      DisjointCounts(p, low, high);
      var dry, wet := Mask(days, AtMost(low)), Mask(days, AtLeast(high));
      assert dry[..|dry| - 1] == Mask(p, AtMost(low));
      assert wet[..|wet| - 1] == Mask(p, AtLeast(high));
      assert dry[|dry| - 1] + wet[|wet| - 1] <= 1;
    }
  }
}
