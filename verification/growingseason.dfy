/**
 * The growing-season resolver: turns a grid cell's crop composition
 * (rainfed and irrigated area per crop) and the crop calendars at that cell
 * into one (start day, end day) window in day-of-year space.
 *
 * Two resolvers exist. The single-crop scripts pick a calendar per land-use
 * case and carry the previous row's window over when no case applies. The
 * multi-crop ("aggr") scripts walk the crops with running accumulators in a
 * way that is not a true union of the crops' seasons; it is modelled exactly
 * as written.
 */
module GrowingSeason {
  import opened Common

  /** A day of year as the crop calendars give it. */
  predicate ValidDay(d: int) { 1 <= d <= 366 }

  /** One land-use calendar (irrigated "firr" or rainfed "noirr") at one grid cell. */
  datatype Calendar = Calendar(plantingDay: int, maturityDay: int)

  /** One crop at one grid cell: its areas per land use and its two calendars there. */
  datatype CropArea = CropArea(rainArea: real, irrArea: real, firr: Calendar, noirr: Calendar)

  predicate ValidCalendars(c: CropArea)
  {
    && ValidDay(c.firr.plantingDay) && ValidDay(c.firr.maturityDay)
    && ValidDay(c.noirr.plantingDay) && ValidDay(c.noirr.maturityDay)
  }

  /** A resolved growing-season window; `end < start` means it wraps into the next year. */
  datatype Window = Window(start: int, end: int)

  /**
   * The window before any crop has contributed. The source starts from
   * (+infinity, -infinity); with calendar days in 1..366 the days 367 and 0
   * behave identically under min, max and the day-of-year comparisons.
   */
  const Unset: Window := Window(367, 0)

  predicate WellFormed(w: Window)
  {
    w == Unset || (ValidDay(w.start) && ValidDay(w.end))
  }

  predicate Wraps(w: Window) { w.end < w.start }

  function CalendarWindow(c: Calendar): Window
  {
    Window(c.plantingDay, c.maturityDay)
  }

  /** The earlier start and the later end of two windows. */
  function Widen(a: Window, b: Window): Window
  {
    Window(Min(a.start, b.start), Max(a.end, b.end))
  }

  /** Whether window w starts no later and ends no earlier than calendar c. */
  predicate Covers(w: Window, c: Calendar)
  {
    w.start <= c.plantingDay && c.maturityDay <= w.end
  }

  /** Whether `outer` starts no later and ends no earlier than `inner`. */
  predicate Encloses(outer: Window, inner: Window)
  {
    outer.start <= inner.start && inner.end <= outer.end
  }

  /** The land-use case a crop falls in, tested in the order the scripts test them. */
  datatype LandUse = RainfedOnly | IrrigatedOnly | Mixed | Unmatched

  function Classify(rainArea: real, irrArea: real): LandUse
  {
    if rainArea > 0.0 && irrArea == 0.0 then RainfedOnly
    else if irrArea > 0.0 && rainArea == 0.0 then IrrigatedOnly
    else if rainArea > 0.0 && irrArea > 0.0 then Mixed
    else Unmatched
  }

  /** Areas as the crop tables hold them: never negative, at least one positive. */
  predicate InUse(c: CropArea)
  {
    c.rainArea >= 0.0 && c.irrArea >= 0.0 && (c.rainArea > 0.0 || c.irrArea > 0.0)
  }

  // ---------------------------------------------------------------------
  // Single-crop resolver
  // ---------------------------------------------------------------------

  /**
   * The window of a single-crop row. `previous` is what the window variables
   * hold from earlier rows (None before any row assigned them): when no
   * land-use case applies, nothing is assigned and that value is reused.
   * When the crop is in use, the result is the smallest window covering
   * every calendar whose land use has positive area.
   */
  function ResolveCrop(c: CropArea, previous: Option<Window>): (r: Option<Window>)
    ensures InUse(c) ==> r.Some?
    ensures InUse(c) && c.rainArea > 0.0 ==> Covers(r.value, c.noirr)
    ensures InUse(c) && c.irrArea > 0.0 ==> Covers(r.value, c.firr)
    ensures InUse(c) ==>
      (c.rainArea > 0.0 && r.value.start == c.noirr.plantingDay) ||
      (c.irrArea > 0.0 && r.value.start == c.firr.plantingDay)
    ensures InUse(c) ==>
      (c.rainArea > 0.0 && r.value.end == c.noirr.maturityDay) ||
      (c.irrArea > 0.0 && r.value.end == c.firr.maturityDay)
    ensures c.rainArea <= 0.0 && c.irrArea <= 0.0 ==> r == previous
  {
    match Classify(c.rainArea, c.irrArea)
    case RainfedOnly => Some(CalendarWindow(c.noirr))
    case IrrigatedOnly => Some(CalendarWindow(c.firr))
    case Mixed => Some(Widen(CalendarWindow(c.firr), CalendarWindow(c.noirr)))
    case Unmatched => previous
  }

  /** With both areas positive, which calendar is called irrigated does not matter. */
  lemma MixedIgnoresLabels(c: CropArea, previous: Option<Window>)
    requires c.rainArea > 0.0 && c.irrArea > 0.0
    ensures ResolveCrop(c, previous) == ResolveCrop(c.(firr := c.noirr, noirr := c.firr), previous)
  {
  }

  /** Valid calendars give a well-formed single-crop window. */
  lemma ResolveCropWellFormed(c: CropArea, previous: Option<Window>)
    requires ValidCalendars(c)
    requires previous.Some? ==> WellFormed(previous.value)
    ensures ResolveCrop(c, previous).Some? ==> WellFormed(ResolveCrop(c, previous).value)
  {
  }

  /**
   * Irrigated calendar (100, 200), rainfed calendar (120, 210): rainfed-only
   * area gives (120, 210); both areas give (100, 210).
   */
  lemma ResolveCropScenarios(previous: Option<Window>)
    ensures ResolveCrop(CropArea(5.0, 0.0, Calendar(100, 200), Calendar(120, 210)), previous) == Some(Window(120, 210))
    ensures ResolveCrop(CropArea(5.0, 3.0, Calendar(100, 200), Calendar(120, 210)), previous) == Some(Window(100, 210))
  {
  }

  // ---------------------------------------------------------------------
  // Multi-crop resolver
  // ---------------------------------------------------------------------

  /** A crop with no area in either land use; the multi-crop loop skips it. */
  predicate Absent(c: CropArea)
  {
    c.rainArea == 0.0 && c.irrArea == 0.0
  }

  /**
   * The running variables of the multi-crop loop: `loc` is
   * (start_day_loc, end_day_loc), `crop` is (start_day_crop, end_day_crop).
   */
  datatype Accumulator = Accumulator(loc: Window, crop: Window)

  const Initial: Accumulator := Accumulator(Unset, Unset)

  /**
   * One iteration of the crop loop. A rainfed-only or irrigated-only crop
   * overwrites `loc`; a crop with both areas replaces `crop`; then `loc` is
   * widened by `crop`, which persists from earlier crops.
   */
  function CropStep(acc: Accumulator, c: CropArea): Accumulator
  {
    if Absent(c) then acc
    else
      var afterCase := AssignCase(acc, c);
      afterCase.(loc := Widen(afterCase.loc, afterCase.crop))
  }

  /** The if/elif chain of one iteration, before the final widening. */
  function AssignCase(acc: Accumulator, c: CropArea): Accumulator
  {
    match Classify(c.rainArea, c.irrArea)
    case RainfedOnly => acc.(loc := CalendarWindow(c.noirr))
    case IrrigatedOnly => acc.(loc := CalendarWindow(c.firr))
    case Mixed => acc.(crop := Widen(CalendarWindow(c.firr), CalendarWindow(c.noirr)))
    case Unmatched => acc
  }

  /** The running variables after the loop has visited every crop of `crops`, in order. */
  function Accumulate(crops: seq<CropArea>): Accumulator
  {
    if |crops| == 0 then Initial
    else CropStep(Accumulate(crops[..|crops| - 1]), crops[|crops| - 1])
  }

  /** The window the multi-crop scripts use for a row. */
  function AggregateWindow(crops: seq<CropArea>): Window
  {
    Accumulate(crops).loc
  }

  /** The crops the loop does not skip, in order. */
  function Present(crops: seq<CropArea>): (r: seq<CropArea>)
    ensures |r| <= |crops|
    ensures forall i :: 0 <= i < |r| ==> !Absent(r[i])
    ensures forall c :: c in crops && !Absent(c) ==> c in r
  {
    if |crops| == 0 then []
    else
      var last := crops[|crops| - 1];
      assert forall c :: c in crops ==> c in crops[..|crops| - 1] || c == last;
      Present(crops[..|crops| - 1]) + (if Absent(last) then [] else [last])
  }

  /**
   * The multi-crop loop with its four running variables, as the scripts
   * run it for one row.
   */
  method ResolveAllCrops(crops: seq<CropArea>) returns (w: Window)
    ensures w == AggregateWindow(crops)
  {
    var startDayLoc, endDayLoc := Unset.start, Unset.end;
    var startDayCrop, endDayCrop := Unset.start, Unset.end;
    for i := 0 to |crops|
      invariant Accumulator(Window(startDayLoc, endDayLoc), Window(startDayCrop, endDayCrop))
                == Accumulate(crops[..i])
    {
      assert crops[..i + 1][..i] == crops[..i];
      var c := crops[i];
      if c.rainArea == 0.0 && c.irrArea == 0.0 {
        continue;
      }
      if c.rainArea > 0.0 && c.irrArea == 0.0 {
        startDayLoc, endDayLoc := c.noirr.plantingDay, c.noirr.maturityDay;
      } else if c.irrArea > 0.0 && c.rainArea == 0.0 {
        startDayLoc, endDayLoc := c.firr.plantingDay, c.firr.maturityDay;
      } else if c.rainArea > 0.0 && c.irrArea > 0.0 {
        var firrStart, firrEnd := c.firr.plantingDay, c.firr.maturityDay;
        var noirrStart, noirrEnd := c.noirr.plantingDay, c.noirr.maturityDay;
        startDayCrop := Min(firrStart, noirrStart);
        endDayCrop := Max(firrEnd, noirrEnd);
      }
      startDayLoc := Min(startDayLoc, startDayCrop);
      endDayLoc := Max(endDayLoc, endDayCrop);
    }
    assert crops[..|crops|] == crops;
    w := Window(startDayLoc, endDayLoc);
  }

  /** Valid calendars keep both running windows well formed. */
  lemma {:induction false} AccumulateWellFormed(crops: seq<CropArea>)
    requires forall i :: 0 <= i < |crops| ==> ValidCalendars(crops[i])
    ensures WellFormed(Accumulate(crops).loc) && WellFormed(Accumulate(crops).crop)
  {
    if |crops| > 0 {
      AccumulateWellFormed(crops[..|crops| - 1]);
    }
  }

  /** The resolved window always encloses the latest both-area crop window. */
  lemma {:induction false} AggregateEnclosesLatestMixed(crops: seq<CropArea>)
    ensures Encloses(Accumulate(crops).loc, Accumulate(crops).crop)
  {
    if |crops| > 0 {
      AggregateEnclosesLatestMixed(crops[..|crops| - 1]);
    }
  }

  /** Skipped crops change no running variable: only the present crops matter. */
  lemma {:induction false} AggregateSkipsAbsentCrops(crops: seq<CropArea>)
    ensures Accumulate(crops) == Accumulate(Present(crops))
  {
    if |crops| > 0 {
      var p := crops[..|crops| - 1];
      var last := crops[|crops| - 1];
      AggregateSkipsAbsentCrops(p);
      if Absent(last) {
        assert Present(crops) == Present(p);
      } else {
        var q := Present(p) + [last];
        assert Present(crops) == q;
        assert q[..|q| - 1] == Present(p);
        assert Accumulate(q) == CropStep(Accumulate(Present(p)), last);
      }
    }
  }

  /** Absent crops at the end of the list leave the running variables as they were. */
  lemma {:induction false} AbsentSuffixChangesNothing(pre: seq<CropArea>, post: seq<CropArea>)
    requires forall i :: 0 <= i < |post| ==> Absent(post[i])
    ensures Accumulate(pre + post) == Accumulate(pre)
  {
    if |post| == 0 {
      assert pre + post == pre;
    } else {
      var shorter := post[..|post| - 1];
      var all := pre + post;
      assert all[..|all| - 1] == pre + shorter;
      assert all[|all| - 1] == post[|post| - 1];
      AbsentSuffixChangesNothing(pre, shorter);
      assert Accumulate(all) == CropStep(Accumulate(pre + shorter), post[|post| - 1]);
    }
  }

  /**
   * The overwrite quirk: when the last present crop has a single land use,
   * everything before it is forgotten except the latest both-area window.
   */
  lemma AggregateLastSingleOverwrites(pre: seq<CropArea>, c: CropArea, post: seq<CropArea>)
    requires Classify(c.rainArea, c.irrArea) == RainfedOnly || Classify(c.rainArea, c.irrArea) == IrrigatedOnly
    requires forall i :: 0 <= i < |post| ==> Absent(post[i])
    ensures AggregateWindow(pre + [c] + post) ==
      Widen(CalendarWindow(if c.irrArea == 0.0 then c.noirr else c.firr), Accumulate(pre).crop)
  {
    AbsentSuffixChangesNothing(pre + [c], post);
    assert (pre + [c])[..|pre|] == pre;
  }

  /**
   * When every present crop has both land uses, the window is the true union:
   * it covers every calendar of every present crop, and its start and end are
   * a planting day and a maturity day of present crops. With no present crop
   * it stays at the initial values.
   */
  lemma {:induction false} AggregateAllMixedIsUnion(crops: seq<CropArea>)
    requires forall i :: 0 <= i < |crops| ==> ValidCalendars(crops[i])
    requires forall i :: 0 <= i < |crops| ==>
      Absent(crops[i]) || (crops[i].rainArea > 0.0 && crops[i].irrArea > 0.0)
    ensures (forall i :: 0 <= i < |crops| ==> Absent(crops[i])) ==> AggregateWindow(crops) == Unset
    ensures forall i :: 0 <= i < |crops| && !Absent(crops[i]) ==>
      Covers(AggregateWindow(crops), crops[i].firr) && Covers(AggregateWindow(crops), crops[i].noirr)
    ensures (exists i :: 0 <= i < |crops| && !Absent(crops[i])) ==>
      exists i :: 0 <= i < |crops| && !Absent(crops[i]) &&
        (AggregateWindow(crops).start == crops[i].firr.plantingDay ||
         AggregateWindow(crops).start == crops[i].noirr.plantingDay)
    ensures (exists i :: 0 <= i < |crops| && !Absent(crops[i])) ==>
      exists i :: 0 <= i < |crops| && !Absent(crops[i]) &&
        (AggregateWindow(crops).end == crops[i].firr.maturityDay ||
         AggregateWindow(crops).end == crops[i].noirr.maturityDay)
  {
    if |crops| > 0 {
      var n := |crops| - 1;
      var p := crops[..n];
      var last := crops[n];
      AggregateAllMixedIsUnion(p);
      AccumulateWellFormed(p);
      assert forall i :: 0 <= i < n ==> crops[i] == p[i];
      if Absent(last) {
        assert AggregateWindow(crops) == AggregateWindow(p);
      } else {
        var w := AggregateWindow(crops);
        assert w == Widen(AggregateWindow(p), Widen(CalendarWindow(last.firr), CalendarWindow(last.noirr)));
        if forall i :: 0 <= i < n ==> Absent(p[i]) {
          assert AggregateWindow(p) == Unset;
        }
        forall i | 0 <= i < |crops| && !Absent(crops[i])
          ensures Covers(w, crops[i].firr) && Covers(w, crops[i].noirr)
        {
          if i < n { assert crops[i] == p[i]; }
        }
      }
    }
  }

  /** Two rainfed-only crops: the second overwrites the first, whose season is lost. */
  lemma AggregateIsNotUnion()
    ensures var first := CropArea(1.0, 0.0, Calendar(90, 180), Calendar(100, 200));
            var second := CropArea(2.0, 0.0, Calendar(240, 290), Calendar(250, 300));
            AggregateWindow([first, second]) == Window(250, 300) &&
            !Covers(AggregateWindow([first, second]), first.noirr)
  {
    var first := CropArea(1.0, 0.0, Calendar(90, 180), Calendar(100, 200));
    var second := CropArea(2.0, 0.0, Calendar(240, 290), Calendar(250, 300));
    var crops := [first, second];
    assert crops[..1] == [first];
    assert [first][..0] == [];
    assert Accumulate([first]) == Accumulator(Window(100, 200), Unset);
    assert Accumulate(crops) == CropStep(Accumulate([first]), second);
  }
}
