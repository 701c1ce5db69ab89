/**
  The decay estimator: for each satellite, the registry of confirmed decays is consulted
  first; otherwise the orbit is propagated at `now`, scanned backwards for a recent
  re-entry and, for low orbits, forwards for a predicted one. The propagator
  (satellite.js's `propagate`, `gstime` and `eciToGeodetic`) is a parameter: it maps an
  element set and an instant to the geodetic height in km, or to `None` when it throws,
  yields no position or yields a non-finite height.
*/
module DecayEstimator {
  import opened Wrappers
  import opened Text
  import Calendar
  import TimelineMath
  import opened DecayRegistry

  const MS_PER_MIN: int := 60 * 1000

  /** The day length the source writes, `24 * MS_PER_MIN`: 24 minutes. */
  const MS_PER_DAY_AS_WRITTEN: int := 24 * MS_PER_MIN

  /** The day length the estimator is evidently meant to use: 24 hours. */
  const MS_PER_DAY: int := 24 * 60 * MS_PER_MIN

  /** The tuning options after `{ ...DEFAULTS, ...options }`. */
  datatype Options = Options(
    reentryAltitudeKm: real,
    coarseAltitudeKm: real,
    backtrackDays: int,
    predictionHorizonDays: int,
    stepMinutes: int,
    backtrackStepMinutes: int)

  const DEFAULTS: Options := Options(120.0, 2000.0, 60, 180, 30, 120)

  /** The caller's options: a key that is present replaces the default. */
  datatype Overrides = Overrides(
    reentryAltitudeKm: Option<real>,
    coarseAltitudeKm: Option<real>,
    backtrackDays: Option<int>,
    predictionHorizonDays: Option<int>,
    stepMinutes: Option<int>,
    backtrackStepMinutes: Option<int>,
    now: Option<int>,
    confirmedDecays: Option<map<string, DecayRecord>>)

  /** A propagator's element set, and the B* drag term the confidence score reads. */
  datatype Satrec = Satrec(elements: seq<real>, bstar: real)

  /** Height in km at an instant in ms, or `None` when propagation gives no usable state. */
  type Propagator = (Satrec, int) -> Option<real>

  datatype CrossReason = PropagationFailed | DroppedBelow(thresholdKm: real) | CrossedThreshold(thresholdKm: real)

  datatype Crossing = Crossing(date: int, reason: CrossReason)

  datatype Status = Confirmed | Predicted | Unknown

  /** The `decay_reason` texts, by the values they are built from. */
  datatype Reason =
    | FromRegistry
    | MissingSatrec
    | PropagationInvalidNow
    | Crossed(crossing: CrossReason)
    | CurrentBelow(altitudeKm: real, thresholdKm: real)
    | AboveCoarseLimit(altitudeKm: real)
    | StaysAboveThreshold

  /** A `decay_date`: the registry's `YYYY-MM-DD` text or an instant shown by `toISOString`. */
  datatype DecayDate = IsoDay(text: string) | Instant(ms: int)

  datatype Window = Window(start: int, end: int, confidence: real)

  /** The `sat.decay` object. */
  datatype DecayInfo = DecayInfo(status: Status, reason: Reason, decayDate: Option<DecayDate>, window: Option<Window>)

  /** `{ ...DEFAULTS, ...options }`: with no tuning option given, every default stays. */
  function Effective(o: Overrides): (opts: Options)
    ensures o == Overrides(None, None, None, None, None, None, o.now, o.confirmedDecays) ==> opts == DEFAULTS
  {
    Options(
      o.reentryAltitudeKm.GetOr(DEFAULTS.reentryAltitudeKm),
      o.coarseAltitudeKm.GetOr(DEFAULTS.coarseAltitudeKm),
      o.backtrackDays.GetOr(DEFAULTS.backtrackDays),
      o.predictionHorizonDays.GetOr(DEFAULTS.predictionHorizonDays),
      o.stepMinutes.GetOr(DEFAULTS.stepMinutes),
      o.backtrackStepMinutes.GetOr(DEFAULTS.backtrackStepMinutes))
  }

  /** `options.now ? new Date(options.now) : new Date()`: a zero `now` is falsy and reads the clock. */
  function NowOf(o: Overrides, clock: int): (now: int)
    ensures now == clock || (o.now == Some(now) && now != 0)
    ensures o.now.None? ==> now == clock
  {
    if o.now.Some? && o.now.value != 0 then o.now.value else clock
  }

  // ---------------------------------------------------------------------------
  // Day lengths

  /**
    The length of a "day" in the estimator's arithmetic: the source's constant is
    24 minutes (`AsWritten`); the windows its documentation describes, 60 days back and
    180 days ahead, call for 24 hours (`Intended`). Every decision below is stated for
    both.
  */
  datatype DayLength = AsWritten | Intended

  function DayMs(day: DayLength): (ms: int)
    ensures ms > 0 && ms % 2 == 0
  {
    match day
    case AsWritten => MS_PER_DAY_AS_WRITTEN
    case Intended => MS_PER_DAY
  }

  /** The span of `days` days. */
  function SearchSpan(day: DayLength, days: int): int {
    days * DayMs(day)
  }

  /**
    As written, a "day" is 24 minutes: the 60-day backward window spans one calendar
    day and the 180-day horizon three.
  */
  lemma AsWrittenDayIsMinutes(days: int)
    ensures SearchSpan(AsWritten, days) * 60 == days * Calendar.MS_PER_DAY
    ensures SearchSpan(AsWritten, DEFAULTS.backtrackDays) == Calendar.MS_PER_DAY
    ensures SearchSpan(AsWritten, DEFAULTS.predictionHorizonDays) == 3 * Calendar.MS_PER_DAY
  {
  }

  // ---------------------------------------------------------------------------
  // findCrossing

  /** The `k`-th sample time of a scan. */
  function Sample(start: int, stepMs: int, k: nat): int {
    start + k * stepMs
  }

  /** A sample that lets the scan go on: propagation worked and the height is above the threshold. */
  predicate Above(h: Option<real>, thresholdKm: real) {
    h.Some? && h.value > thresholdKm
  }

  /**
    The samples from `t` on, as `findCrossing` visits them, with `last` the height at
    the previous sample: stop at the first failing propagation or height at or below
    the threshold; the third test of the source comes after the second and cannot fire.
  */
  function Scan(prop: Propagator, satrec: Satrec, t: int, end: int, stepMs: int, thresholdKm: real, last: Option<real>): (r: Option<Crossing>)
    requires stepMs > 0
    ensures r.Some? ==> t <= r.value.date <= end && !r.value.reason.CrossedThreshold?
    decreases end - t
  {
    if t > end then None
    else match prop(satrec, t)
      case None => Some(Crossing(t, PropagationFailed))
      case Some(h) =>
        if h <= thresholdKm then Some(Crossing(t, DroppedBelow(thresholdKm)))
        else if last.Some? && last.value > thresholdKm && h <= thresholdKm then Some(Crossing(t, CrossedThreshold(thresholdKm)))
        else Scan(prop, satrec, t + stepMs, end, stepMs, thresholdKm, Some(h))
  }

  function FirstCrossing(prop: Propagator, satrec: Satrec, start: int, end: int, stepMs: int, thresholdKm: real): (r: Option<Crossing>)
    requires stepMs > 0
    ensures r.Some? ==> start <= r.value.date <= end && !r.value.reason.CrossedThreshold?
  {
    Scan(prop, satrec, start, end, stepMs, thresholdKm, None)
  }

  lemma SampleNext(t: int, stepMs: int, k: nat)
    ensures Sample(t + stepMs, stepMs, k) == Sample(t, stepMs, k + 1)
  {
    assert (k + 1) * stepMs == k * stepMs + stepMs;
  }

  lemma SampleFrom(t: int, stepMs: int, k: nat)
    requires stepMs > 0
    ensures Sample(t, stepMs, k) >= t
    ensures k > 0 ==> Sample(t, stepMs, k) >= t + stepMs
  {
    if k > 0 {
      assert k * stepMs >= stepMs;
    }
  }

  /** The scan finds nothing exactly when every sample up to `end` is above the threshold. */
  lemma {:induction false} ScanNoneIff(prop: Propagator, satrec: Satrec, t: int, end: int, stepMs: int, thresholdKm: real, last: Option<real>)
    requires stepMs > 0
    ensures Scan(prop, satrec, t, end, stepMs, thresholdKm, last).None?
        <==> forall k: nat :: Sample(t, stepMs, k) <= end ==> Above(prop(satrec, Sample(t, stepMs, k)), thresholdKm)
    decreases end - t
  {
    var all := forall k: nat :: Sample(t, stepMs, k) <= end ==> Above(prop(satrec, Sample(t, stepMs, k)), thresholdKm);
    if t > end {
      forall k: nat ensures Sample(t, stepMs, k) > end {
        SampleFrom(t, stepMs, k);
      }
    } else {
      var h := prop(satrec, t);
      var next := t + stepMs;
      assert Sample(t, stepMs, 0) == t;
      if Above(h, thresholdKm) {
        var rest := forall k: nat :: Sample(next, stepMs, k) <= end ==> Above(prop(satrec, Sample(next, stepMs, k)), thresholdKm);
        ScanNoneIff(prop, satrec, next, end, stepMs, thresholdKm, h);
        if rest {
          forall k: nat | Sample(t, stepMs, k) <= end
            ensures Above(prop(satrec, Sample(t, stepMs, k)), thresholdKm)
          {
            if k > 0 {
              SampleNext(t, stepMs, k - 1);
            }
          }
        }
        if all {
          forall k: nat | Sample(next, stepMs, k) <= end
            ensures Above(prop(satrec, Sample(next, stepMs, k)), thresholdKm)
          {
            SampleNext(t, stepMs, k);
          }
        }
      }
    }
  }

  /**
    A crossing the scan reports is the first sample up to `end` that is not above the
    threshold; its reason says whether propagation failed there or the height was at or
    below the threshold, never the third reason.
  */
  lemma {:induction false} ScanFirstHit(prop: Propagator, satrec: Satrec, t: int, end: int, stepMs: int, thresholdKm: real, last: Option<real>)
    requires stepMs > 0
    requires Scan(prop, satrec, t, end, stepMs, thresholdKm, last).Some?
    ensures var c := Scan(prop, satrec, t, end, stepMs, thresholdKm, last).value;
      t <= c.date <= end
      && !Above(prop(satrec, c.date), thresholdKm)
      && c.reason == (if prop(satrec, c.date).None? then PropagationFailed else DroppedBelow(thresholdKm))
      && exists k: nat :: c.date == Sample(t, stepMs, k)
           && forall j: nat :: j < k ==> Above(prop(satrec, Sample(t, stepMs, j)), thresholdKm)
    decreases end - t
  {
    var c := Scan(prop, satrec, t, end, stepMs, thresholdKm, last).value;
    var h := prop(satrec, t);
    var next := t + stepMs;
    if Above(h, thresholdKm) {
      ScanFirstHit(prop, satrec, next, end, stepMs, thresholdKm, h);
      var k: nat :| c.date == Sample(next, stepMs, k)
           && forall j: nat :: j < k ==> Above(prop(satrec, Sample(next, stepMs, j)), thresholdKm);
      SampleNext(t, stepMs, k);
      forall j: nat | j < k + 1
        ensures Above(prop(satrec, Sample(t, stepMs, j)), thresholdKm)
      {
        if j > 0 {
          SampleNext(t, stepMs, j - 1);
        }
      }
    } else {
      assert c.date == Sample(t, stepMs, 0);
    }
  }

  /** A scan started at a sample above the threshold can only report a later sample. */
  lemma ScanPastStart(prop: Propagator, satrec: Satrec, t: int, end: int, stepMs: int, thresholdKm: real)
    requires stepMs > 0
    requires Above(prop(satrec, t), thresholdKm)
    requires FirstCrossing(prop, satrec, t, end, stepMs, thresholdKm).Some?
    ensures t + stepMs <= FirstCrossing(prop, satrec, t, end, stepMs, thresholdKm).value.date <= end
  {
    var h := prop(satrec, t);
    ScanFirstHit(prop, satrec, t + stepMs, end, stepMs, thresholdKm, h);
  }

  /** The scan reads the propagator only at instants from `t` to `end`. */
  lemma {:induction false} ScanAgree(p1: Propagator, p2: Propagator, satrec: Satrec, t: int, end: int, stepMs: int, thresholdKm: real, last: Option<real>)
    requires stepMs > 0
    requires forall s :: t <= s <= end ==> p1(satrec, s) == p2(satrec, s)
    ensures Scan(p1, satrec, t, end, stepMs, thresholdKm, last) == Scan(p2, satrec, t, end, stepMs, thresholdKm, last)
    decreases end - t
  {
    if t <= end {
      ScanAgree(p1, p2, satrec, t + stepMs, end, stepMs, thresholdKm, p1(satrec, t));
    }
  }

  /**
    `findCrossing`: sample from `start` to `end` inclusive every `stepMinutes` minutes and
    report the first sample where propagation fails or the height is at or below the
    threshold.
  */
  method FindCrossing(prop: Propagator, satrec: Satrec, start: int, end: int, stepMinutes: int, thresholdKm: real)
    returns (r: Option<Crossing>)
    requires stepMinutes > 0
    ensures r == FirstCrossing(prop, satrec, start, end, stepMinutes * MS_PER_MIN, thresholdKm)
  {
    var stepMs := stepMinutes * MS_PER_MIN;
    var last: Option<real> := None;
    var t := start;
    while t <= end
      invariant Scan(prop, satrec, t, end, stepMs, thresholdKm, last) == FirstCrossing(prop, satrec, start, end, stepMs, thresholdKm)
      decreases end - t
    {
      var state := prop(satrec, t);
      if state.None? {
        return Some(Crossing(t, PropagationFailed));
      }
      if state.value <= thresholdKm {
        return Some(Crossing(t, DroppedBelow(thresholdKm)));
      }
      // The source's third test (the previous sample above, this one at or below) is
      // implied by the test just made and is left out here.
      last := state;
      t := t + stepMs;
    }
    return None;
  }

  // ---------------------------------------------------------------------------
  // confidenceForWindow

  function Min(a: real, b: real): real { if a <= b then a else b }
  function Max(a: real, b: real): real { if a >= b then a else b }

  /** `confidenceForWindow`: a base of 0.35 plus a drag bonus up to 0.3, plus up to 0.5 for proximity. */
  function ConfidenceForWindow(day: DayLength, crossDate: int, now: int, bstar: real, horizonDays: int): (c: real)
    requires horizonDays > 0
    ensures 0.35 <= c <= 1.0
  {
    var daysUntil := (crossDate - now) as real / DayMs(day) as real;
    var proximity := Max(0.0, Min(1.0, (horizonDays as real - daysUntil) / horizonDays as real));
    var dragBonus := Min(0.3, TimelineMath.Abs(bstar) * 100000.0);
    var base := 0.35 + dragBonus;
    Max(0.1, Min(1.0, base + proximity * 0.5))
  }

  /** A sooner crossing never scores lower, the drag term held fixed. */
  lemma ConfidenceSoonerNotLower(day: DayLength, c1: int, c2: int, now: int, bstar: real, horizonDays: int)
    requires horizonDays > 0 && c1 <= c2
    ensures ConfidenceForWindow(day, c1, now, bstar, horizonDays) >= ConfidenceForWindow(day, c2, now, bstar, horizonDays)
  {
    var H := horizonDays as real;
    var d1 := (c1 - now) as real / DayMs(day) as real;
    var d2 := (c2 - now) as real / DayMs(day) as real;
    DivMonotone((c1 - now) as real, (c2 - now) as real, DayMs(day) as real);
    DivMonotone(H - d2, H - d1, H);
  }

  lemma DivMonotone(a: real, b: real, d: real)
    requires d > 0.0 && a <= b
    ensures a / d <= b / d
  {
    assert b / d - a / d == (b - a) / d;
  }

  /** A larger drag term never scores lower, the crossing held fixed. */
  lemma ConfidenceDragNotLower(day: DayLength, crossDate: int, now: int, b1: real, b2: real, horizonDays: int)
    requires horizonDays > 0 && TimelineMath.Abs(b1) <= TimelineMath.Abs(b2)
    ensures ConfidenceForWindow(day, crossDate, now, b1, horizonDays) <= ConfidenceForWindow(day, crossDate, now, b2, horizonDays)
  {
  }

  /** A crossing right now with no drag scores 0.85; one at the horizon's end 0.35. */
  lemma ConfidenceEndpoints(day: DayLength, now: int, horizonDays: int)
    requires horizonDays > 0
    ensures ConfidenceForWindow(day, now, now, 0.0, horizonDays) == 0.85
    ensures ConfidenceForWindow(day, now + SearchSpan(day, horizonDays), now, 0.0, horizonDays) == 0.35
  {
    var H := horizonDays as real;
    assert (now + SearchSpan(day, horizonDays) - now) as real / DayMs(day) as real == H;
  }

  // ---------------------------------------------------------------------------
  // The per-satellite decision

  /** `String(sat.norad_id).trim()`, or `None` when the id is absent. */
  function SatNoradId(v: Value): (id: Option<string>)
    ensures id.None? <==> v.Null?
    ensures id.Some? ==> TrimJs(id.value) == id.value
  {
    if v.Null? then None
    else
      TrimIdempotent(ToJsString(v));
      Some(TrimJs(ToJsString(v)))
  }

  /** `Math.max(1, Math.min(10, Math.ceil(stepMinutes / 60)))`. */
  function PadDays(stepMinutes: int): (p: int)
    ensures 1 <= p <= 10
    ensures stepMinutes > 0 ==> (p - 1) * 60 < stepMinutes || p == 1
    ensures stepMinutes > 0 ==> stepMinutes <= p * 60 || p == 10
  {
    var ceil := (stepMinutes + 59) / 60;
    if ceil < 1 then 1 else if ceil > 10 then 10 else ceil
  }

  predicate StepsPositive(opts: Options) {
    opts.stepMinutes > 0 && opts.backtrackStepMinutes > 0
  }

  /**
    The shape every `sat.decay` has: a decay date exactly when CONFIRMED, a window
    exactly when PREDICTED, and a predicted window that is non-empty with a confidence
    between 0.35 and 1.
  */
  predicate WellFormed(d: DecayInfo) {
    (d.status == Confirmed <==> d.decayDate.Some?)
    && (d.status == Predicted <==> d.window.Some?)
    && (d.window.Some? ==> d.window.value.start < d.window.value.end
                           && 0.35 <= d.window.value.confidence <= 1.0)
  }

  /** The decision `computeDecayEstimates` takes for one satellite. */
  function Classify(day: DayLength, noradId: Value, satrec: Option<Satrec>, prop: Propagator, opts: Options,
                    registry: Option<map<string, DecayRecord>>, now: int): (d: DecayInfo)
    requires StepsPositive(opts)
    ensures WellFormed(d)
  {
    var id := SatNoradId(noradId);
    if registry.Some? && id.Some? && id.value != "" && id.value in registry.value then
      DecayInfo(Confirmed, FromRegistry, Some(IsoDay(registry.value[id.value].decayDateIso)), None)
    else if satrec.None? then
      DecayInfo(Unknown, MissingSatrec, None, None)
    else
      Assess(day, prop, satrec.value, opts, now)
  }

  /** The decision for a satellite that has an element set and no registry entry. */
  function Assess(day: DayLength, prop: Propagator, sr: Satrec, opts: Options, now: int): (d: DecayInfo)
    requires StepsPositive(opts)
    ensures WellFormed(d)
  {
    var thr := opts.reentryAltitudeKm;
    match prop(sr, now)
    case None => DecayInfo(Confirmed, PropagationInvalidNow, Some(Instant(now)), None)
    case Some(h) =>
      var past := FirstCrossing(prop, sr, now - SearchSpan(day, opts.backtrackDays), now,
                                opts.backtrackStepMinutes * MS_PER_MIN, thr);
      if past.Some? then
        DecayInfo(Confirmed, Crossed(past.value.reason), Some(Instant(past.value.date)), None)
      else if h <= thr then
        DecayInfo(Confirmed, CurrentBelow(h, thr), Some(Instant(now)), None)
      else if h > opts.coarseAltitudeKm then
        DecayInfo(Unknown, AboveCoarseLimit(h), None, None)
      else
        Forecast(day, prop, sr, opts, now)
  }

  /** The forward search, for an orbit above the threshold and under the coarse limit now. */
  function Forecast(day: DayLength, prop: Propagator, sr: Satrec, opts: Options, now: int): (d: DecayInfo)
    requires StepsPositive(opts) && Above(prop(sr, now), opts.reentryAltitudeKm)
    ensures WellFormed(d) && d.status != Confirmed
  {
    var end := now + SearchSpan(day, opts.predictionHorizonDays);
    var stepMs := opts.stepMinutes * MS_PER_MIN;
    var future := FirstCrossing(prop, sr, now, end, stepMs, opts.reentryAltitudeKm);
    if future.Some? then
      var c := future.value.date;
      ScanPastStart(prop, sr, now, end, stepMs, opts.reentryAltitudeKm);
      var half := PadDays(opts.stepMinutes) * (DayMs(day) / 2);
      DecayInfo(Predicted, Crossed(future.value.reason), None,
                Some(Window(c - half, c + half, ConfidenceForWindow(day, c, now, sr.bstar, opts.predictionHorizonDays))))
    else
      DecayInfo(Unknown, StaysAboveThreshold, None, None)
  }

  /** A registry entry for the trimmed id decides, whatever the orbit says. */
  lemma RegistryPrecedence(day: DayLength, noradId: Value, satrec: Option<Satrec>, prop: Propagator, opts: Options,
                           registry: map<string, DecayRecord>, now: int)
    requires StepsPositive(opts)
    requires noradId != Null && TrimJs(ToJsString(noradId)) in registry
    ensures var id := TrimJs(ToJsString(noradId));
      id != "" ==>
        Classify(day, noradId, satrec, prop, opts, Some(registry), now)
        == DecayInfo(Confirmed, FromRegistry, Some(IsoDay(registry[id].decayDateIso)), None)
  {
  }

  /**
    A confirmed instant lies at or before `now`; a confirmed crossing lies inside the
    backward window, at a sample that is not above the threshold, and is never of the
    third kind.
  */
  lemma ConfirmedInstant(day: DayLength, prop: Propagator, sr: Satrec, opts: Options, now: int)
    requires StepsPositive(opts)
    ensures var d := Assess(day, prop, sr, opts, now);
      d.status == Confirmed ==>
        d.decayDate.value.ms <= now
        && (d.reason.Crossed? ==>
              now - SearchSpan(day, opts.backtrackDays) <= d.decayDate.value.ms
              && !Above(prop(sr, d.decayDate.value.ms), opts.reentryAltitudeKm)
              && !d.reason.crossing.CrossedThreshold?)
  {
    var start := now - SearchSpan(day, opts.backtrackDays);
    var stepMs := opts.backtrackStepMinutes * MS_PER_MIN;
    var past := FirstCrossing(prop, sr, start, now, stepMs, opts.reentryAltitudeKm);
    if prop(sr, now).Some? && past.Some? {
      ScanFirstHit(prop, sr, start, now, stepMs, opts.reentryAltitudeKm, None);
    }
  }

  /**
    A predicted window is centred on a forward sample after `now` and within the horizon
    at which the orbit is no longer above the threshold; it is `PadDays` days wide.
  */
  lemma PredictedWindow(day: DayLength, prop: Propagator, sr: Satrec, opts: Options, now: int)
    requires StepsPositive(opts) && Above(prop(sr, now), opts.reentryAltitudeKm)
    ensures var d := Forecast(day, prop, sr, opts, now);
      d.status == Predicted ==>
        var w := d.window.value;
        var c := (w.start + w.end) / 2;
        w.end - w.start == PadDays(opts.stepMinutes) * DayMs(day)
        && now < c <= now + SearchSpan(day, opts.predictionHorizonDays)
        && !Above(prop(sr, c), opts.reentryAltitudeKm)
        && !d.reason.crossing.CrossedThreshold?
        && w.confidence == ConfidenceForWindow(day, c, now, sr.bstar, opts.predictionHorizonDays)
  {
    var end := now + SearchSpan(day, opts.predictionHorizonDays);
    var stepMs := opts.stepMinutes * MS_PER_MIN;
    var future := FirstCrossing(prop, sr, now, end, stepMs, opts.reentryAltitudeKm);
    if future.Some? {
      ForwardCrossing(prop, sr, now, end, stepMs, opts.reentryAltitudeKm);
      assert opts.predictionHorizonDays > 0;
      ForecastWindow(day, prop, sr, opts, now);
    }
  }

  /** The forward crossing lies after the start, within the end, at a sample not above the threshold. */
  lemma ForwardCrossing(prop: Propagator, sr: Satrec, now: int, end: int, stepMs: int, thresholdKm: real)
    requires stepMs > 0 && Above(prop(sr, now), thresholdKm)
    requires FirstCrossing(prop, sr, now, end, stepMs, thresholdKm).Some?
    ensures var c := FirstCrossing(prop, sr, now, end, stepMs, thresholdKm).value;
      now < c.date <= end && !Above(prop(sr, c.date), thresholdKm) && !c.reason.CrossedThreshold?
  {
    ScanFirstHit(prop, sr, now, end, stepMs, thresholdKm, None);
    ScanPastStart(prop, sr, now, end, stepMs, thresholdKm);
  }

  /** A forecast window is `PadDays` days wide and centred on the forward crossing. */
  lemma ForecastWindow(day: DayLength, prop: Propagator, sr: Satrec, opts: Options, now: int)
    requires StepsPositive(opts) && opts.predictionHorizonDays > 0 && Above(prop(sr, now), opts.reentryAltitudeKm)
    requires FirstCrossing(prop, sr, now, now + SearchSpan(day, opts.predictionHorizonDays),
                           opts.stepMinutes * MS_PER_MIN, opts.reentryAltitudeKm).Some?
    ensures var c := FirstCrossing(prop, sr, now, now + SearchSpan(day, opts.predictionHorizonDays),
                                   opts.stepMinutes * MS_PER_MIN, opts.reentryAltitudeKm).value;
      var d := Forecast(day, prop, sr, opts, now);
      d.status == Predicted && d.reason == Crossed(c.reason)
      && d.window.value.end - d.window.value.start == PadDays(opts.stepMinutes) * DayMs(day)
      && (d.window.value.start + d.window.value.end) / 2 == c.date
      && d.window.value.confidence == ConfidenceForWindow(day, c.date, now, sr.bstar, opts.predictionHorizonDays)
  {
    var c := FirstCrossing(prop, sr, now, now + SearchSpan(day, opts.predictionHorizonDays),
                           opts.stepMinutes * MS_PER_MIN, opts.reentryAltitudeKm).value.date;
    var p := PadDays(opts.stepMinutes);
    var half := p * (DayMs(day) / 2);
    var w := Forecast(day, prop, sr, opts, now).window.value;
    assert w == Window(c - half, c + half, ConfidenceForWindow(day, c, now, sr.bstar, opts.predictionHorizonDays));
    assert half + half == p * DayMs(day) by {
      var d := DayMs(day);
      assert d == 2 * (d / 2);
      assert p * d == p * (2 * (d / 2)) == 2 * (p * (d / 2));
    }
    assert (w.start + w.end) / 2 == c;
  }

  /**
    Above the coarse limit the forward search is skipped: two propagators that agree up
    to `now` give the same decision.
  */
  lemma CoarseLimitIgnoresFuture(day: DayLength, sr: Satrec, p1: Propagator, p2: Propagator, opts: Options, now: int)
    requires StepsPositive(opts)
    requires forall s :: s <= now ==> p1(sr, s) == p2(sr, s)
    requires p1(sr, now).Some? && p1(sr, now).value > opts.coarseAltitudeKm
    ensures Assess(day, p1, sr, opts, now) == Assess(day, p2, sr, opts, now)
  {
    ScanAgree(p1, p2, sr, now - SearchSpan(day, opts.backtrackDays), now,
              opts.backtrackStepMinutes * MS_PER_MIN, opts.reentryAltitudeKm, None);
  }

  /** Some backward sample, from `backtrackDays` "days" before `now` up to `now`, is not above the threshold. */
  ghost predicate BackwardHit(day: DayLength, prop: Propagator, sr: Satrec, opts: Options, now: int) {
    var start := now - SearchSpan(day, opts.backtrackDays);
    exists k: nat :: Sample(start, opts.backtrackStepMinutes * MS_PER_MIN, k) <= now
      && !Above(prop(sr, Sample(start, opts.backtrackStepMinutes * MS_PER_MIN, k)), opts.reentryAltitudeKm)
  }

  /** Some forward sample, from `now` up to the horizon, is not above the threshold. */
  ghost predicate ForwardHit(day: DayLength, prop: Propagator, sr: Satrec, opts: Options, now: int) {
    exists k: nat :: Sample(now, opts.stepMinutes * MS_PER_MIN, k) <= now + SearchSpan(day, opts.predictionHorizonDays)
      && !Above(prop(sr, Sample(now, opts.stepMinutes * MS_PER_MIN, k)), opts.reentryAltitudeKm)
  }

  lemma BackwardScanNoneIff(day: DayLength, prop: Propagator, sr: Satrec, opts: Options, now: int)
    requires StepsPositive(opts)
    ensures FirstCrossing(prop, sr, now - SearchSpan(day, opts.backtrackDays), now,
                          opts.backtrackStepMinutes * MS_PER_MIN, opts.reentryAltitudeKm).None?
        <==> !BackwardHit(day, prop, sr, opts, now)
  {
    var start := now - SearchSpan(day, opts.backtrackDays);
    var stepMs := opts.backtrackStepMinutes * MS_PER_MIN;
    ScanNoneIff(prop, sr, start, now, stepMs, opts.reentryAltitudeKm, None);
    if !BackwardHit(day, prop, sr, opts, now) {
      forall k: nat | Sample(start, stepMs, k) <= now
        ensures Above(prop(sr, Sample(start, stepMs, k)), opts.reentryAltitudeKm)
      {
      }
    }
  }

  lemma ForwardScanNoneIff(day: DayLength, prop: Propagator, sr: Satrec, opts: Options, now: int)
    requires StepsPositive(opts)
    ensures FirstCrossing(prop, sr, now, now + SearchSpan(day, opts.predictionHorizonDays),
                          opts.stepMinutes * MS_PER_MIN, opts.reentryAltitudeKm).None?
        <==> !ForwardHit(day, prop, sr, opts, now)
  {
    var end := now + SearchSpan(day, opts.predictionHorizonDays);
    var stepMs := opts.stepMinutes * MS_PER_MIN;
    ScanNoneIff(prop, sr, now, end, stepMs, opts.reentryAltitudeKm, None);
    if !ForwardHit(day, prop, sr, opts, now) {
      forall k: nat | Sample(now, stepMs, k) <= end
        ensures Above(prop(sr, Sample(now, stepMs, k)), opts.reentryAltitudeKm)
      {
      }
    }
  }

  /**
    CONFIRMED exactly when propagation fails now, the height now is at or below the
    threshold, or some backward sample is not above it.
  */
  lemma AssessConfirmedIff(day: DayLength, prop: Propagator, sr: Satrec, opts: Options, now: int)
    requires StepsPositive(opts)
    ensures Assess(day, prop, sr, opts, now).status == Confirmed
        <==> !Above(prop(sr, now), opts.reentryAltitudeKm) || BackwardHit(day, prop, sr, opts, now)
  {
    BackwardScanNoneIff(day, prop, sr, opts, now);
  }

  /**
    UNKNOWN because of the coarse limit exactly when no backward sample is at or below
    the threshold and the height now is above both the threshold and the coarse limit.
  */
  lemma AssessAboveCoarseIff(day: DayLength, prop: Propagator, sr: Satrec, opts: Options, now: int, h: real)
    requires StepsPositive(opts) && prop(sr, now) == Some(h)
    ensures Assess(day, prop, sr, opts, now) == DecayInfo(Unknown, AboveCoarseLimit(h), None, None)
        <==> !BackwardHit(day, prop, sr, opts, now) && h > opts.reentryAltitudeKm && h > opts.coarseAltitudeKm
  {
    BackwardScanNoneIff(day, prop, sr, opts, now);
  }

  /**
    For an orbit above the threshold now, the forecast is PREDICTED exactly when some
    forward sample within the horizon is not above the threshold, and UNKNOWN with
    "stays above" otherwise.
  */
  lemma ForecastPredictedIff(day: DayLength, prop: Propagator, sr: Satrec, opts: Options, now: int)
    requires StepsPositive(opts) && Above(prop(sr, now), opts.reentryAltitudeKm)
    ensures Forecast(day, prop, sr, opts, now).status == Predicted <==> ForwardHit(day, prop, sr, opts, now)
    ensures !ForwardHit(day, prop, sr, opts, now) ==>
      Forecast(day, prop, sr, opts, now) == DecayInfo(Unknown, StaysAboveThreshold, None, None)
  {
    ForwardScanNoneIff(day, prop, sr, opts, now);
  }

  /**
    The decision for an element set is PREDICTED exactly when the orbit is above the
    threshold now and not above the coarse limit, no backward sample is at or below the
    threshold, and some forward sample within the horizon is.
  */
  lemma AssessPredictedIff(day: DayLength, prop: Propagator, sr: Satrec, opts: Options, now: int)
    requires StepsPositive(opts)
    ensures Assess(day, prop, sr, opts, now).status == Predicted
        <==> Above(prop(sr, now), opts.reentryAltitudeKm) && prop(sr, now).value <= opts.coarseAltitudeKm
             && !BackwardHit(day, prop, sr, opts, now) && ForwardHit(day, prop, sr, opts, now)
  {
    BackwardScanNoneIff(day, prop, sr, opts, now);
    if Above(prop(sr, now), opts.reentryAltitudeKm) {
      ForecastPredictedIff(day, prop, sr, opts, now);
    }
  }

  /**
    When the backward window is a whole number of backward steps, its last sample is
    `now` itself, so the "current altitude below threshold" outcome cannot occur: a
    satellite that is low now is reported by the backward scan instead.
  */
  lemma CurrentBelowUnreachable(day: DayLength, prop: Propagator, sr: Satrec, opts: Options, now: int, n: nat)
    requires StepsPositive(opts)
    requires SearchSpan(day, opts.backtrackDays) == n * (opts.backtrackStepMinutes * MS_PER_MIN)
    ensures !Assess(day, prop, sr, opts, now).reason.CurrentBelow?
  {
    var start := now - SearchSpan(day, opts.backtrackDays);
    var stepMs := opts.backtrackStepMinutes * MS_PER_MIN;
    ScanNoneIff(prop, sr, start, now, stepMs, opts.reentryAltitudeKm, None);
    assert Sample(start, stepMs, n) == now;
  }

  /**
    The default options meet that condition for either day length: the backward window
    is 12 steps of two hours as written (one calendar day) and 720 such steps with the
    24-hour day (60 calendar days).
  */
  lemma DefaultsNeverCurrentBelow(day: DayLength, noradId: Value, satrec: Option<Satrec>, prop: Propagator,
                                  registry: Option<map<string, DecayRecord>>, now: int)
    ensures !Classify(day, noradId, satrec, prop, DEFAULTS, registry, now).reason.CurrentBelow?
  {
    var d := Classify(day, noradId, satrec, prop, DEFAULTS, registry, now);
    if satrec.Some? && d != Classify(day, noradId, None, prop, DEFAULTS, registry, now) {
      assert d == Assess(day, prop, satrec.value, DEFAULTS, now);
      var steps := DefaultBackwardSteps(day);
      CurrentBelowUnreachable(day, prop, satrec.value, DEFAULTS, now, steps);
    }
  }

  lemma DefaultBackwardSteps(day: DayLength) returns (steps: nat)
    ensures steps == (if day == AsWritten then 12 else 720)
    ensures SearchSpan(day, DEFAULTS.backtrackDays) == steps * (DEFAULTS.backtrackStepMinutes * MS_PER_MIN)
  {
    steps := if day == AsWritten then 12 else 720;
  }

  /**
    A satellite whose height is constantly at or below the default threshold, absent
    from the registry, is confirmed as dropped below at the very first backward sample,
    60 "days" before `now`.
  */
  lemma ConstantlyLow(day: DayLength, noradId: Value, sr: Satrec, prop: Propagator, now: int, h: real)
    requires h <= DEFAULTS.reentryAltitudeKm
    requires forall s :: prop(sr, s) == Some(h)
    ensures Classify(day, noradId, Some(sr), prop, DEFAULTS, None, now)
         == DecayInfo(Confirmed, Crossed(DroppedBelow(120.0)), Some(Instant(now - 60 * DayMs(day))), None)
  {
    var start := now - SearchSpan(day, DEFAULTS.backtrackDays);
    assert start == now - 60 * DayMs(day);
    assert prop(sr, start) == Some(h);
    assert FirstCrossing(prop, sr, start, now, DEFAULTS.backtrackStepMinutes * MS_PER_MIN, 120.0)
        == Some(Crossing(start, DroppedBelow(120.0)));
    assert prop(sr, now) == Some(h);
  }

  /** As written, that first backward sample lies one calendar day before `now`. */
  lemma ConstantlyLowAsWritten(noradId: Value, sr: Satrec, prop: Propagator, now: int, h: real)
    requires h <= DEFAULTS.reentryAltitudeKm
    requires forall s :: prop(sr, s) == Some(h)
    ensures Classify(AsWritten, noradId, Some(sr), prop, DEFAULTS, None, now)
         == DecayInfo(Confirmed, Crossed(DroppedBelow(120.0)), Some(Instant(now - Calendar.MS_PER_DAY)), None)
  {
    ConstantlyLow(AsWritten, noradId, sr, prop, now, h);
  }

  /** With the 24-hour day it lies 60 calendar days before `now`. */
  lemma ConstantlyLowIntended(noradId: Value, sr: Satrec, prop: Propagator, now: int, h: real)
    requires h <= DEFAULTS.reentryAltitudeKm
    requires forall s :: prop(sr, s) == Some(h)
    ensures Classify(Intended, noradId, Some(sr), prop, DEFAULTS, None, now)
         == DecayInfo(Confirmed, Crossed(DroppedBelow(120.0)), Some(Instant(now - 60 * Calendar.MS_PER_DAY)), None)
  {
    ConstantlyLow(Intended, noradId, sr, prop, now, h);
  }

  /**
    An orbit at 500 km that is at 100 km from 40 calendar days after `now` on: as
    written, the 180-"day" horizon ends three calendar days ahead and the decision under
    the defaults is UNKNOWN.
  */
  lemma FortyDayDecayAsWritten(noradId: Value, sr: Satrec, prop: Propagator, now: int)
    requires forall s :: prop(sr, s) == if s < now + 40 * Calendar.MS_PER_DAY then Some(500.0) else Some(100.0)
    ensures Classify(AsWritten, noradId, Some(sr), prop, DEFAULTS, None, now)
         == DecayInfo(Unknown, StaysAboveThreshold, None, None)
  {
    var back := now - SearchSpan(AsWritten, DEFAULTS.backtrackDays);
    ScanNoneIff(prop, sr, back, now, DEFAULTS.backtrackStepMinutes * MS_PER_MIN, 120.0, None);
    ScanNoneIff(prop, sr, now, now + SearchSpan(AsWritten, DEFAULTS.predictionHorizonDays),
                DEFAULTS.stepMinutes * MS_PER_MIN, 120.0, None);
  }

  /**
    The same orbit with the 24-hour day: the decision is PREDICTED, with a one-day window
    centred on the 1920th half-hour sample, 40 calendar days after `now`.
  */
  lemma FortyDayDecayIntended(noradId: Value, sr: Satrec, prop: Propagator, now: int)
    requires forall s :: prop(sr, s) == if s < now + 40 * Calendar.MS_PER_DAY then Some(500.0) else Some(100.0)
    ensures var d := Classify(Intended, noradId, Some(sr), prop, DEFAULTS, None, now);
      d.status == Predicted && d.reason == Crossed(DroppedBelow(120.0))
      && d.window.value.start == now + 40 * Calendar.MS_PER_DAY - Calendar.MS_PER_DAY / 2
      && d.window.value.end == now + 40 * Calendar.MS_PER_DAY + Calendar.MS_PER_DAY / 2
  {
    var back := now - SearchSpan(Intended, DEFAULTS.backtrackDays);
    ScanNoneIff(prop, sr, back, now, DEFAULTS.backtrackStepMinutes * MS_PER_MIN, 120.0, None);
    var end := now + SearchSpan(Intended, DEFAULTS.predictionHorizonDays);
    var stepMs := DEFAULTS.stepMinutes * MS_PER_MIN;
    var drop := now + 40 * Calendar.MS_PER_DAY;
    assert Sample(now, stepMs, 1920) == drop <= end;
    ScanNoneIff(prop, sr, now, end, stepMs, 120.0, None);
    ScanFirstHit(prop, sr, now, end, stepMs, 120.0, None);
    var c := FirstCrossing(prop, sr, now, end, stepMs, 120.0).value;
    var k: nat :| c.date == Sample(now, stepMs, k)
         && forall j: nat :: j < k ==> Above(prop(sr, Sample(now, stepMs, j)), 120.0);
    assert !Above(prop(sr, Sample(now, stepMs, 1920)), 120.0);
    assert c.date == drop;
    ForecastWindow(Intended, prop, sr, DEFAULTS, now);
  }

  /**
    `computeDecayEstimates` for one satellite: the same decision, with the scans done by
    `FindCrossing`.
  */
  method ClassifySatellite(day: DayLength, noradId: Value, satrec: Option<Satrec>, prop: Propagator, opts: Options,
                           registry: Option<map<string, DecayRecord>>, now: int) returns (d: DecayInfo)
    requires StepsPositive(opts)
    ensures d == Classify(day, noradId, satrec, prop, opts, registry, now)
  {
    var id := SatNoradId(noradId);
    if registry.Some? && id.Some? && id.value != "" && id.value in registry.value {
      return DecayInfo(Confirmed, FromRegistry, Some(IsoDay(registry.value[id.value].decayDateIso)), None);
    }
    if satrec.None? {
      return DecayInfo(Unknown, MissingSatrec, None, None);
    }
    d := AssessSatrec(day, prop, satrec.value, opts, now);
  }

  /** The propagation at `now` and the backward scan. */
  method AssessSatrec(day: DayLength, prop: Propagator, sr: Satrec, opts: Options, now: int) returns (d: DecayInfo)
    requires StepsPositive(opts)
    ensures d == Assess(day, prop, sr, opts, now)
  {
    var thr := opts.reentryAltitudeKm;
    var current := prop(sr, now);
    if current.None? {
      return DecayInfo(Confirmed, PropagationInvalidNow, Some(Instant(now)), None);
    }
    var h := current.value;
    var past := FindCrossing(prop, sr, now - SearchSpan(day, opts.backtrackDays), now, opts.backtrackStepMinutes, thr);
    if past.Some? {
      return DecayInfo(Confirmed, Crossed(past.value.reason), Some(Instant(past.value.date)), None);
    }
    if h <= thr {
      return DecayInfo(Confirmed, CurrentBelow(h, thr), Some(Instant(now)), None);
    }
    if h > opts.coarseAltitudeKm {
      return DecayInfo(Unknown, AboveCoarseLimit(h), None, None);
    }
    d := ForecastSatrec(day, prop, sr, opts, now);
  }

  /** The forward scan and the predicted window. */
  method ForecastSatrec(day: DayLength, prop: Propagator, sr: Satrec, opts: Options, now: int) returns (d: DecayInfo)
    requires StepsPositive(opts) && Above(prop(sr, now), opts.reentryAltitudeKm)
    ensures d == Forecast(day, prop, sr, opts, now)
  {
    var horizonEnd := now + SearchSpan(day, opts.predictionHorizonDays);
    var future := FindCrossing(prop, sr, now, horizonEnd, opts.stepMinutes, opts.reentryAltitudeKm);
    if future.None? {
      return DecayInfo(Unknown, StaysAboveThreshold, None, None);
    }
    var c := future.value.date;
    ScanPastStart(prop, sr, now, horizonEnd, opts.stepMinutes * MS_PER_MIN, opts.reentryAltitudeKm);
    var half := PadDays(opts.stepMinutes) * (DayMs(day) / 2);
    var confidence := ConfidenceForWindow(day, c, now, sr.bstar, opts.predictionHorizonDays);
    d := DecayInfo(Predicted, Crossed(future.value.reason), None, Some(Window(c - half, c + half, confidence)));
  }

  // ---------------------------------------------------------------------------
  // computeDecayEstimates

  /** A satellite object: its id and element set are read, its `decay` field is written. */
  class Satellite {
    const noradId: Value
    const satrec: Option<Satrec>
    var decay: Option<DecayInfo>

    constructor (noradId: Value, satrec: Option<Satrec>)
      ensures this.noradId == noradId && this.satrec == satrec && decay == None
    {
      this.noradId := noradId;
      this.satrec := satrec;
      decay := None;
    }
  }

  /** The satellite objects of a list; `None` stands for `null`, `undefined` or a primitive. */
  function Objects(satellites: seq<Option<Satellite>>): set<Satellite> {
    set o | o in satellites && o.Some? :: o.value
  }

  /**
    The position of the first element that is not an object, or the length when there
    is none: the module is strict code, so assigning `sat.decay` there throws a
    TypeError and ends the `forEach`.
  */
  function FirstNonObject(satellites: seq<Option<Satellite>>): (k: nat)
    ensures k <= |satellites|
    ensures forall j :: 0 <= j < k ==> satellites[j].Some?
    ensures k < |satellites| ==> satellites[k].None?
  {
    if |satellites| == 0 || satellites[0].None? then 0 else 1 + FirstNonObject(satellites[1..])
  }

  lemma FirstNonObjectAt(satellites: seq<Option<Satellite>>, i: nat)
    requires i <= |satellites|
    requires forall j :: 0 <= j < i ==> satellites[j].Some?
    requires i < |satellites| ==> satellites[i].None?
    ensures FirstNonObject(satellites) == i
  {
  }

  /** The satellite holds the decision for its own id and element set. */
  predicate Decided(sat: Satellite, day: DayLength, prop: Propagator, opts: Options,
                    registry: Option<map<string, DecayRecord>>, now: int)
    requires StepsPositive(opts)
    reads sat
  {
    sat.decay == Some(Classify(day, sat.noradId, sat.satrec, prop, opts, registry, now))
  }

  /**
    `computeDecayEstimates`: every satellite up to the first element that is not an
    object gets the decision for its own id and element set; the call throws exactly
    when there is such an element, and a satellite that appears only after it keeps its
    old `decay`.
  */
  method ComputeDecayEstimates(day: DayLength, satellites: seq<Option<Satellite>>, prop: Propagator,
                               options: Overrides, clock: int) returns (thrown: bool)
    requires StepsPositive(Effective(options))
    modifies Objects(satellites)
    ensures thrown <==> FirstNonObject(satellites) < |satellites|
    ensures forall j :: 0 <= j < FirstNonObject(satellites) ==>
      Decided(satellites[j].value, day, prop, Effective(options), options.confirmedDecays, NowOf(options, clock))
    ensures forall s: Satellite :: Some(s) in satellites && Some(s) !in satellites[..FirstNonObject(satellites)] ==>
      s.decay == old(s.decay)
  {
    var opts := Effective(options);
    var now := NowOf(options, clock);
    var i := 0;
    while i < |satellites|
      invariant 0 <= i <= |satellites|
      invariant forall j :: 0 <= j < i ==> satellites[j].Some?
      invariant forall j :: 0 <= j < i ==> Decided(satellites[j].value, day, prop, opts, options.confirmedDecays, now)
      invariant forall s: Satellite :: Some(s) in satellites && Some(s) !in satellites[..i] ==> s.decay == old(s.decay)
    {
      if satellites[i].None? {
        FirstNonObjectAt(satellites, i);
        return true;
      }
      var sat := satellites[i].value;
      var d := ClassifySatellite(day, sat.noradId, sat.satrec, prop, opts, options.confirmedDecays, now);
      label Before:
      sat.decay := Some(d);
      forall j | 0 <= j < i + 1
        ensures Decided(satellites[j].value, day, prop, opts, options.confirmedDecays, now)
      {
        if satellites[j].value != sat {
          assert old@Before(Decided(satellites[j].value, day, prop, opts, options.confirmedDecays, now));
        }
      }
      assert satellites[..i + 1] == satellites[..i] + [Some(sat)];
      i := i + 1;
    }
    FirstNonObjectAt(satellites, i);
    return false;
  }
}
