/** When routines run: next run times, and the scheduler's tick. Times are epoch milliseconds. */
module Schedule {
  import opened Wrappers

  const MINUTE_MS := 60_000
  const DAY_MS := 86_400_000
  const CRON_HORIZON_MINUTES: nat := 366 * 24 * 60

  // ----- Cron fields -----

  /** A part of a field, already read: `base/step` (base `*` is `None`), `lo-hi`, a number, or junk. */
  datatype Part = Step(base: Option<(int, Option<int>)>, step: int) | Range(lo: int, hi: int) | Number(n: int) | Junk

  datatype CronField = Any | Values(values: set<int>)

  predicate PartOk(p: Part) {
    match p
    case Step(_, step) => step > 0
    case Junk => false
    case _ => true
  }

  function StepLow(p: Part, min: int): int
    requires p.Step?
  {
    if p.base.None? then min else p.base.value.0
  }

  function StepHigh(p: Part, max: int): int
    requires p.Step?
  {
    if p.base.None? || p.base.value.1.None? then max else p.base.value.1.value
  }

  /** `lo`, `lo + step` and so on up to `hi`. */
  function Steps(lo: int, hi: int, step: int): set<int>
    requires step > 0
    decreases hi - lo
  {
    if lo > hi then {} else {lo} + Steps(lo + step, hi, step)
  }

  /** The values a part stands for. */
  function PartValues(p: Part, min: int, max: int): set<int>
    requires PartOk(p)
  {
    match p
    case Step(base, step) => Steps(StepLow(p, min), StepHigh(p, max), step)
    case Range(lo, hi) => Steps(lo, hi, 1)
    case Number(n) => {n}
  }

  function AllValues(parts: seq<Part>, min: int, max: int): set<int>
    requires forall p <- parts :: PartOk(p)
  {
    if parts == [] then {}
    else var n := |parts| - 1; AllValues(parts[..n], min, max) + PartValues(parts[n], min, max)
  }

  /** A stepped range holds exactly the values within bounds at a whole number of steps from its start. */
  lemma {:induction false} StepsAre(lo: int, hi: int, step: int, v: int)
    requires step > 0
    ensures v in Steps(lo, hi, step) <==> lo <= v <= hi && (v - lo) % step == 0
    decreases hi - lo
  {
    if lo <= hi {
      StepsAre(lo + step, hi, step, v);
      if v >= lo + step {
        ModStep(v - lo, step);
      } else if lo <= v {
        ModUnique(v - lo, 0, v - lo, step);
      }
    }
  }

  lemma ModStep(d: int, step: int)
    requires step > 0
    ensures (d - step) % step == d % step
  {
    var q, m := d / step, d % step;
    assert (q - 1) * step + m == d - step;
    ModUnique(d - step, q - 1, m, step);
  }

  lemma Gap(k: int, q: int, step: int)
    requires step > 0 && k > q
    ensures k * step >= q * step + step
  {
    var more: nat := k - q - 1;
    assert more * step >= 0;
    assert k * step == q * step + step + more * step;
  }

  lemma ModUnique(d: int, k: int, r: int, step: int)
    requires step > 0 && 0 <= r < step && d == k * step + r
    ensures d % step == r
  {
    var q := d / step;
    assert d == q * step + d % step;
    if k > q {
      Gap(k, q, step);
    } else if k < q {
      Gap(q, k, step);
    }
  }

  /** What a part of a field means. */
  predicate Admits(p: Part, min: int, max: int, v: int)
    requires PartOk(p)
  {
    match p
    case Step(base, step) => StepLow(p, min) <= v <= StepHigh(p, max) && (v - StepLow(p, min)) % step == 0
    case Range(lo, hi) => lo <= v <= hi
    case Number(n) => v == n
  }

  /** A field stands for exactly the values some part of it admits. */
  lemma {:induction false} FieldValuesAre(parts: seq<Part>, min: int, max: int, v: int)
    requires forall p <- parts :: PartOk(p)
    ensures v in AllValues(parts, min, max) <==> exists p <- parts :: Admits(p, min, max, v)
  {
    if parts != [] {
      var n := |parts| - 1;
      FieldValuesAre(parts[..n], min, max, v);
      PartValuesAre(parts[n], min, max, v);
      assert parts[n] in parts && forall p <- parts :: p in parts[..n] || p == parts[n];
    }
  }

  lemma PartValuesAre(p: Part, min: int, max: int, v: int)
    requires PartOk(p)
    ensures v in PartValues(p, min, max) <==> Admits(p, min, max, v)
  {
    if p.Step? {
      StepsAre(StepLow(p, min), StepHigh(p, max), p.step, v);
    } else if p.Range? {
      StepsAre(p.lo, p.hi, 1, v);
    }
  }

  method AddSteps(out: set<int>, lo: int, hi: int, step: int) returns (out': set<int>)
    requires step > 0
    ensures out' == out + Steps(lo, hi, step)
  {
    out' := out;
    var v := lo;
    while v <= hi
      invariant out' + Steps(v, hi, step) == out + Steps(lo, hi, step)
      decreases hi - v
    {
      out' := out' + {v};
      v := v + step;
    }
  }

  /** A field: `*`, or the union of its parts; `None` when the parser throws, on junk or a value out of bounds. */
  method ParseField(isStar: bool, parts: seq<Part>, min: int, max: int) returns (r: Option<CronField>)
    ensures isStar ==> r == Some(Any)
    ensures !isStar && (exists p <- parts :: !PartOk(p)) ==> r == None
    ensures !isStar && (forall p <- parts :: PartOk(p)) ==>
      r == if forall v <- AllValues(parts, min, max) :: min <= v <= max then Some(Values(AllValues(parts, min, max))) else None
  {
    if isStar {
      return Some(Any);
    }
    var out: set<int> := {};
    for i := 0 to |parts|
      invariant forall p <- parts[..i] :: PartOk(p)
      invariant out == AllValues(parts[..i], min, max)
    {
      var part := parts[i];
      assert part in parts && parts[..i + 1] == parts[..i] + [part] && parts[..i + 1][..i] == parts[..i];
      match part {
        case Step(base, step) =>
          if step <= 0 {
            return None;
          }
          out := AddSteps(out, StepLow(part, min), StepHigh(part, max), step);
        case Range(lo, hi) =>
          out := AddSteps(out, lo, hi, 1);
        case Number(n) => out := out + {n};
        case Junk => return None;
      }
    }
    assert parts[..|parts|] == parts;
    if exists v <- out :: v < min || v > max {
      return None;
    }
    return Some(Values(out));
  }

  // ----- Next run times -----

  /** A minute on the local calendar, `dow` 0 for Sunday. */
  datatype Fields = Fields(minute: int, hour: int, dom: int, month: int, dow: int)

  datatype CronExpr = CronExpr(minute: CronField, hour: CronField, dom: CronField, month: CronField, dow: CronField)

  /** `cron` is `None` when the expression does not parse. */
  datatype Plan = Manual | Interval(everyMinutes: int) | Daily(hour: int, minute: int) | Cron(cron: Option<CronExpr>)

  predicate PlanOk(p: Plan) {
    match p
    case Interval(n) => n >= 1
    case Daily(h, m) => 0 <= h <= 23 && 0 <= m <= 59
    case _ => true
  }

  /** The local calendar: a fixed offset for clock times, and the fields of each minute. */
  datatype Calendar = Calendar(offset: int, fields: int -> Fields)

  predicate FieldMatches(f: CronField, v: int) {
    f.Any? || v in f.values
  }

  predicate CronMatches(c: CronExpr, t: Fields) {
    var domOk := FieldMatches(c.dom, t.dom);
    var dowOk := FieldMatches(c.dow, t.dow) || (t.dow == 0 && FieldMatches(c.dow, 7));
    && FieldMatches(c.minute, t.minute) && FieldMatches(c.hour, t.hour) && FieldMatches(c.month, t.month)
    && (if c.dom.Values? && c.dow.Values? then domOk || dowOk else domOk && dowOk)
  }

  function NextMinute(from: int): int {
    from / MINUTE_MS * MINUTE_MS + MINUTE_MS
  }

  /** The first matching minute from the `i`-th after `start`, within the horizon. */
  function ScanCron(c: CronExpr, cal: Calendar, start: int, i: nat): Option<int>
    requires i <= CRON_HORIZON_MINUTES
    decreases CRON_HORIZON_MINUTES - i
  {
    if i == CRON_HORIZON_MINUTES then None
    else if CronMatches(c, cal.fields(start + i * MINUTE_MS)) then Some(start + i * MINUTE_MS)
    else ScanCron(c, cal, start, i + 1)
  }

  method NextCron(c: CronExpr, cal: Calendar, from: int) returns (r: Option<int>)
    ensures r == ScanCron(c, cal, NextMinute(from), 0)
  {
    var start := from / MINUTE_MS * MINUTE_MS + MINUTE_MS;
    var i := 0;
    while i < CRON_HORIZON_MINUTES
      invariant 0 <= i <= CRON_HORIZON_MINUTES && ScanCron(c, cal, start, i) == ScanCron(c, cal, start, 0)
    {
      if CronMatches(c, cal.fields(start + i * MINUTE_MS)) {
        return Some(start + i * MINUTE_MS);
      }
      i := i + 1;
    }
    return None;
  }

  /** Local midnight plus the clock time, moved to the next day if that is not in the future. */
  function NextDaily(offset: int, hour: int, minute: int, from: int): int {
    var midnight := (from + offset) / DAY_MS * DAY_MS - offset;
    var t := midnight + (hour * 60 + minute) * MINUTE_MS;
    if t <= from then t + DAY_MS else t
  }

  function ComputeNextRun(plan: Plan, cal: Calendar, from: int): Option<int> {
    match plan
    case Manual => None
    case Interval(everyMinutes) => Some(from + everyMinutes * MINUTE_MS)
    case Daily(hour, minute) => Some(NextDaily(cal.offset, hour, minute, from))
    case Cron(cron) => if cron.None? then None else ScanCron(cron.value, cal, NextMinute(from), 0)
  }

  predicate IsClockTime(offset: int, hour: int, minute: int, t: int) {
    (t + offset) % DAY_MS == (hour * 60 + minute) * MINUTE_MS
  }

  /** The next daily run is the least later time with that local clock time. */
  lemma NextDailyIsLeast(offset: int, hour: int, minute: int, from: int)
    requires 0 <= hour <= 23 && 0 <= minute <= 59
    ensures var r := NextDaily(offset, hour, minute, from);
      && r > from && IsClockTime(offset, hour, minute, r)
      && forall u | u > from && IsClockTime(offset, hour, minute, u) :: r <= u
  {
    var r, clock := NextDaily(offset, hour, minute, from), (hour * 60 + minute) * MINUTE_MS;
    assert 0 <= clock < DAY_MS;
    var day := (from + offset) / DAY_MS;
    DayAndClock(r + offset, if day * DAY_MS + clock <= from + offset then day + 1 else day, clock);
    forall u | u > from && IsClockTime(offset, hour, minute, u)
      ensures r <= u
    {
      LaterDay(from + offset, u + offset, clock);
    }
  }

  /** A time is a whole number of days and a clock time in just one way. */
  lemma DayAndClock(t: int, day: int, clock: int)
    requires t == day * DAY_MS + clock && 0 <= clock < DAY_MS
    ensures t % DAY_MS == clock
  {
  }

  lemma LaterDay(t: int, u: int, clock: int)
    requires u > t && u % DAY_MS == clock
    ensures u >= (if t / DAY_MS * DAY_MS + clock <= t then t / DAY_MS * DAY_MS + clock + DAY_MS else t / DAY_MS * DAY_MS + clock)
  {
    var d, e := t / DAY_MS, u / DAY_MS;
    assert t == d * DAY_MS + t % DAY_MS && u == e * DAY_MS + clock;
    assert e >= d;
  }

  /** A candidate minute of the scan. */
  predicate InHorizon(from: int, u: int) {
    u % MINUTE_MS == 0 && from < u < NextMinute(from) + CRON_HORIZON_MINUTES * MINUTE_MS
  }

  /** The `k`-th minute from `start`. */
  function MinuteAt(start: int, k: int): int {
    start + k * MINUTE_MS
  }

  lemma {:induction false} ScanIsLeast(c: CronExpr, cal: Calendar, start: int, i: nat) returns (k: nat)
    requires i <= CRON_HORIZON_MINUTES
    ensures i <= k <= CRON_HORIZON_MINUTES
    ensures forall l: nat | i <= l < k :: !CronMatches(c, cal.fields(MinuteAt(start, l)))
    ensures if k == CRON_HORIZON_MINUTES then ScanCron(c, cal, start, i).None?
      else ScanCron(c, cal, start, i) == Some(MinuteAt(start, k)) && CronMatches(c, cal.fields(MinuteAt(start, k)))
    decreases CRON_HORIZON_MINUTES - i
  {
    if i == CRON_HORIZON_MINUTES || CronMatches(c, cal.fields(MinuteAt(start, i))) {
      k := i;
    } else {
      k := ScanIsLeast(c, cal, start, i + 1);
    }
  }

  /** `u` is a later whole minute within the horizon at which the expression matches. */
  predicate CronHit(c: CronExpr, cal: Calendar, from: int, u: int) {
    InHorizon(from, u) && CronMatches(c, cal.fields(u))
  }

  /** The cron search finds the least later whole minute that matches within a year, or says there is none. */
  lemma NextCronIsLeast(c: CronExpr, cal: Calendar, from: int, r: Option<int>)
    requires r == ScanCron(c, cal, NextMinute(from), 0)
    ensures r.Some? ==> CronHit(c, cal, from, r.value) && forall u | CronHit(c, cal, from, u) :: r.value <= u
    ensures r.None? ==> forall u :: !CronHit(c, cal, from, u)
  {
    var k := ScanIsLeast(c, cal, NextMinute(from), 0);
    if k < CRON_HORIZON_MINUTES {
      MinuteIn(from, k);
    }
    forall u | CronHit(c, cal, from, u)
      ensures k < CRON_HORIZON_MINUTES && MinuteAt(NextMinute(from), k) <= u
    {
      var l := MinuteOf(from, u);
      assert l < k ==> !CronMatches(c, cal.fields(MinuteAt(NextMinute(from), l)));
    }
  }

  lemma MinuteIn(from: int, k: nat)
    requires k < CRON_HORIZON_MINUTES
    ensures InHorizon(from, MinuteAt(NextMinute(from), k))
  {
  }

  lemma MinuteOf(from: int, u: int) returns (l: int)
    requires InHorizon(from, u)
    ensures u == MinuteAt(NextMinute(from), l) && 0 <= l < CRON_HORIZON_MINUTES
  {
    l := (u - NextMinute(from)) / MINUTE_MS;
  }

  /** A computed next run is strictly later than the time it is computed from. */
  lemma NextRunIsLater(plan: Plan, cal: Calendar, from: int)
    requires PlanOk(plan)
    ensures var r := ComputeNextRun(plan, cal, from); r.Some? ==> r.value > from
  {
    match plan {
      case Daily(hour, minute) => NextDailyIsLeast(cal.offset, hour, minute, from);
      case Cron(cron) =>
        if cron.Some? {
          NextCronIsLeast(cron.value, cal, from, ComputeNextRun(plan, cal, from));
        }
      case _ =>
    }
  }

  // ----- The tick -----

  datatype Routine = Routine(id: string, plan: Plan, enabled: bool, nextRunAt: Option<int>)

  predicate Scheduled(r: Routine) {
    r.enabled && !r.plan.Manual?
  }

  predicate Due(r: Routine, now: int) {
    Scheduled(r) && r.nextRunAt.Some? && r.nextRunAt.value <= now
  }

  function Initialised(r: Routine, cal: Calendar, now: int): Routine {
    if Scheduled(r) && r.nextRunAt.None? then r.(nextRunAt := ComputeNextRun(r.plan, cal, now)) else r
  }

  /** What one enabled tick does to one routine; it fires iff it is due once initialised. */
  function Ticked(r: Routine, cal: Calendar, now: int): Routine {
    var r' := Initialised(r, cal, now);
    if Due(r', now) then r'.(nextRunAt := ComputeNextRun(r'.plan, cal, now)) else r'
  }

  predicate Fires(r: Routine, cal: Calendar, now: int) {
    Due(Initialised(r, cal, now), now)
  }

  function FiredIds(rs: seq<Routine>, cal: Calendar, now: int): seq<string> {
    if rs == [] then []
    else
      var n := |rs| - 1;
      FiredIds(rs[..n], cal, now) + (if Fires(rs[n], cal, now) then [rs[n].id] else [])
  }

  class Scheduler {
    var routines: seq<Routine>
    var settingEnabled: bool
    ghost var triggered: seq<string>

    constructor (routines: seq<Routine>, settingEnabled: bool)
      ensures this.routines == routines && this.settingEnabled == settingEnabled && triggered == []
    {
      this.routines, this.settingEnabled, triggered := routines, settingEnabled, [];
    }

    method TickRoutines(cal: Calendar, now: int)
      modifies this`routines, this`triggered
      ensures !settingEnabled ==> routines == old(routines) && triggered == old(triggered)
      ensures settingEnabled ==>
        && |routines| == |old(routines)|
        && (forall i | 0 <= i < |routines| :: routines[i] == Ticked(old(routines)[i], cal, now))
        && triggered == old(triggered) + FiredIds(old(routines), cal, now)
    {
      if !settingEnabled {
        return;
      }
      ghost var before := routines;
      InitialiseAll(cal, now);
      FireDue(cal, now, before);
    }

    /** Gives every scheduled routine without a next run time one. */
    method InitialiseAll(cal: Calendar, now: int)
      modifies this`routines
      ensures |routines| == |old(routines)|
      ensures forall i | 0 <= i < |routines| :: routines[i] == Initialised(old(routines)[i], cal, now)
    {
      for i := 0 to |routines|
        invariant |routines| == |old(routines)|
        invariant forall k | 0 <= k < i :: routines[k] == Initialised(old(routines)[k], cal, now)
        invariant forall k | i <= k < |routines| :: routines[k] == old(routines)[k]
      {
        var r := routines[i];
        if r.enabled && !r.plan.Manual? && r.nextRunAt.None? {
          routines := routines[i := r.(nextRunAt := ComputeNextRun(r.plan, cal, now))];
        }
      }
    }

    /** Fires every due routine and reschedules it from `now`. */
    method FireDue(cal: Calendar, now: int, ghost before: seq<Routine>)
      requires |routines| == |before| && forall i | 0 <= i < |before| :: routines[i] == Initialised(before[i], cal, now)
      modifies this`routines, this`triggered
      ensures |routines| == |before| && forall i | 0 <= i < |before| :: routines[i] == Ticked(before[i], cal, now)
      ensures triggered == old(triggered) + FiredIds(before, cal, now)
    {
      assert before[..0] == [];
      for i := 0 to |routines|
        invariant |routines| == |before|
        invariant forall k | 0 <= k < i :: routines[k] == Ticked(before[k], cal, now)
        invariant forall k | i <= k < |before| :: routines[k] == Initialised(before[k], cal, now)
        invariant triggered == old(triggered) + FiredIds(before[..i], cal, now)
      {
        var r := routines[i];
        assert before[..i + 1][..i] == before[..i];
        if Due(r, now) {
          triggered := triggered + [r.id];
          routines := routines[i := r.(nextRunAt := ComputeNextRun(r.plan, cal, now))];
        }
      }
      assert before[..|before|] == before;
    }
  }

  /** After an enabled tick at `now` no routine is due at `now`: missed runs collapse into the one just fired. */
  lemma NothingDueAfterTick(r: Routine, cal: Calendar, now: int)
    requires PlanOk(r.plan)
    ensures !Due(Ticked(r, cal, now), now) && !Fires(Ticked(r, cal, now), cal, now)
  {
    NextRunIsLater(r.plan, cal, now);
  }

  predicate NonDecreasing(ticks: seq<int>) {
    forall i | 0 <= i < |ticks| - 1 :: ticks[i] <= ticks[i + 1]
  }

  /** How often a routine with a fixed plan fires over a run of ticks. */
  function FireCount(r: Routine, cal: Calendar, ticks: seq<int>): nat
    decreases |ticks|
  {
    if ticks == [] then 0
    else (if Fires(r, cal, ticks[0]) then 1 else 0) + FireCount(Ticked(r, cal, ticks[0]), cal, ticks[1..])
  }

  lemma {:induction false} FireBound(r: Routine, cal: Calendar, ticks: seq<int>, due: int)
    requires r.plan.Interval? && PlanOk(r.plan) && ticks != [] && NonDecreasing(ticks)
    requires r.nextRunAt.Some? && due <= r.nextRunAt.value
    ensures var n, step := FireCount(r, cal, ticks), r.plan.everyMinutes * MINUTE_MS;
      n == 0 || ((n - 1) * step <= ticks[|ticks| - 1] - ticks[0] && (n - 1) * step <= ticks[|ticks| - 1] - due)
    decreases |ticks|
  {
    var step, t, rest, last := r.plan.everyMinutes * MINUTE_MS, ticks[0], ticks[1..], ticks[|ticks| - 1];
    if rest == [] {
      assert FireCount(Ticked(r, cal, t), cal, []) == 0;
    } else {
      TicksAscend(ticks);
      assert rest[|rest| - 1] == last && rest[0] == ticks[1];
      RestNonDecreasing(ticks);
      if Fires(r, cal, t) {
        FireBound(Ticked(r, cal, t), cal, rest, t + step);
        OneMore(FireCount(Ticked(r, cal, t), cal, rest), step);
      } else {
        FireBound(Ticked(r, cal, t), cal, rest, due);
      }
    }
  }

  lemma OneMore(n: nat, step: int)
    ensures n > 0 ==> n * step == (n - 1) * step + step
  {
  }

  lemma RestNonDecreasing(ticks: seq<int>)
    requires NonDecreasing(ticks) && ticks != []
    ensures NonDecreasing(ticks[1..])
  {
    forall i | 0 <= i < |ticks[1..]| - 1
      ensures ticks[1..][i] <= ticks[1..][i + 1]
    {
      assert ticks[i + 1] <= ticks[(i + 1) + 1];
    }
  }

  lemma {:induction false} TicksAscend(ticks: seq<int>)
    requires NonDecreasing(ticks) && ticks != []
    ensures ticks[0] <= ticks[|ticks| - 1]
    decreases |ticks|
  {
    if |ticks| > 1 {
      RestNonDecreasing(ticks);
      TicksAscend(ticks[1..]);
      assert ticks[0] <= ticks[0 + 1];
    }
  }

  /**
   * An interval routine, however late and irregular the ticks, fires at most once at the first tick and
   * once more per whole interval elapsed since.
   */
  lemma IntervalFiresAreSpaced(r: Routine, cal: Calendar, ticks: seq<int>)
    requires r.plan.Interval? && PlanOk(r.plan) && ticks != [] && NonDecreasing(ticks)
    ensures FireCount(r, cal, ticks) <= (ticks[|ticks| - 1] - ticks[0]) / (r.plan.everyMinutes * MINUTE_MS) + 1
  {
    var step, elapsed := r.plan.everyMinutes * MINUTE_MS, ticks[|ticks| - 1] - ticks[0];
    TicksAscend(ticks);
    if Scheduled(r) {
      var r' := Initialised(r, cal, ticks[0]);
      SameFires(r, r', cal, ticks);
      FireBound(r', cal, ticks, r'.nextRunAt.value);
    } else {
      NeverFires(r, cal, ticks);
    }
    if FireCount(r, cal, ticks) > 0 {
      Quotient(FireCount(r, cal, ticks) - 1, elapsed, step);
    } else {
      Quotient(0, elapsed, step);
    }
  }

  lemma SameFires(r: Routine, r': Routine, cal: Calendar, ticks: seq<int>)
    requires ticks != [] && r' == Initialised(r, cal, ticks[0])
    ensures FireCount(r, cal, ticks) == FireCount(r', cal, ticks)
  {
    assert Initialised(r', cal, ticks[0]) == r' || r'.nextRunAt.None?;
  }

  lemma {:induction false} NeverFires(r: Routine, cal: Calendar, ticks: seq<int>)
    requires !Scheduled(r)
    ensures FireCount(r, cal, ticks) == 0
    decreases |ticks|
  {
    if ticks != [] {
      NeverFires(r, cal, ticks[1..]);
    }
  }

  lemma Quotient(n: nat, elapsed: int, step: int)
    requires step > 0 && elapsed >= 0 && n * step <= elapsed
    ensures n <= elapsed / step
  {
    var q := elapsed / step;
    assert elapsed < q * step + step;
    if n > q {
      Gap(n, q, step);
    }
  }
}
