/** The absolute-deadline frame pacer (`src/stream_runtime.rs`) and the grid of deadlines it
    keeps to. */
module StreamRuntime {
  import opened Numerics
  import opened Wrappers

  const MAX_U64: nat := 0xFFFF_FFFF_FFFF_FFFF
  const NANOS_PER_SECOND: nat := 1_000_000_000

  function SaturatingAdd(a: nat, b: nat): U64 {
    Min(a + b, MAX_U64)
  }

  function Product(a: nat, b: nat): nat {
    MulMonotone(0, a, b);
    a * b
  }

  function Quotient(a: nat, b: nat): (q: nat)
    requires b > 0
    ensures q <= a
  {
    DivNonNegative(a, b);
    MulMonotone(1, b, a);
    DivAtMost(a, b, a);
    a / b
  }

  function SaturatingMul(a: nat, b: nat): U64 {
    Min(Product(a, b), MAX_U64)
  }

  datatype PacingPlan = PacingPlan(sleepNanos: U64, skippedDeadlines: U64, clockDiscontinuity: bool)

  datatype Pacer = Pacer(fps: U32, intervalNanos: U64, nextDeadline: Option<U64>, lastNow: Option<U64>)

  /** `rate` intervals fit into a second, and would not if they were one nanosecond longer. */
  predicate FitsASecond(interval: int, rate: int) {
    interval * rate <= 1_000_000_000 < (interval + 1) * rate
  }

  /** Zero above a thousand million frames a second. */
  function IntervalForFps(fps: U32): (interval: U64)
    ensures interval > 0 <==> fps <= NANOS_PER_SECOND
    ensures FitsASecond(interval, Max(fps, 1))
  {
    var rate := Max(fps, 1);
    DivBounds(NANOS_PER_SECOND, rate);
    DivAtMost(NANOS_PER_SECOND, rate, NANOS_PER_SECOND);
    DivNonNegative(NANOS_PER_SECOND, rate);
    if rate <= NANOS_PER_SECOND then
      DivMonotone(rate, NANOS_PER_SECOND, rate);
      NANOS_PER_SECOND / rate
    else
      DivBelow(NANOS_PER_SECOND, rate, 1);
      NANOS_PER_SECOND / rate
  }

  function NewPacer(fps: U32): Pacer {
    Pacer(Max(fps, 1), IntervalForFps(Max(fps, 1)), None, None)
  }

  predicate Discontinuity(p: Pacer, now: U64) {
    p.lastNow.Some? && now < p.lastNow.value
  }

  /** The state in which the deadline is looked for: a jump back in time or a new rate
      restarts the grid at `now`. */
  function Regridded(p: Pacer, now: U64, fps: U32): Pacer {
    var rate := Max(fps, 1);
    var interval := if rate == p.fps then p.intervalNanos else IntervalForFps(rate);
    var restart := Discontinuity(p, now) || rate != p.fps;
    Pacer(rate, interval, if restart then Some(now) else p.nextDeadline, Some(now))
  }

  function FirstDeadline(p: Pacer, now: U64): U64 {
    if p.nextDeadline.Some? then p.nextDeadline.value else now
  }

  /** The source divides by the interval, which panics on zero, exactly when it is late. */
  predicate Panics(p: Pacer, now: U64, fps: U32) {
    var q := Regridded(p, now, fps);
    now > FirstDeadline(q, now) && q.intervalNanos == 0
  }

  /** The deadline aimed at and the number of deadlines skipped to reach it. */
  function CaughtUp(deadline: U64, now: U64, interval: U64): (r: (U64, U64))
    requires now > deadline ==> interval > 0
  {
    if now <= deadline then (deadline, 0)
    else
      var skipped := Quotient(SaturatingSub(now, deadline), interval);
      var reached := SaturatingAdd(deadline, SaturatingMul(skipped, interval));
      if reached < now then (SaturatingAdd(reached, interval), SaturatingAdd(skipped, 1)) else (reached, skipped)
  }

  function Planned(p: Pacer, now: U64, fps: U32): (Pacer, PacingPlan)
    requires !Panics(p, now, fps)
  {
    var q := Regridded(p, now, fps);
    var (deadline, skipped) := CaughtUp(FirstDeadline(q, now), now, q.intervalNanos);
    (q.(nextDeadline := Some(SaturatingAdd(deadline, q.intervalNanos))),
     PacingPlan(SaturatingSub(deadline, now), skipped, Discontinuity(p, now)))
  }

  class DeadlinePacer {
    var fps: U32
    var intervalNanos: U64
    var nextDeadlineNanos: Option<U64>
    var lastNowNanos: Option<U64>

    function State(): Pacer
      reads this
    {
      Pacer(fps, intervalNanos, nextDeadlineNanos, lastNowNanos)
    }

    constructor (rate: U32)
      ensures State() == NewPacer(rate)
    {
      fps := Max(rate, 1);
      intervalNanos := IntervalForFps(Max(rate, 1));
      nextDeadlineNanos, lastNowNanos := None, None;
    }

    /** None stands for the panic of a division by zero. */
    method Plan(now: U64, rate: U32) returns (plan: Option<PacingPlan>)
      modifies this
      ensures plan.None? <==> Panics(old(State()), now, rate)
      ensures plan.Some? ==> (State(), plan.value) == Planned(old(State()), now, rate)
      ensures plan.None? ==> State() == Regridded(old(State()), now, rate)
    {
      var wanted := Max(rate, 1);
      var discontinuity := lastNowNanos.Some? && now < lastNowNanos.value;
      lastNowNanos := Some(now);
      if discontinuity {
        nextDeadlineNanos := Some(now);
      }
      if wanted != fps {
        fps := wanted;
        intervalNanos := IntervalForFps(wanted);
        nextDeadlineNanos := Some(now);
      }
      var deadline := if nextDeadlineNanos.Some? then nextDeadlineNanos.value else now;
      var skipped: U64 := 0;
      if now > deadline {
        if intervalNanos == 0 {
          return None;
        }
        skipped := Quotient(SaturatingSub(now, deadline), intervalNanos);
        deadline := SaturatingAdd(deadline, SaturatingMul(skipped, intervalNanos));
        if deadline < now {
          deadline := SaturatingAdd(deadline, intervalNanos);
          skipped := SaturatingAdd(skipped, 1);
        }
      }
      nextDeadlineNanos := Some(SaturatingAdd(deadline, intervalNanos));
      plan := Some(PacingPlan(SaturatingSub(deadline, now), skipped, discontinuity));
    }
  }

  /** Asking panics exactly when the rate is above a thousand million, the clock and the rate
      have not changed course, and the next deadline has passed. */
  lemma PanicsExactlyWhenLateAtNoInterval(p: Pacer, now: U64, fps: U32)
    requires p.intervalNanos == IntervalForFps(p.fps) && 1 <= p.fps
    ensures Panics(p, now, fps) <==>
            p.fps > NANOS_PER_SECOND && fps == p.fps && !Discontinuity(p, now)
            && p.nextDeadline.Some? && now > p.nextDeadline.value
  {
    hide Quotient;
    assert IntervalForFps(p.fps) > 0 <==> p.fps <= NANOS_PER_SECOND;
    hide IntervalForFps;
  }

  /** Two thousand million frames a second, asked at the first nanosecond and the second. */
  lemma FastPacerPanics()
    ensures var pacer := NewPacer(2_000_000_000);
            !Panics(pacer, 0, 2_000_000_000) && Panics(Planned(pacer, 0, 2_000_000_000).0, 1, 2_000_000_000)
  {
    var rate: U32 := 2_000_000_000;
    assert IntervalForFps(rate) == 0;
    hide IntervalForFps;
  }

  // ---- Restarts ------------------------------------------------------------------------------------------

  /** A clock that jumps back, or a new rate, is exactly a fresh pacer asked at that moment:
      every run falls into stretches of one rate and a clock that never goes back. */
  lemma RestartIsAFreshPacer(p: Pacer, now: U64, fps: U32)
    requires p.intervalNanos == IntervalForFps(p.fps) && 1 <= p.fps
    requires Discontinuity(p, now) || Max(fps, 1) != p.fps
    ensures !Panics(p, now, fps) && !Panics(NewPacer(fps), now, fps)
    ensures Planned(p, now, fps).0 == Planned(NewPacer(fps), now, fps).0
    ensures Planned(p, now, fps).1 == Planned(NewPacer(fps), now, fps).1.(clockDiscontinuity := Discontinuity(p, now))
  {
    hide IntervalForFps;
  }

  // ---- The grid --------------------------------------------------------------------------------------------

  ghost function Grid(first: nat, slot: nat, interval: nat): nat {
    first + Product(slot, interval)
  }

  /** The least number of intervals that lead from `first` to `now` or beyond. */
  function SlotsTo(first: int, now: int, interval: nat): int
    requires interval > 0
  {
    (now - first + interval - 1) / interval
  }

  lemma SlotsToIs(first: int, now: int, interval: nat, slots: int)
    requires interval > 0 && (slots - 1) * interval < now - first <= slots * interval
    ensures SlotsTo(first, now, interval) == slots
  {
    DivUnique(now - first + interval - 1, interval, slots);
  }

  lemma SlotsToBounds(first: int, now: int, interval: nat)
    requires interval > 0
    ensures var slots := SlotsTo(first, now, interval); (slots - 1) * interval < now - first <= slots * interval
  {
    DivBounds(now - first + interval - 1, interval);
  }

  /** The slot each call should aim at: the one after the last, or the first not before now. */
  ghost function Slot(nows: seq<U64>, interval: nat): (slot: int)
    requires interval > 0
    ensures slot >= |nows| - 1
  {
    if |nows| == 0 then -1
    else
      var last := |nows| - 1;
      Max(Slot(nows[..last], interval) + 1, SlotsTo(nows[0], nows[last], interval))
  }

  lemma SlotIs(nows: seq<U64>, interval: nat)
    requires interval > 0 && |nows| > 0
    ensures var last := |nows| - 1;
            Slot(nows, interval) == Max(Slot(nows[..last], interval) + 1, SlotsTo(nows[0], nows[last], interval))
  {
    var last := |nows| - 1;
    hide SlotsTo;
    assert |nows| != 0;
    assert Slot(nows, interval) == Max(Slot(nows[..last], interval) + 1, SlotsTo(nows[0], nows[last], interval));
  }

  lemma {:induction false} SlotGrows(nows: seq<U64>, interval: nat)
    requires interval > 0 && |nows| > 0
    ensures Slot(nows[..|nows| - 1], interval) < Slot(nows, interval)
    ensures |nows| == 1 ==> Slot(nows, interval) == 0
  {
    var last := |nows| - 1;
    if last > 0 {
      SlotGrows(nows[..last], interval);
    } else {
      SlotsToIs(nows[0], nows[0], interval, 0);
    }
  }

  /** The aim is the earliest grid point that is neither past nor already used. */
  lemma SlotIsTheLeast(nows: seq<U64>, interval: nat, slot: nat)
    requires interval > 0 && |nows| > 0
    requires Slot(nows[..|nows| - 1], interval) < slot
    ensures Slot(nows, interval) <= slot <==> nows[|nows| - 1] <= Grid(nows[0], slot, interval)
  {
    var slots := SlotsTo(nows[0], nows[|nows| - 1], interval);
    SlotsToBounds(nows[0], nows[|nows| - 1], interval);
    hide SlotsTo, Slot;
    assert Slot(nows, interval) == Max(Slot(nows[..|nows| - 1], interval) + 1, slots) by { SlotIs(nows, interval); }
    MulMonotone(slots, slot, interval);
    MulMonotone(slot, slots - 1, interval);
  }

  ghost predicate NeverGoesBack(nows: seq<U64>) {
    forall i, j :: 0 <= i < j < |nows| ==> nows[i] <= nows[j]
  }

  /** A fresh pacer asked at each of the times, always for the same rate. */
  ghost function PacerAfter(fps: U32, nows: seq<U64>): (p: Pacer)
    requires 1 <= fps <= NANOS_PER_SECOND
    ensures p.fps == fps && p.intervalNanos == IntervalForFps(fps)
    ensures |nows| > 0 ==> p.lastNow == Some(nows[|nows| - 1]) && p.nextDeadline.Some?
    ensures |nows| == 0 ==> p == NewPacer(fps)
  {
    if |nows| == 0 then NewPacer(fps)
    else Planned(PacerAfter(fps, nows[..|nows| - 1]), nows[|nows| - 1], fps).0
  }

  ghost function LastPlan(fps: U32, nows: seq<U64>): PacingPlan
    requires 1 <= fps <= NANOS_PER_SECOND && |nows| > 0
  {
    Planned(PacerAfter(fps, nows[..|nows| - 1]), nows[|nows| - 1], fps).1
  }

  ghost function TotalSkipped(fps: U32, nows: seq<U64>): nat
    requires 1 <= fps <= NANOS_PER_SECOND
  {
    if |nows| == 0 then 0 else TotalSkipped(fps, nows[..|nows| - 1]) + LastPlan(fps, nows).skippedDeadlines
  }

  lemma CaughtUpOnGrid(first: U64, slot: nat, now: U64, interval: U64)
    requires interval > 0 && Grid(first, slot, interval) <= MAX_U64
    requires Grid(first, Max(slot, SlotsTo(first, now, interval)), interval) <= MAX_U64
    ensures var aim := Max(slot, SlotsTo(first, now, interval));
            CaughtUp(Grid(first, slot, interval), now, interval) == (Grid(first, aim, interval), aim - slot)
  {
    var deadline := Grid(first, slot, interval);
    if now <= deadline {
      SlotsToBounds(first, now, interval);
      MulMonotone(slot, SlotsTo(first, now, interval) - 1, interval);
    } else {
      LateOnGrid(first, slot, now, interval);
    }
  }

  lemma LateOnGrid(first: U64, slot: nat, now: U64, interval: U64)
    requires interval > 0 && Grid(first, slot, interval) < now
    requires Grid(first, Max(slot, SlotsTo(first, now, interval)), interval) <= MAX_U64
    ensures var aim := Max(slot, SlotsTo(first, now, interval));
            CaughtUp(Grid(first, slot, interval), now, interval) == (Grid(first, aim, interval), aim - slot)
  {
    var deadline: U64 := Grid(first, slot, interval);
    CaughtUpWhenLate(deadline, now, interval);
    SlotsToWhenLate(first, slot, now, interval);
    var (skipped, length) := Whole(now - deadline, interval);
    assert length == Product(skipped, interval);
    GridAdds(first, slot, skipped, interval);
    GridStep(first, slot + skipped, interval);
    hide CaughtUp, SlotsTo, Whole, Grid;
  }

  /** Whole intervals in `late`, and their length. */
  function Whole(late: nat, interval: nat): (r: (nat, nat))
    requires interval > 0
    ensures r.0 <= r.1 <= late < r.1 + interval
  {
    DivBounds(late, interval);
    Distribute(late / interval, 1, interval);
    MulMonotone(1, interval, Quotient(late, interval));
    (Quotient(late, interval), Product(Quotient(late, interval), interval))
  }

  lemma CaughtUpWhenLate(deadline: U64, now: U64, interval: U64)
    requires interval > 0 && deadline < now
    ensures var (skipped, length) := Whole(now - deadline, interval);
            CaughtUp(deadline, now, interval) ==
            if deadline + length == now then (now, skipped)
            else (SaturatingAdd(deadline + length, interval), skipped + 1)
  {
    hide Product, Quotient;
  }

  lemma SlotsToWhenLate(first: nat, slot: nat, now: nat, interval: nat)
    requires interval > 0 && Grid(first, slot, interval) < now
    ensures var whole := Whole(now - Grid(first, slot, interval), interval);
            SlotsTo(first, now, interval) ==
            (if Grid(first, slot, interval) + whole.1 == now then slot + whole.0 else slot + whole.0 + 1)
  {
    var (skipped, length) := Whole(now - Grid(first, slot, interval), interval);
    var exact := slot + skipped;
    Distribute(slot, skipped, interval);
    hide SlotsTo;
    if Grid(first, slot, interval) + length == now {
      var before := exact - 1;
      Distribute(before, 1, interval);
      SlotsToIs(first, now, interval, exact);
    } else {
      var next := exact + 1;
      Distribute(exact, 1, interval);
      SlotsToIs(first, now, interval, next);
    }
  }

  lemma GridAdds(first: nat, slot: nat, more: nat, interval: nat)
    ensures Grid(first, slot + more, interval) == Grid(first, slot, interval) + Product(more, interval)
  {
    Distribute(slot, more, interval);
  }

  lemma Distribute(a: int, b: int, c: int)
    ensures (a + b) * c == a * c + b * c
  {
  }

  /** The deadline after the run's last one is still a u64. */
  ghost predicate BelowSaturation(nows: seq<U64>, interval: nat) {
    interval > 0 && |nows| > 0 && Grid(nows[0], Slot(nows, interval) + 1, interval) <= MAX_U64
  }

  lemma EarlierIsBelowSaturation(nows: seq<U64>, interval: nat)
    requires BelowSaturation(nows, interval) && |nows| > 1
    ensures BelowSaturation(nows[..|nows| - 1], interval)
    ensures Grid(nows[0], Slot(nows, interval), interval) <= MAX_U64
    ensures Grid(nows[0], Slot(nows[..|nows| - 1], interval) + 1, interval) <= MAX_U64
  {
    SlotGrows(nows, interval);
    var before := nows[..|nows| - 1];
    assert before[0] == nows[0];
    GridGrows(nows[0], Slot(before, interval) + 1, Slot(nows, interval) + 1, interval);
    GridGrows(nows[0], Slot(nows, interval), Slot(nows, interval) + 1, interval);
    hide Grid;
  }

  /** The plan that aims at this slot, when the call before aimed at slot `used`. */
  ghost function PlanFor(first: U64, used: int, slot: nat, now: U64, interval: U64): (int, int) {
    (SaturatingSub(Grid(first, slot, interval), now), slot - used - 1)
  }

  lemma OneMoreCall(p: Pacer, first: U64, used: int, now: U64)
    requires 1 <= p.fps <= NANOS_PER_SECOND && p.intervalNanos == IntervalForFps(p.fps)
    requires used >= -1 && !Discontinuity(p, now)
    requires Grid(first, used + 1, p.intervalNanos) <= MAX_U64
    requires p.nextDeadline == (if used < 0 then None else Some(Grid(first, used + 1, p.intervalNanos)))
    requires used < 0 ==> now == first
    requires Grid(first, Max(used + 1, SlotsTo(first, now, p.intervalNanos)) + 1, p.intervalNanos) <= MAX_U64
    ensures !Panics(p, now, p.fps)
    ensures var slot := Max(used + 1, SlotsTo(first, now, p.intervalNanos));
            var (next, plan) := Planned(p, now, p.fps);
            && next.nextDeadline == Some(Grid(first, slot + 1, p.intervalNanos))
            && (plan.sleepNanos, plan.skippedDeadlines) == PlanFor(first, used, slot, now, p.intervalNanos)
            && !plan.clockDiscontinuity
  {
    var slot := Max(used + 1, SlotsTo(first, now, p.intervalNanos));
    hide Grid, IntervalForFps, SlotsTo, CaughtUp;
    GridStep(first, slot, p.intervalNanos);
    CaughtUpOnGrid(first, used + 1, now, p.intervalNanos);
  }

  /** Over any run at one rate, with a clock that never goes back and below saturation, every
      call aims at its slot of the grid that began with the first call, sleeps until it and
      reports the slots passed over. */
  lemma {:induction false} EveryDeadlineIsOnTheGrid(fps: U32, nows: seq<U64>)
    requires 1 <= fps <= NANOS_PER_SECOND && NeverGoesBack(nows)
    requires BelowSaturation(nows, IntervalForFps(fps))
    ensures var interval := IntervalForFps(fps); var last := |nows| - 1; var slot := Slot(nows, interval);
            var plan := LastPlan(fps, nows);
            && PacerAfter(fps, nows).nextDeadline == Some(Grid(nows[0], slot + 1, interval))
            && (plan.sleepNanos, plan.skippedDeadlines) ==
               PlanFor(nows[0], Slot(nows[..last], interval), slot, nows[last], interval)
            && !plan.clockDiscontinuity
  {
    var interval := IntervalForFps(fps);
    var last := |nows| - 1;
    var before := nows[..last];
    SlotIs(nows, interval);
    hide IntervalForFps, Slot, Grid, SlotsTo, Planned, PlanFor;
    if last > 0 {
      EarlierIsBelowSaturation(nows, interval);
      EveryDeadlineIsOnTheGrid(fps, before);
    } else {
      SlotOfNothing(before, interval);
      GridStep(nows[0], 0, interval);
    }
    OneMoreCall(PacerAfter(fps, before), nows[0], Slot(before, interval), nows[last]);
  }

  /** At saturation the grid ends: the pacer is on it exactly while the next deadline fits. */
  lemma OnTheGridExactlyBelowSaturation(fps: U32, nows: seq<U64>)
    requires 1 <= fps <= NANOS_PER_SECOND && NeverGoesBack(nows) && |nows| > 0
    ensures BelowSaturation(nows, IntervalForFps(fps)) <==>
            PacerAfter(fps, nows).nextDeadline.value == Grid(nows[0], Slot(nows, IntervalForFps(fps)) + 1, IntervalForFps(fps))
  {
    if BelowSaturation(nows, IntervalForFps(fps)) {
      EveryDeadlineIsOnTheGrid(fps, nows);
    }
    hide Grid, IntervalForFps, Slot;
  }

  /** Asked first at the last nanosecond a u64 can name, a pacer of any rate is off its grid
      at once. */
  lemma LastNanosecondIsOffTheGrid(fps: U32, nows: seq<U64>)
    requires 1 <= fps <= NANOS_PER_SECOND && nows == [MAX_U64]
    ensures !BelowSaturation(nows, IntervalForFps(fps))
    ensures PacerAfter(fps, nows).nextDeadline.value == MAX_U64 <
            Grid(nows[0], Slot(nows, IntervalForFps(fps)) + 1, IntervalForFps(fps))
  {
    var interval := IntervalForFps(fps);
    FirstCallAims(fps, nows);
    SlotGrows(nows, interval);
    GridStep(nows[0], 0, interval);
    hide IntervalForFps, Grid, Slot, PacerAfter;
  }

  lemma FirstCallAims(fps: U32, nows: seq<U64>)
    requires 1 <= fps <= NANOS_PER_SECOND && |nows| == 1
    ensures PacerAfter(fps, nows).nextDeadline.value == SaturatingAdd(nows[0], IntervalForFps(fps))
  {
    hide IntervalForFps;
    assert PacerAfter(fps, nows[..0]) == NewPacer(fps);
  }

  lemma SlotOfNothing(nows: seq<U64>, interval: nat)
    requires |nows| == 0 && interval > 0
    ensures Slot(nows, interval) == -1
  {
  }

  lemma GridGrows(first: nat, slot: nat, later: nat, interval: nat)
    requires slot <= later
    ensures Grid(first, slot, interval) <= Grid(first, later, interval)
  {
    MulMonotone(slot, later, interval);
  }

  lemma GridStep(first: nat, slot: nat, interval: nat)
    ensures Grid(first, slot + 1, interval) == Grid(first, slot, interval) + interval
    ensures Grid(first, 0, interval) == first
  {
  }

  /** The n-th deadline lies (n - 1 + deadlines skipped so far) intervals after the first. */
  lemma {:induction false} DeadlinesAreConserved(fps: U32, nows: seq<U64>)
    requires 1 <= fps <= NANOS_PER_SECOND && NeverGoesBack(nows)
    requires BelowSaturation(nows, IntervalForFps(fps))
    ensures Slot(nows, IntervalForFps(fps)) == |nows| - 1 + TotalSkipped(fps, nows)
  {
    var interval := IntervalForFps(fps);
    var last := |nows| - 1;
    EveryDeadlineIsOnTheGrid(fps, nows);
    hide IntervalForFps, Grid, LastPlan, Slot;
    if last > 0 {
      EarlierIsBelowSaturation(nows, interval);
      DeadlinesAreConserved(fps, nows[..last]);
    } else {
      SlotOfNothing(nows[..last], interval);
    }
  }

  /** A second's worth of frames, none skipped, takes a second, or less by fewer nanoseconds
      than there are frames. */
  lemma ASecondHoldsItsFrames(fps: U32, nows: seq<U64>)
    requires 1 <= fps <= NANOS_PER_SECOND && NeverGoesBack(nows) && |nows| == fps
    requires BelowSaturation(nows, IntervalForFps(fps)) && TotalSkipped(fps, nows) == 0
    ensures PacerAfter(fps, nows).nextDeadline.Some?
    ensures 1_000_000_000 - fps < PacerAfter(fps, nows).nextDeadline.value - nows[0] <= 1_000_000_000
  {
    var interval := IntervalForFps(fps);
    assert FitsASecond(interval, fps);
    DeadlinesAreConserved(fps, nows);
    EveryDeadlineIsOnTheGrid(fps, nows);
    hide IntervalForFps, Slot, TotalSkipped, LastPlan, FitsASecond, Grid, PacerAfter;
    GridSpansASecond(nows[0], fps, interval);
  }

  lemma GridSpansASecond(first: nat, rate: nat, interval: nat)
    requires FitsASecond(interval, rate)
    ensures 1_000_000_000 - rate < Grid(first, rate, interval) - first <= 1_000_000_000
  {
    Distribute(interval, 1, rate);
    assert rate * interval == interval * rate;
  }

  lemma AimIsNear(first: nat, now: nat, interval: nat, slot: nat)
    requires interval > 0 && slot <= SlotsTo(first, now, interval)
    ensures Grid(first, slot, interval) < now + interval
  {
    var slots := SlotsTo(first, now, interval);
    var before := slots - 1;
    SlotsToBounds(first, now, interval);
    Distribute(before, 1, interval);
    GridGrows(first, slot, slots, interval);
  }

  /** A caller that comes back no earlier than its last deadline sleeps at most one interval. */
  lemma SleepIsAtMostOneInterval(fps: U32, nows: seq<U64>)
    requires 1 <= fps <= NANOS_PER_SECOND && NeverGoesBack(nows)
    requires BelowSaturation(nows, IntervalForFps(fps))
    requires |nows| > 1 ==>
               Grid(nows[0], Slot(nows[..|nows| - 1], IntervalForFps(fps)), IntervalForFps(fps)) <= nows[|nows| - 1]
    ensures LastPlan(fps, nows).sleepNanos <= IntervalForFps(fps)
  {
    var interval := IntervalForFps(fps);
    var last := |nows| - 1;
    EveryDeadlineIsOnTheGrid(fps, nows);
    SlotIs(nows, interval);
    hide IntervalForFps, LastPlan, Slot, SlotsTo, Grid;
    if Slot(nows, interval) <= SlotsTo(nows[0], nows[last], interval) {
      AimIsNear(nows[0], nows[last], interval, Slot(nows, interval));
    }
    if last > 0 {
      GridStep(nows[0], Slot(nows[..last], interval), interval);
    } else {
      SlotOfNothing(nows[..last], interval);
    }
  }
}
