/** What the gate modes of IOP counter 0 promise (pcsx2/IopCounters.cpp:508-648): counting only while the picture
    is drawn, clearing at the end of each blank, counting only while it is blank, or starting at the end of the
    next blank. */
module IopGates {

  import opened Words
  import opened IopCounters
  import Arithmetic
  import T = Ticks

  /** On its grid of ticks, with a clock whose rate is a power of two. */
  ghost predicate OnGrid(c: Counter, t: nat) {
    && c.rate != HBLANK_RATE && T.IsPowerOfTwo(c.rate) && c.startCycle % c.rate == 0
    && c.startCycle <= t < c.startCycle + TWO_32
  }

  /** A sync of a counter that counts. */
  lemma SyncCounts(c: Counter, t: nat, blanking: bool)
    requires CanCount(c, blanking) && c.rate != HBLANK_RATE && c.startCycle <= t < c.startCycle + TWO_32
    ensures Sync(c, t, blanking).count == c.count + (t - c.startCycle) / c.rate
    ensures OnGrid(c, t) ==> Sync(c, t, blanking).startCycle == c.rate * (t / c.rate)
  {
    var x := t - c.startCycle;
    var change, advance := x / c.rate, x / c.rate * c.rate;
    Fits(x, c.rate);
    SyncBy(c, t, blanking, change, advance);
    if OnGrid(c, t) {
      GridMoves(c.startCycle, c.rate, t, change, advance);
    }
  }

  lemma Fits(x: nat, rate: nat)
    requires rate > 0
    ensures 0 <= x / rate <= x && 0 <= x / rate * rate <= x
  {
    Arithmetic.DivShrinks(x, rate);
    Arithmetic.LastMultiple(x, rate);
    Arithmetic.MulMonotone(0, x / rate, rate);
  }

  lemma SyncBy(c: Counter, t: nat, blanking: bool, change: nat, advance: nat)
    requires CanCount(c, blanking) && c.rate != HBLANK_RATE && c.startCycle <= t < c.startCycle + TWO_32
    requires change == (t - c.startCycle) / c.rate < TWO_32 && advance == change * c.rate < TWO_32
    ensures var d := Sync(c, t, blanking);
            && d.count == c.count + change
            && d.startCycle == if change > 0 then AndNot(c.startCycle + advance, c.rate - 1) else c.startCycle
  {
    ChangeIs(c, t, change);
    SyncAdds(c, t, blanking, change, AddTicks(Rearmed(c), change));
    AddTicksBy(Rearmed(c), change, advance);
  }

  lemma ChangeIs(c: Counter, t: nat, change: nat)
    requires c.startCycle <= t < c.startCycle + TWO_32 && change == (t - c.startCycle) / c.rate < TWO_32
    ensures Change(c, t) == change
  {
    assert U64(t - c.startCycle) == t - c.startCycle;
  }

  lemma SyncAdds(c: Counter, t: nat, blanking: bool, change: u32, d: Counter)
    requires CountsCycles(c, blanking) && Change(c, t) == change && d == AddTicks(Rearmed(c), change)
    ensures Sync(c, t, blanking) == d
  {
  }

  lemma AddTicksBy(c: Counter, change: nat, advance: nat)
    requires change < TWO_32 && advance == change * c.rate < TWO_32
    ensures var d := AddTicks(c, change);
            && d.count == c.count + change
            && d.startCycle == if change > 0 then AndNot(c.startCycle + advance, c.rate - 1) else c.startCycle
  {
    assert U32(advance) == advance;
  }

  lemma GridMoves(start: nat, rate: nat, t: nat, change: nat, advance: nat)
    requires rate > 0 && T.IsPowerOfTwo(rate) && start % rate == 0 && start <= t
    requires change == (t - start) / rate && advance == change * rate
    ensures AndNot(start + advance, rate - 1) == rate * (t / rate) == start + advance
  {
    var q := start / rate;
    assert q * rate == start by {
      Arithmetic.LastMultiple(start, rate);
    }
    assert t / rate == q + change by {
      Arithmetic.DivInTwoSteps(start, t, rate);
    }
    Product(q, change, rate, start, advance);
    T.OnTick(start, rate, q, change, advance);
    T.MaskRoundsDown(start + advance, rate);
  }

  lemma Product(a: int, b: int, n: int, x: int, y: int)
    requires a * n == x && b * n == y
    ensures n * (a + b) == x + y && x == n * a
  {
  }

  /** What a read at `u` finds. */
  function Reading(s: State, u: nat): nat {
    Sync(s.c0, u, s.hBlanking).count
  }

  /** Ticks of the clock between two cycles. */
  function ClockTicks(rate: rate32, t: nat, u: nat): int {
    u / rate - t / rate
  }

  /** After the blank has started at `t`, by gate mode; a stopped counter stays where it is, but for mode 2, which
      this starts. */
  function AfterStart(c: Counter, t: nat, u: nat): int {
    if c.mode.gateMode == 2 then (u - t) / c.rate
    else if c.mode.gateMode == 0 then (if c.mode.stopped then c.count else c.count + (t - c.startCycle) / c.rate) % TWO_16
    else if c.mode.stopped then c.count
    else c.count + (u - c.startCycle) / c.rate
  }

  /** After it has ended at `t`; a counter stopped in mode 3 is started by this. */
  function AfterEnd(c: Counter, t: nat, u: nat): int {
    if c.mode.gateMode == 0 then c.count + (if c.mode.stopped then 0 else ClockTicks(c.rate, t, u))
    else if c.mode.gateMode == 1 then (if c.mode.stopped then 0 else ClockTicks(c.rate, t, u))
    else if c.mode.gateMode == 2 then 0
    else c.count + (if c.mode.stopped then ClockTicks(c.rate, t, u) else (u - c.startCycle) / c.rate)
  }

  /** A counter that has just been put on the tick of cycle `t`, read at `u`. */
  lemma ReadOnTick(c: Counter, t: nat, u: nat, blanking: bool)
    requires c.rate != HBLANK_RATE && CanCount(c, blanking) && c.startCycle == c.rate * (t / c.rate)
    requires t <= u < t + TWO_32 - c.rate
    ensures Sync(c, u, blanking).count == c.count + ClockTicks(c.rate, t, u)
  {
    Arithmetic.LastMultiple(t, c.rate);
    SyncCounts(c, u, blanking);
    Arithmetic.DivInTwoSteps(t, u, c.rate);
  }

  /** The gate at the start of the blank. */
  lemma BlankStart(s: State, u: nat)
    requires s.c0.mode.gateEnable && s.c0.mode.gateMode < 4 && !s.hBlanking && OnGrid(s.c0, s.cycle)
    requires s.cycle <= u < s.c0.startCycle + TWO_32 && u < s.cycle + TWO_32 - s.c0.rate
    ensures HBlankStart(s).hBlanking && Reading(HBlankStart(s), u) == AfterStart(s.c0, s.cycle, u)
  {
    var c, d := s.c0, StartGate(s.c0, s.cycle, false);
    assert HBlankStart(s).c0 == d;
    if c.mode.gateMode == 0 {
      ClosedAtStart(c, s.cycle, u);
    } else if c.mode.gateMode == 2 {
      SyncCounts(d, u, true);
    } else if !c.mode.stopped {
      SyncCounts(c, u, true);
    }
  }

  /** A counter that does not count keeps its count, or loses it in mode 2. */
  lemma SyncIdle(c: Counter, t: nat, blanking: bool)
    requires !CanCount(c, blanking)
    ensures Sync(c, t, blanking).count == if c.mode.gateEnable && c.mode.gateMode == 2 then 0 else c.count
  {
  }

  lemma ClosedAtStart(c: Counter, t: nat, u: nat)
    requires c.mode.gateEnable && c.mode.gateMode == 0 && OnGrid(c, t)
    ensures Sync(StartGate(c, t, false), u, true).count == AfterStart(c, t, u)
  {
    var d := StartGate(c, t, false);
    assert !CanCount(d, true) && d.mode.gateMode == 0;
    SyncIdle(d, u, true);
    if c.mode.stopped {
      SyncIdle(c, t, false);
    } else {
      SyncCounts(c, t, false);
    }
  }

  /** And at its end. */
  lemma BlankEnd(s: State, u: nat)
    requires s.c0.mode.gateEnable && s.c0.mode.gateMode < 4 && s.hBlanking && OnGrid(s.c0, s.cycle)
    requires s.cycle <= u < s.c0.startCycle + TWO_32 && u < s.cycle + TWO_32 - s.c0.rate
    ensures !HBlankEnd(s).hBlanking && Reading(HBlankEnd(s), u) == AfterEnd(s.c0, s.cycle, u)
  {
    var c, t := s.c0, s.cycle;
    assert HBlankEnd(s).c0 == EndGate(c, t, true);
    if c.mode.gateMode == 0 {
      OpenedAtEnd(c, t, u);
    } else if c.mode.gateMode == 3 {
      StartedAtEnd(c, t, u);
    } else {
      ClearedAtEnd(c, t, u);
    }
  }

  lemma OpenedAtEnd(c: Counter, t: nat, u: nat)
    requires c.mode.gateEnable && c.mode.gateMode == 0 && OnGrid(c, t) && t <= u < t + TWO_32 - c.rate
    ensures Sync(EndGate(c, t, true), u, false).count == AfterEnd(c, t, u)
  {
    var d := EndGate(c, t, true);
    T.MaskRoundsDown(t, c.rate);
    if c.mode.stopped {
      SyncIdle(d, u, false);
    } else {
      ReadOnTick(d, t, u, false);
    }
  }

  lemma StartedAtEnd(c: Counter, t: nat, u: nat)
    requires c.mode.gateEnable && c.mode.gateMode == 3 && OnGrid(c, t)
    requires t <= u < c.startCycle + TWO_32 && u < t + TWO_32 - c.rate
    ensures Sync(EndGate(c, t, true), u, false).count == AfterEnd(c, t, u)
  {
    if c.mode.stopped {
      T.MaskRoundsDown(t, c.rate);
      ReadOnTick(EndGate(c, t, true), t, u, false);
    } else {
      SyncCounts(c, u, false);
    }
  }

  lemma ClearedAtEnd(c: Counter, t: nat, u: nat)
    requires c.mode.gateEnable && (c.mode.gateMode == 1 || c.mode.gateMode == 2) && OnGrid(c, t) && t <= u < t + TWO_32 - c.rate
    ensures Sync(EndGate(c, t, true), u, false).count == AfterEnd(c, t, u)
  {
    var d := EndGate(c, t, true);
    assert d.count == 0 && SameGate(c, d);
    if c.mode.gateMode == 1 && !c.mode.stopped {
      SyncCounts(c, t, true);
      assert d.startCycle == c.rate * (t / c.rate);
      ReadOnTick(d, t, u, false);
    } else {
      SyncIdle(d, u, false);
    }
  }

  /** The clock of rate 3 that counter 0 can select is no power of two, and then reading adds ticks: two reads, at
      cycles 3 and 4, count two ticks where one has elapsed. */
  lemma PixelClockRunsFast(c: Counter)
    requires c.rate == 3 && c.startCycle == 0 && c.count == 0 && !c.mode.stopped && !c.mode.gateEnable
    ensures Sync(c, 4, false).count == 1 && Sync(Sync(c, 3, false), 4, false).count == 2
  {
    SyncBy(c, 4, false, 1, 3);
    SyncBy(c, 3, false, 1, 3);
    assert AndNot(1, 1) == 2 * AndNot(0, 0) == 0;
    assert AndNot(3, 2) == 2 * AndNot(1, 1) + 1;
    var d := Sync(c, 3, false);
    assert d.startCycle == 1 && d.count == 1 && CanCount(d, false);
    SyncBy(d, 4, false, 1, 3);
  }

  /** What the gates do to the target: where they clear the count, a target that was put off until after the
      overflow comes back into force; elsewhere it stays. */
  lemma TargetAtGates(s: State)
    requires s.c0.target < 2 * FUTURE_TARGET && s.c0.mode.gateMode < 4
    ensures var c, d := s.c0, HBlankStart(s).c0;
            d.target == if c.mode.gateEnable && c.mode.gateMode == 2 then c.target % FUTURE_TARGET else c.target
    ensures var c, d := s.c0, HBlankEnd(s).c0;
            d.target == if c.mode.gateEnable && (c.mode.gateMode == 1 || c.mode.gateMode == 2) then c.target % FUTURE_TARGET
                        else c.target
  {
    SyncKeepsTarget(s.c0, s.cycle, s.hBlanking);
    if s.c0.target >= FUTURE_TARGET {
      Arithmetic.Unique(s.c0.target, FUTURE_TARGET, 1, s.c0.target - FUTURE_TARGET);
    } else {
      Arithmetic.Unique(s.c0.target, FUTURE_TARGET, 0, s.c0.target);
    }
  }

  lemma SyncKeepsTarget(c: Counter, t: nat, blanking: bool)
    ensures Sync(c, t, blanking).target == c.target
  {
  }
}
