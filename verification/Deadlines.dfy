/** The two deadline computations of pcsx2/Counters.cpp, VitaGetNextNonHsyncCounterCycle and
    cpuRcntSet, against the tests they schedule. */
module Deadlines {

  import opened Words
  import opened EeTimers
  import Arithmetic
  import Iop = IopCounters

  // ----- VitaGetNextNonHsyncCounterCycle

  /** The first cycle, not before `now`, at which the counter has advanced by `ticks`. */
  function CycleAfter(c: Counter, ticks: nat, now: nat): nat {
    now + Max(0, ticks * c.rate - (now - c.startCycle))
  }

  function CounterDeadline(c: Counter, now: nat): nat {
    if PastTarget(c) then now + 4
    else
      var overflow := CycleAfter(c, TWO_16 - c.count, now);
      if HasFutureTarget(c.target) then overflow
      else Min(overflow, CycleAfter(c, c.target - c.count, now))
  }

  function VsyncEdge(s: State): nat {
    s.vsync.startCycle + U32(s.vsync.deltaCycles)
  }

  /** The minimum over the first `n` counters. */
  function DeadlineUpTo(s: State, n: nat): nat
    requires n <= 4
  {
    if n == 0 then VsyncEdge(s)
    else if !IsWatched(s, n - 1) then DeadlineUpTo(s, n - 1)
    else Min(DeadlineUpTo(s, n - 1), CounterDeadline(s.counters[n - 1], s.cycle))
  }

  function NonHsyncDeadline(s: State): nat {
    DeadlineUpTo(s, 4)
  }

  // ----- what the deadline is a deadline for

  /** The overflow or the target test of rcntUpdate acts on this counter. */
  predicate Fires(c: Counter) {
    c.count > 0xFFFF || c.count >= c.target
  }

  /** Running rcntUpdate at cycle `t` would find this counter past a threshold. */
  predicate CounterDue(c: Counter, t: nat) {
    Fires(Sync(c, t, true))
  }

  predicate DueAt(s: State, t: nat) {
    || CpuTestCycle(t, s.vsync.startCycle, s.vsync.deltaCycles)
    || exists i :: 0 <= i < 4 && IsWatched(s, i) && CounterDue(s.counters[i], t)
  }

  /** Cycles at which none of the 32-bit differences in the tests wraps. */
  predicate InRange(s: State, t: nat) {
    && s.vsync.deltaCycles >= 0
    && t - s.vsync.startCycle < TWO_31 && s.vsync.startCycle - t <= TWO_31
    && forall i :: 0 <= i < 4 && IsWatched(s, i) ==>
         s.counters[i].startCycle <= s.cycle && t < s.counters[i].startCycle + TWO_32 && s.counters[i].rate > 1
  }

  lemma SyncedCount(c: Counter, t: nat)
    requires c.mode.clockSource != EXTERNAL_CLOCK && c.rate > 1
    requires c.startCycle <= t < c.startCycle + TWO_32 && c.count <= TWO_16
    ensures Sync(c, t, true).count == c.count + (t - c.startCycle) / c.rate
  {
    var ticks := (t - c.startCycle) / c.rate;
    Arithmetic.DivShrinks(t - c.startCycle, c.rate);
    CountAfter(c, t, ticks);
  }

  lemma CountAfter(c: Counter, t: nat, ticks: nat)
    requires c.mode.clockSource != EXTERNAL_CLOCK
    requires c.startCycle <= t && (t - c.startCycle) / c.rate == ticks
    requires t - c.startCycle < TWO_64 && c.count + ticks < TWO_32
    ensures Sync(c, t, true).count == c.count + ticks
  {
    assert U64(t - c.startCycle) == t - c.startCycle;
    assert U32(ticks) == ticks;
  }

  /** One counter not past its target: the tests act exactly from its deadline on. */
  lemma CounterDeadlineExact(c: Counter, now: nat, t: nat)
    requires c.mode.clockSource != EXTERNAL_CLOCK && c.rate > 1 && !PastTarget(c)
    requires c.startCycle <= now <= t < c.startCycle + TWO_32
    ensures CounterDue(c, t) <==> t >= CounterDeadline(c, now)
  {
    SyncedCount(c, t);
    var x := t - c.startCycle;
    Arithmetic.DivAtLeast(x, c.rate, TWO_16 - c.count);
    Arithmetic.DivAtLeast(x, c.rate, c.target - c.count);
    if HasFutureTarget(c.target) {
      assert c.target >= FUTURE_TARGET;
    }
  }

  lemma PastCounterIsDue(c: Counter, t: nat)
    requires c.mode.clockSource != EXTERNAL_CLOCK && c.rate > 1 && PastTarget(c)
    requires c.startCycle <= t < c.startCycle + TWO_31 && c.count < TWO_31
    ensures CounterDue(c, t)
  {
    var ticks := (t - c.startCycle) / c.rate;
    Arithmetic.DivShrinks(t - c.startCycle, c.rate);
    CountAfter(c, t, ticks);
  }

  /** Something among vsync and the watched counters before `n` that are not past their target
      is due at `t`. */
  predicate DueAmong(s: State, t: nat, n: nat)
    requires n <= 4
  {
    || CpuTestCycle(t, s.vsync.startCycle, s.vsync.deltaCycles)
    || exists i :: 0 <= i < n && IsWatched(s, i) && !PastTarget(s.counters[i]) && CounterDue(s.counters[i], t)
  }

  predicate NonePast(s: State, n: nat)
    requires n <= 4
  {
    forall i :: 0 <= i < n && IsWatched(s, i) ==> !PastTarget(s.counters[i])
  }

  lemma {:induction false} DeadlineUpToExact(s: State, t: nat, n: nat)
    requires n <= 4 && InRange(s, t) && s.cycle <= t && NonePast(s, n)
    ensures DueAmong(s, t, n) <==> t >= DeadlineUpTo(s, n)
  {
    if n > 0 {
      DeadlineUpToExact(s, t, n - 1);
      if IsWatched(s, n - 1) {
        CounterDeadlineExact(s.counters[n - 1], s.cycle, t);
      }
    }
  }

  /** When no watched counter is past its target, the deadline is exactly the first cycle at
      which vsync is due or a watched counter's overflow or target test acts: nothing is due
      before it, and from it on something is. */
  lemma DeadlineIsExact(s: State, t: nat)
    requires InRange(s, t) && s.cycle <= t && NonePast(s, 4)
    ensures DueAt(s, t) <==> t >= NonHsyncDeadline(s)
  {
    DeadlineUpToExact(s, t, 4);
  }

  // ----- with counters past their target

  /** Past-target counters contribute `now + 4`, so the deadline has passed exactly when
      something else is due now. */
  lemma {:induction false} DeadlinePassedIff(s: State, n: nat)
    requires n <= 4 && InRange(s, s.cycle)
    ensures DueAmong(s, s.cycle, n) <==> DeadlineUpTo(s, n) <= s.cycle
  {
    if n > 0 {
      DeadlinePassedIff(s, n - 1);
      if IsWatched(s, n - 1) && !PastTarget(s.counters[n - 1]) {
        CounterDeadlineExact(s.counters[n - 1], s.cycle, s.cycle);
      }
    }
  }

  ghost predicate Exact(s: State) {
    forall t: nat {:trigger DueAt(s, t)} :: s.cycle <= t && InRange(s, t) ==> (DueAt(s, t) <==> t >= NonHsyncDeadline(s))
  }

  /** Exactness, decided: a watched counter already past its target is answered with "in four
      cycles" although it is due now, and this is the only way to be late.  The deadline is exact
      iff no watched counter is past its target, or something else is due already. */
  lemma DeadlineExactIff(s: State)
    requires InRange(s, s.cycle)
    requires forall i :: 0 <= i < 4 ==> s.counters[i].count < TWO_31 && s.cycle < s.counters[i].startCycle + TWO_31
    ensures Exact(s) <==> NonePast(s, 4) || DueAmong(s, s.cycle, 4)
  {
    DeadlinePassedIff(s, 4);
    if DueAmong(s, s.cycle, 4) {
      forall t: nat | s.cycle <= t && InRange(s, t)
        ensures DueAt(s, t)
      {
        StaysDue(s, t);
      }
    } else if !NonePast(s, 4) {
      var i :| 0 <= i < 4 && IsWatched(s, i) && PastTarget(s.counters[i]);
      PastCounterIsDue(s.counters[i], s.cycle);
      assert DueAt(s, s.cycle);
    } else {
      forall t: nat | s.cycle <= t && InRange(s, t)
        ensures DueAt(s, t) <==> t >= NonHsyncDeadline(s)
      {
        DeadlineIsExact(s, t);
      }
    }
  }

  /** An instance: counter 0 has its target interrupt enabled and was synced late, so that its
      count is beyond its target. It is due at cycle 100, but the deadline says 104. */
  lemma LateDeadline(iop: Iop.State) returns (s: State)
    ensures InRange(s, s.cycle) && s.cycle == 100 && DueAt(s, 100) && NonHsyncDeadline(s) == 104
  {
    var idle := Mode(0, false, false, 0, false, false, false, false, false, false);
    var rest := Counter(0, idle, 0xFFFF, 2, 0, 100);
    var late := Counter(20, idle.(isCounting := true, targetInterrupt := true), 10, 2, 0, 100);
    s := State(100, [late, rest, rest, rest], HSync(HRender, 100, 50), VSync(VRender, 0, 5000),
               50, 50, false, false, false, iop, 100, 0, []);
    assert IsWatched(s, 0) && PastTarget(late);
    PastCounterIsDue(late, 100);
    assert DeadlineUpTo(s, 1) == 104;
    assert DeadlineUpTo(s, 2) == 104;
    assert DeadlineUpTo(s, 3) == 104;
  }

  lemma StaysDue(s: State, t: nat)
    requires InRange(s, s.cycle) && InRange(s, t) && s.cycle <= t && DueAmong(s, s.cycle, 4)
    ensures DueAt(s, t)
  {
    if !CpuTestCycle(s.cycle, s.vsync.startCycle, s.vsync.deltaCycles) {
      var i :| 0 <= i < 4 && IsWatched(s, i) && !PastTarget(s.counters[i]) && CounterDue(s.counters[i], s.cycle);
      CounterDeadlineExact(s.counters[i], s.cycle, s.cycle);
      CounterDeadlineExact(s.counters[i], s.cycle, t);
    }
  }

  // ----- cpuRcntSet

  /** The ranges the register interface keeps: an internal clock divides by at most 512, a
      target is 16 bits wide unless postponed, and no counter lags by 2^31 cycles. */
  predicate InternalRanges(s: State, i: nat)
    requires i < 4
  {
    IsWatched(s, i) ==>
      var c := s.counters[i];
      && 2 <= c.rate <= 512
      && (!HasFutureTarget(c.target) ==> c.target <= 0xFFFF)
      && c.startCycle <= s.cycle < c.startCycle + TWO_31
  }

  predicate SyncRanges(s: State) {
    && s.vsync.deltaCycles >= 0 && s.hsync.deltaCycles >= 0
    && s.vsync.startCycle <= s.cycle < s.vsync.startCycle + TWO_31
    && s.hsync.startCycle <= s.cycle < s.hsync.startCycle + TWO_31
  }

  lemma S32Fits(x: int)
    requires -TWO_31 <= x < TWO_31
    ensures S32(x) == x
  {
  }

  lemma DeltaUntilIsExact(c: Counter, ticks: nat, now: nat)
    requires ticks <= TWO_16 && 2 <= c.rate <= 512 && c.startCycle <= now < c.startCycle + TWO_31
    ensures DeltaUntil(c, ticks, now, now) == ticks * c.rate - (now - c.startCycle)
  {
    Arithmetic.MulBound(ticks, c.rate, TWO_16, 512);
    var product := ticks * c.rate;
    assert U32(product) == product;
    S32Fits(product - (now - c.startCycle));
  }

  lemma SyncDeltaIsExact(s: State)
    requires SyncRanges(s)
    ensures s.cycle + SyncDelta(s) == Min(Edge(s.hsync), VsyncEdge(s))
  {
    S32Fits(s.vsync.deltaCycles - (s.cycle - s.vsync.startCycle));
    S32Fits(s.hsync.deltaCycles - (s.cycle - s.hsync.startCycle));
  }

  lemma RcntSetAddsDeadline(delta: s32, c: Counter, now: nat)
    requires !PastTarget(c)
    requires 2 <= c.rate <= 512 && c.startCycle <= now < c.startCycle + TWO_31
    requires !HasFutureTarget(c.target) ==> c.target <= 0xFFFF
    ensures Max(now, now + RcntSet(delta, c, true, now, now)) == Min(Max(now, now + delta), CounterDeadline(c, now))
  {
    DeltaUntilIsExact(c, TWO_16 - c.count, now);
    if !HasFutureTarget(c.target) {
      DeltaUntilIsExact(c, c.target - c.count, now);
    }
  }

  /** The last watched counter before `n` that is past its target, or -1. */
  function LastPast(s: State, n: nat): (p: int)
    requires n <= 4
    ensures -1 <= p < n && (p >= 0 ==> IsWatched(s, p) && PastTarget(s.counters[p]))
    ensures forall i :: p < i < n && IsWatched(s, i) ==> !PastTarget(s.counters[i])
  {
    if n == 0 then -1
    else if IsWatched(s, n - 1) && PastTarget(s.counters[n - 1]) then n - 1
    else LastPast(s, n - 1)
  }

  /** Four cycles from now, or the earlier deadline of a watched counter after `p` and before `n`. */
  function Since(s: State, p: nat, n: nat): nat
    requires p < n <= 4
  {
    if n == p + 1 then s.cycle + 4
    else if !IsWatched(s, n - 1) then Since(s, p, n - 1)
    else Min(Since(s, p, n - 1), CounterDeadline(s.counters[n - 1], s.cycle))
  }

  /** What the loop of cpuRcntSet has scheduled after `n` counters: the last counter past its
      target throws away everything found before it. */
  function Scheduled(s: State, n: nat): nat
    requires n <= 4
  {
    var p := LastPast(s, n);
    if p < 0 then Max(s.cycle, Min(Edge(s.hsync), DeadlineUpTo(s, n))) else Since(s, p, n)
  }

  lemma {:induction false} RcntSetLeaves(s: State, n: nat)
    requires n <= 4 && s.nextStart == s.cycle && SyncRanges(s)
    requires forall i :: 0 <= i < 4 ==> InternalRanges(s, i)
    ensures Max(s.cycle, s.cycle + RcntSetUpTo(SyncDelta(s), s, n)) == Scheduled(s, n)
  {
    if n == 0 {
      SyncDeltaIsExact(s);
    } else {
      RcntSetLeaves(s, n - 1);
      assert InternalRanges(s, n - 1);
      if IsWatched(s, n - 1) && !PastTarget(s.counters[n - 1]) {
        RcntSetAddsDeadline(RcntSetUpTo(SyncDelta(s), s, n - 1), s.counters[n - 1], s.cycle);
      }
    }
  }

  /** What cpuRcntSet schedules, counters past their target included. */
  lemma CpuRcntSetSchedules(s: State)
    requires SyncRanges(s) && forall i :: 0 <= i < 4 ==> InternalRanges(s, i)
    ensures CpuRcntSet(s).nextStart + CpuRcntSet(s).nextDelta == Scheduled(s, 4)
  {
    var t := s.(nextStart := s.cycle);
    assert SyncDelta(t) == SyncDelta(s);
    forall i | 0 <= i < 4
      ensures InternalRanges(t, i)
    {
      assert InternalRanges(s, i);
    }
    RcntSetLeaves(t, 4);
    SameSchedule(s, t, 4);
  }

  lemma {:induction false} SameSchedule(s: State, t: State, n: nat)
    requires n <= 4 && t == s.(nextStart := t.nextStart)
    ensures DeadlineUpTo(s, n) == DeadlineUpTo(t, n) && LastPast(s, n) == LastPast(t, n)
    ensures forall p: nat :: p < n ==> Since(s, p, n) == Since(t, p, n)
  {
    if n > 0 {
      SameSchedule(s, t, n - 1);
    }
  }

  /** The whole minimum, split at a counter past its target. */
  lemma {:induction false} DeadlineSplits(s: State, p: nat, n: nat)
    requires p < n <= 4 && IsWatched(s, p) && PastTarget(s.counters[p])
    ensures DeadlineUpTo(s, n) == Min(DeadlineUpTo(s, p), Since(s, p, n))
    decreases n
  {
    if n > p + 1 {
      DeadlineSplits(s, p, n - 1);
    }
  }

  lemma {:induction false} SinceIsNotPast(s: State, p: nat, n: nat)
    requires p < n <= 4
    ensures s.cycle <= Since(s, p, n) <= s.cycle + 4
    decreases n
  {
    if n > p + 1 {
      SinceIsNotPast(s, p, n - 1);
    }
  }

  /** With no watched counter past its target, cpuRcntSet schedules the earlier of the next
      horizontal edge and the deadline above, clamped to now. */
  lemma CpuRcntSetSchedulesTheMinimum(s: State)
    requires SyncRanges(s) && NonePast(s, 4)
    requires forall i :: 0 <= i < 4 ==> InternalRanges(s, i)
    ensures var s' := CpuRcntSet(s);
            s'.nextStart + s'.nextDelta == Max(s.cycle, Min(Edge(s.hsync), NonHsyncDeadline(s)))
  {
    CpuRcntSetSchedules(s);
  }

  /** Decided for every state: cpuRcntSet schedules that minimum exactly when no watched counter
      is past its target, or nothing that was found before the last such counter is due sooner
      than the four cycles it asks for and the counters after it. */
  lemma CpuRcntSetMinimumIff(s: State)
    requires SyncRanges(s) && forall i :: 0 <= i < 4 ==> InternalRanges(s, i)
    ensures var p := LastPast(s, 4);
            CpuRcntSet(s).nextStart + CpuRcntSet(s).nextDelta == Max(s.cycle, Min(Edge(s.hsync), NonHsyncDeadline(s)))
            <==> p < 0 || Since(s, p, 4) <= Max(s.cycle, Min(Edge(s.hsync), DeadlineUpTo(s, p)))
  {
    CpuRcntSetSchedules(s);
    var p := LastPast(s, 4);
    if p >= 0 {
      DeadlineSplits(s, p, 4);
      SinceIsNotPast(s, p, 4);
    }
  }

  /** An instance: the horizontal edge is due at cycle 100, and counter 0, past its target,
      postpones it to cycle 104. */
  lemma LostEdge(iop: Iop.State) returns (s: State)
    ensures SyncRanges(s) && (forall i :: 0 <= i < 4 ==> InternalRanges(s, i))
    ensures s.cycle == 100 && Edge(s.hsync) == 100
    ensures CpuRcntSet(s).nextStart + CpuRcntSet(s).nextDelta == 104
  {
    var idle := Mode(0, false, false, 0, false, false, false, false, false, false);
    var rest := Counter(0, idle, 0xFFFF, 2, 0, 100);
    var late := Counter(20, idle.(isCounting := true, targetInterrupt := true), 10, 2, 0, 100);
    s := State(100, [late, rest, rest, rest], HSync(HRender, 50, 50), VSync(VRender, 0, 5000),
               50, 50, false, false, false, iop, 100, 0, []);
    assert IsWatched(s, 0) && PastTarget(s.counters[0]);
    OnlyPast(s, 0, 4);
    CpuRcntSetSchedules(s);
  }

  lemma {:induction false} OnlyPast(s: State, p: nat, n: nat)
    requires p < n <= 4 && IsWatched(s, p) && PastTarget(s.counters[p])
    requires forall i :: p < i < n ==> !IsWatched(s, i)
    ensures LastPast(s, n) == p && Since(s, p, n) == s.cycle + 4
    decreases n
  {
    if n > p + 1 {
      OnlyPast(s, p, n - 1);
    }
  }
}
