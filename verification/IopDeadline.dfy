/** The IOP counter deadline that each blank republishes (pcsx2/IopCounters.cpp:286-364), against the counts that
    counter 0 will have. */
module IopDeadline {

  import opened Words
  import opened IopCounters
  import Arithmetic

  /** What counter 0 will have counted by `u`. */
  function CountAt(c: Counter, u: nat): int {
    c.count + (u - c.startCycle) / c.rate
  }

  /** By `u` the counter has overflowed, or reached a target that is in force. */
  predicate Reaches(c: Counter, u: nat) {
    CountAt(c, u) >= TWO_16 || (!HasFutureTarget(c) && CountAt(c, u) >= c.target)
  }

  /** The cycle of the tick that completes `ticks`. */
  function CycleOf(c: Counter, ticks: nat): nat {
    c.startCycle + ticks * c.rate
  }

  /** Cycles and distances in which nothing wraps: the counter was synced fewer than 2^32 cycles ago, and the tick is
      after the last update by less than 2^31. */
  predicate InRange(s: State, ticks: nat) {
    && s.nextStart <= s.cycle && s.c0.startCycle <= s.cycle < s.c0.startCycle + TWO_32
    && s.nextStart <= CycleOf(s.c0, ticks) < s.nextStart + TWO_31
  }

  lemma DeltaIsDistance(s: State, ticks: nat)
    requires InRange(s, ticks)
    ensures DeltaUntil(s.c0, ticks, s.cycle, s.nextStart) == CycleOf(s.c0, ticks) - s.nextStart
  {
    assert U32(s.cycle - s.c0.startCycle) == s.cycle - s.c0.startCycle;
  }

  lemma NarrowsToLess(delta: s32, distance: nat)
    requires 0 <= delta && distance < TWO_31
    ensures Narrow(delta, distance) == Min(delta, distance)
  {
  }

  lemma CountsFrom(c: Counter, u: nat, ticks: nat)
    requires c.startCycle <= u
    ensures CountAt(c, u) >= c.count + ticks <==> u >= CycleOf(c, ticks)
  {
    Arithmetic.DivAtLeast(u - c.startCycle, c.rate, ticks);
  }

  /** A counter that counts cycles and is not past its target: a cycle is at or after the republished deadline if and
      only if it is at or after the one before, or the counter has overflowed or reached its target by then. */
  lemma DeadlineIsExact(s: State, u: nat)
    requires CanCount(s.c0, s.hBlanking) && s.c0.rate != HBLANK_RATE && !PastTarget(s.c0) && 0 <= s.nextDelta
    requires InRange(s, TWO_16 - s.c0.count) && (!HasFutureTarget(s.c0) ==> InRange(s, s.c0.target - s.c0.count))
    requires s.c0.startCycle <= u
    ensures s.nextStart + Publish(s).nextDelta <= u <==> s.nextStart + s.nextDelta <= u || Reaches(s.c0, u)
  {
    var c := s.c0;
    PublishedIs(s);
    CountsFrom(c, u, TWO_16 - c.count);
    if !HasFutureTarget(c) {
      CountsFrom(c, u, c.target - c.count);
    }
  }

  lemma PublishedIs(s: State)
    requires CanCount(s.c0, s.hBlanking) && s.c0.rate != HBLANK_RATE && !PastTarget(s.c0) && 0 <= s.nextDelta
    requires InRange(s, TWO_16 - s.c0.count) && (!HasFutureTarget(s.c0) ==> InRange(s, s.c0.target - s.c0.count))
    ensures var overflow := Min(s.nextDelta, CycleOf(s.c0, TWO_16 - s.c0.count) - s.nextStart);
            Publish(s).nextDelta == if HasFutureTarget(s.c0) then overflow
                                    else Min(overflow, CycleOf(s.c0, s.c0.target - s.c0.count) - s.nextStart)
  {
    var c := s.c0;
    var overflow := CycleOf(c, TWO_16 - c.count) - s.nextStart;
    DeltaIsDistance(s, TWO_16 - c.count);
    NarrowsToLess(s.nextDelta, overflow);
    if !HasFutureTarget(c) {
      DeltaIsDistance(s, c.target - c.count);
      NarrowsToLess(Min(s.nextDelta, overflow), CycleOf(c, c.target - c.count) - s.nextStart);
    }
  }

  /** Otherwise: a counter past its target is given four cycles, and one that does not count cycles nothing. */
  lemma OtherDeadlines(s: State)
    requires !CanCount(s.c0, s.hBlanking) || s.c0.rate == HBLANK_RATE || PastTarget(s.c0)
    ensures Publish(s).nextDelta == if CanCount(s.c0, s.hBlanking) && s.c0.rate != HBLANK_RATE then 4 else s.nextDelta
  {
  }
}
