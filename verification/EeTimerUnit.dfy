/** The timer globals of pcsx2/Counters.cpp and the loops that update them in place. */
module EeTimerUnit {

  import opened Words
  import opened EeTimers
  import opened HsyncFold
  import Deadlines
  import Iop = IopCounters
  import Registers = TimerRegisters
  import Laws = RegisterLaws

  datatype Stop = HorizonDue | EeCounterOrGate | IopCounterOrGate | HsyncDue | ExclusiveLimit | UnmaskedHsint

  lemma OneMoreEdge(s: State, n: nat, t: State, horizon: nat)
    requires t == FoldEdges(s, n) && MayFold(s, n) && !WakesTheEe(t)
    requires EdgesWithin(s, n, s.cycle, horizon) && s.cycle < Edge(t.hsync) < horizon
    ensures FoldEdges(s, n + 1) == FoldEdge(t, ClockMask(s))
    ensures MayFold(s, n + 1) && EdgesWithin(s, n + 1, s.cycle, horizon)
  {
  }

  class Timers {
    const counters: array<Counter>
    var cycle: nat
    var hsync: HSync
    var vsync: VSync
    var hRender: phase
    var hBlank: phase
    var sint: bool
    var hsint: bool
    var hsmsk: bool
    var iop: Iop.State
    var nextStart: nat
    var nextDelta: s32
    ghost var irqs: seq<Irq>

    ghost predicate Valid()
      reads this
    {
      counters.Length == 4
    }

    ghost function View(): State
      requires Valid()
      reads this, counters
    {
      State(cycle, counters[..], hsync, vsync, hRender, hBlank, sint, hsint, hsmsk, iop, nextStart, nextDelta, irqs)
    }

    predicate Counting(i: nat)
      requires Valid() && i < 4
      reads this, counters
    {
      CanCount(counters[i].mode, hsync.mode, vsync.mode)
    }

    /** VitaGetNextNonHsyncCounterCycle: a minimum taken in a loop over the counters. */
    method NextNonHsyncCounterCycle() returns (deadline: nat)
      requires Valid()
      ensures deadline == Deadlines.NonHsyncDeadline(View())
    {
      deadline := vsync.startCycle + U32(vsync.deltaCycles);
      var i := 0;
      while i < 4
        invariant 0 <= i <= 4
        invariant deadline == Deadlines.DeadlineUpTo(View(), i)
      {
        var c := counters[i];
        if Counting(i) && c.mode.clockSource != EXTERNAL_CLOCK
           && (c.mode.targetInterrupt || c.mode.overflowInterrupt || c.mode.zeroReturn)
        {
          if c.count > TWO_16 || c.count > c.target {
            deadline := Min(deadline, cycle + 4);
          } else {
            var elapsed := cycle - c.startCycle;
            var overflowDelta := (TWO_16 - c.count) * c.rate - elapsed;
            deadline := Min(deadline, cycle + Max(0, overflowDelta));
            if !HasFutureTarget(c.target) {
              var targetDelta := (c.target - c.count) * c.rate - elapsed;
              deadline := Min(deadline, cycle + Max(0, targetDelta));
            }
          }
        }
        i := i + 1;
      }
    }

    /** _rcntSet: narrow the deadline for one counter. */
    method NarrowFor(i: nat)
      requires Valid() && i < 4
      modifies this`nextDelta
      ensures nextDelta == RcntSet(old(nextDelta), counters[i], IsWatched(old(View()), i), cycle, nextStart)
    {
      var c := counters[i];
      if !Counting(i) || c.mode.clockSource == EXTERNAL_CLOCK {
        return;
      }
      if !c.mode.targetInterrupt && !c.mode.overflowInterrupt && !c.mode.zeroReturn {
        return;
      }
      if c.count > TWO_16 || c.count > c.target {
        nextDelta := 4;
        return;
      }
      nextDelta := Min(nextDelta, DeltaUntil(c, TWO_16 - c.count, cycle, nextStart));
      if !HasFutureTarget(c.target) {
        nextDelta := Min(nextDelta, DeltaUntil(c, c.target - c.count, cycle, nextStart));
      }
    }

    /** cpuRcntSet. */
    method SetNextCounterEvent()
      requires Valid()
      modifies this`nextStart, this`nextDelta
      ensures View() == CpuRcntSet(old(View()))
    {
      nextStart := cycle;
      nextDelta := S32(vsync.deltaCycles - (cycle - vsync.startCycle));
      var nextHsync := S32(hsync.deltaCycles - (cycle - hsync.startCycle));
      if nextHsync < nextDelta {
        nextDelta := nextHsync;
      }
      ghost var s := old(View()).(nextStart := cycle);
      var i := 0;
      while i < 4
        invariant 0 <= i <= 4 && nextStart == cycle
        invariant nextDelta == RcntSetUpTo(SyncDelta(s), s, i)
      {
        NarrowFor(i);
        i := i + 1;
      }
      nextDelta := Max(0, nextDelta);
    }

    /** rcntSyncCounter. */
    method SyncCounter(i: nat)
      requires Valid() && i < 4
      modifies counters
      ensures counters[..] == old(counters[..])[i := Sync(old(counters[i]), cycle, old(Counting(i)))]
    {
      var c := counters[i];
      if c.mode.clockSource != EXTERNAL_CLOCK {
        var change := U32(U64(cycle - c.startCycle) / c.rate);
        var count := if Counting(i) then U32(c.count + change) else c.count;
        counters[i] := c.(startCycle := AndNot(c.startCycle + U32(change * c.rate), c.rate - 1), count := count);
      } else {
        counters[i] := c.(startCycle := cycle);
      }
    }

    /** rcntRcount. */
    method ReadCount(i: nat) returns (value: nat)
      requires Valid() && i < 4
      modifies counters
      ensures counters[..] == old(counters[..])[i := Sync(old(counters[i]), cycle, old(Counting(i)))]
      ensures value == counters[i].count % TWO_16
    {
      SyncCounter(i);
      value := counters[i].count % TWO_16;
    }

    /** rcntWcount. */
    method WriteCount(i: nat, value: u32)
      requires Valid() && i < 4
      modifies counters, this`nextDelta
      ensures counters[..] == old(counters[..])[i := Registers.WriteCount(old(counters[i]), cycle, old(Counting(i)), value)]
      ensures nextDelta == RcntSet(old(nextDelta), counters[i], IsWatched(View(), i), cycle, nextStart)
    {
      SyncCounter(i);
      counters[i] := counters[i].(count := value % TWO_16, target := counters[i].target % TWO_16);
      if counters[i].count >= counters[i].target {
        counters[i] := counters[i].(target := WithFutureTarget(counters[i].target));
      }
      NarrowFor(i);
    }

    /** rcntWtarget. */
    method WriteTarget(i: nat, value: u32)
      requires Valid() && i < 4
      modifies counters, this`nextDelta
      ensures counters[..] == old(counters[..])[i := Registers.WriteTarget(old(counters[i]), cycle, old(Counting(i)), value)]
      ensures nextDelta == RcntSet(old(nextDelta), counters[i], IsWatched(View(), i), cycle, nextStart)
    {
      counters[i] := counters[i].(target := value % TWO_16);
      SyncCounter(i);
      if counters[i].target <= counters[i].count {
        counters[i] := counters[i].(target := WithFutureTarget(counters[i].target));
      }
      NarrowFor(i);
    }

    /** rcntWmode. */
    method WriteMode(i: nat, value: u32)
      requires Valid() && i < 4
      modifies counters, this`nextDelta
      ensures counters[..] == old(counters[..])[i := Registers.WriteMode(old(counters[i]), cycle, old(Counting(i)),
                                                                         Laws.WriteOf(value), hRender + hBlank)]
      ensures nextDelta == RcntSet(old(nextDelta), counters[i], IsWatched(View(), i), cycle, nextStart)
    {
      SyncCounter(i);
      var c, w := counters[i], Laws.WriteOf(value);
      var mode := w.mode.(targetReached := c.mode.targetReached && !w.clearTarget,
                          overflowReached := c.mode.overflowReached && !w.clearOverflow);
      var rate := Registers.RateOf(mode.clockSource, hRender + hBlank);
      counters[i] := c.(mode := mode, rate := rate, startCycle := AndNot(cycle, rate - 1));
      NarrowFor(i);
    }

    /** VitaPrepareEeHsyncFold; `blocker` is the first counter that forbids the fold. */
    method PrepareFold() returns (ok: bool, mask: Mask, blocker: nat)
      requires Valid() && !sint
      ensures ok <==> forall i :: 0 <= i < 4 ==> CounterFoldable(View(), i)
      ensures ok ==> mask == ClockMask(View())
      ensures !ok ==> blocker < 4 && !CounterFoldable(View(), blocker)
                      && forall i :: 0 <= i < blocker ==> CounterFoldable(View(), i)
    {
      mask := [false, false, false, false];
      blocker := 0;
      var i := 0;
      while i < 4
        invariant 0 <= i <= 4
        invariant forall j :: 0 <= j < i ==> CounterFoldable(View(), j) && mask[j] == Clocked(View(), j)
      {
        var m := counters[i].mode;
        if m.enableGate && !m.vblankGate {
          assert !CounterFoldable(View(), i);
          return false, mask, i;
        }
        if m.clockSource == EXTERNAL_CLOCK && Counting(i) {
          if m.targetInterrupt || m.overflowInterrupt {
            assert !CounterFoldable(View(), i);
            return false, mask, i;
          }
          mask := mask[i := true];
        } else {
          mask := mask[i := false];
        }
        i := i + 1;
      }
      ok := true;
    }

    /** The counter loop inside the fold. */
    method TickExternal(mask: Mask)
      requires Valid()
      modifies counters
      ensures counters[..] == TickMasked(old(counters[..]), mask, counters.Length)
    {
      var i := 0;
      while i < 4
        invariant 0 <= i <= 4
        invariant counters[..] == TickMasked(old(counters[..]), mask, i)
      {
        if mask[i] {
          var c := counters[i].(count := U32(counters[i].count + 1));
          counters[i] := TestTarget(TestOverflow(c));
        }
        i := i + 1;
      }
    }

    /** The loop of VitaFoldSilentHsyncBefore. */
    method FoldLoop(horizon: nat, mask: Mask) returns (folded: nat, stop: Stop)
      requires Valid() && hsync.deltaCycles >= 0 && Foldable(View()) && mask == ClockMask(View())
      modifies this, counters
      ensures Valid() && View() == FoldEdges(old(View()), folded) && MayFold(old(View()), folded)
      ensures EdgesWithin(old(View()), folded, old(cycle), horizon)
      ensures match stop
              case HsyncDue => Edge(hsync) <= cycle
              case ExclusiveLimit => Edge(hsync) >= horizon && Edge(hsync) > cycle
              case UnmaskedHsint => WakesTheEe(View()) && cycle < Edge(hsync) < horizon
              case _ => false
    {
      folded := 0;
      ghost var start := old(View());
      while true
        invariant Valid() && View() == FoldEdges(start, folded)
        invariant MayFold(start, folded) && EdgesWithin(start, folded, start.cycle, horizon)
        invariant hsync.deltaCycles >= 0 && cycle == start.cycle && mask == ClockMask(start)
        decreases horizon - hsync.startCycle
      {
        var edge := hsync.startCycle + U32(hsync.deltaCycles);
        if edge <= cycle {
          return folded, HsyncDue;
        }
        if edge >= horizon {
          return folded, ExclusiveLimit;
        }
        if hsync.mode == HRender && !sint && !hsint && !hsmsk {
          return folded, UnmaskedHsint;
        }
        OneMoreEdge(start, folded, View(), horizon);
        FoldOne(mask);
        folded := folded + 1;
      }
    }

    /** VitaFoldSilentHsyncBefore.  Every folded edge lies strictly between now and the horizon,
        the new state is the old one with that many edges applied and the deadline rebuilt, and
        the fold stops only at a due edge, at the horizon, or before an unmasked first HSINT. */
    method FoldSilentHsyncBefore(horizon: nat) returns (folded: nat, stop: Stop)
      requires Valid() && hsync.deltaCycles >= 0
      modifies this, counters
      ensures Valid()
      ensures View() == if folded == 0 then old(View()) else CpuRcntSet(FoldEdges(old(View()), folded))
      ensures folded > 0 ==> MayFold(old(View()), folded)
      ensures SameTimers(View(), StepEdges(old(View()), folded))
      ensures EdgesWithin(old(View()), folded, old(cycle), horizon)
      ensures match stop
              case HorizonDue => folded == 0 && horizon <= old(cycle)
              case EeCounterOrGate => folded == 0 && !sint && exists i :: 0 <= i < 4 && !CounterFoldable(View(), i)
              case IopCounterOrGate =>
                folded == 0 && !sint && !Iop.HsyncSilent(iop) && forall i :: 0 <= i < 4 ==> CounterFoldable(View(), i)
              case HsyncDue => Edge(hsync) <= cycle
              case ExclusiveLimit => Edge(hsync) >= horizon && Edge(hsync) > cycle
              case UnmaskedHsint => WakesTheEe(View()) && cycle < Edge(hsync) < horizon
    {
      if horizon <= cycle {
        return 0, HorizonDue;
      }
      var mask: Mask := [false, false, false, false];
      if !sint {
        var ok, m, blocker := PrepareFold();
        if !ok {
          return 0, EeCounterOrGate;
        }
        mask := m;
        if !Iop.HsyncSilent(iop) {
          return 0, IopCounterOrGate;
        }
      }
      folded, stop := FoldLoop(horizon, mask);
      if folded != 0 {
        ghost var s := old(View());
        SetNextCounterEvent();
        FoldedStateIsSteppedState(s, folded);
      }
    }

    /** One iteration of the fold. */
    method FoldOne(mask: Mask)
      requires Valid()
      modifies this, counters
      ensures Valid() && View() == FoldEdge(old(View()), mask)
      ensures cycle == old(cycle) && hsync.deltaCycles > 0 && hsync.startCycle > old(hsync.startCycle)
    {
      if hsync.mode == HBlank {
        hsync := HSync(HRender, hsync.startCycle + hBlank, hRender);
        if !sint {
          iop := iop.(hBlanking := false);
        }
      } else {
        hsync := HSync(HBlank, hsync.startCycle + hRender, hBlank);
        if !sint {
          hsint := true;
          TickExternal(mask);
          iop := iop.(hBlanking := true);
        }
      }
    }
  }
}
