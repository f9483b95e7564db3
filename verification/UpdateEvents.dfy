/** rcntUpdate as a whole against the life of one counter: for every state, whatever is gated, clocked,
    due or suppressed, each of the four counters meets exactly the event that TimerRegisters describes,
    and the interrupts come in the order of the source. */
module UpdateEvents {

  import opened Words
  import opened EeTimers
  import opened FoldedUpdates
  import opened VerticalUpdates
  import Registers = TimerRegisters
  import Iop = IopCounters

  // ----- the event

  /** Counter `i` with the levels it sees. */
  function TimerOf(s: State, i: nat): Registers.Timer
    requires i < 4
  {
    Registers.Timer(s.counters[i], s.hsync.mode, s.vsync.mode)
  }

  predicate HorizontalDue(s: State) {
    CpuTestCycle(s.cycle, s.hsync.startCycle, s.hsync.deltaCycles)
  }

  /** The cycle of the horizontal edge: the current phase has lasted its time. */
  function HorizontalCycle(s: State): nat {
    s.hsync.startCycle + if s.hsync.mode == HBlank then s.hBlank else s.hRender
  }

  /** What an update of this state is to a counter.  The vertical handler comes first and may shift the
      horizontal edge. */
  function EventOf(s: State, video: Video): (e: Registers.Event)
    ensures e.Update?
  {
    Registers.Update(VerticalDue(s), HorizontalDue(AfterVertical(s, video)), GateCycle(s, video), HorizontalCycle(s), s.sint)
  }

  lemma AfterVerticalEdge(s: State, video: Video, i: nat)
    requires i < 4
    ensures TimerOf(VScanline(s, video), i) == Registers.AfterV(TimerOf(s, i), s.cycle, EventOf(s, video))
  {
    VScanlineAt(s, video);
  }

  // ----- the horizontal gates, counter by counter

  /** The interrupts that the tests raise at the count `n`: the overflow first, then the target, which an
      overflow brings back into force. */
  function RaisedAt(c: Counter, n: int): seq<Irq> {
    (if n > 0xFFFF && c.mode.overflowInterrupt && !c.mode.overflowReached then [Intc(c.interrupt)] else [])
    + (if c.mode.targetInterrupt && !c.mode.targetReached
          && (if n > 0xFFFF then n - TWO_16 >= c.target % TWO_16 else n >= c.target) then [Intc(c.interrupt)]
       else [])
  }

  lemma TestsRaise(c: Counter)
    ensures TestIrqs(c) == RaisedAt(c, c.count)
  {
  }

  /** The interrupts of the first `n` counters at the start of a horizontal blank. */
  function TickedIrqs(s: State, n: nat): seq<Irq>
    requires n <= 4
  {
    if n == 0 then []
    else
      var c := s.counters[n - 1];
      TickedIrqs(s, n - 1) + if Registers.IsTicked(TimerOf(s, n - 1)) then RaisedAt(c, U32(c.count + 1)) else []
  }

  /** The gates at the start of a horizontal blank, for any four counters. */
  lemma {:induction false} StartGatesAt(s: State, at: nat, n: nat)
    requires n <= 4 && s.hsync.mode == HRender
    ensures var g := StartGate(s, false, at, n); g == s.(counters := g.counters, irqs := s.irqs + TickedIrqs(s, n))
    ensures forall i :: 0 <= i < 4 ==>
              StartGate(s, false, at, n).counters[i]
              == if i < n then Registers.HorizontalEdge(TimerOf(s, i), s.cycle, at, false).c else s.counters[i]
  {
    if n > 0 {
      StartGatesAt(s, at, n - 1);
      NextStartGate(s, StartGate(s, false, at, n - 1), at, n - 1);
    } else {
      assert s.irqs + [] == s.irqs;
    }
  }

  lemma NextStartGate(s: State, g: State, at: nat, n: nat)
    requires n < 4 && s.hsync.mode == HRender && g.counters[n] == s.counters[n]
    requires g == s.(counters := g.counters, irqs := s.irqs + TickedIrqs(s, n))
    ensures StartGateOf(g, n, false, at)
         == s.(counters := g.counters[n := Registers.HorizontalEdge(TimerOf(s, n), s.cycle, at, false).c],
               irqs := s.irqs + TickedIrqs(s, n + 1))
  {
    var more := TickOf(s.counters[n], Registers.IsTicked(TimerOf(s, n)));
    assert TimerOf(g, n) == TimerOf(s, n);
    assert TickedIrqs(s, n + 1) == TickedIrqs(s, n) + more;
    AppendedIrqs(s.irqs, TickedIrqs(s, n), more);
    assert StartGateOf(g, n, false, at)
        == g.(counters := g.counters[n := Registers.HorizontalEdge(TimerOf(s, n), s.cycle, at, false).c], irqs := g.irqs + more) by {
      OneStartGate(g, n, at);
    }
  }

  function TickOf(c: Counter, ticked: bool): seq<Irq> {
    if ticked then RaisedAt(c, U32(c.count + 1)) else []
  }

  lemma AppendedIrqs(a: seq<Irq>, b: seq<Irq>, c: seq<Irq>)
    ensures a + b + c == a + (b + c)
  {
  }

  /** One counter at the start of a horizontal blank. */
  lemma OneStartGate(g: State, n: nat, at: nat)
    requires n < 4 && g.hsync.mode == HRender
    ensures var timer := TimerOf(g, n);
            StartGateOf(g, n, false, at)
            == g.(counters := g.counters[n := Registers.HorizontalEdge(timer, g.cycle, at, false).c],
                  irqs := g.irqs + TickOf(timer.c, Registers.IsTicked(timer)))
  {
    if Clocked(g, n) {
      TickedGate(g, n, at);
    } else {
      UntickedGate(g, n, at);
    }
  }

  lemma UntickedGate(g: State, n: nat, at: nat)
    requires n < 4 && g.hsync.mode == HRender && !Clocked(g, n)
    ensures !Registers.IsTicked(TimerOf(g, n)) && g.irqs + [] == g.irqs
    ensures StartGateOf(g, n, false, at)
         == g.(counters := g.counters[n := Registers.HorizontalEdge(TimerOf(g, n), g.cycle, at, false).c])
  {
  }

  /** A counter that the blank clocks is not gated by it. */
  lemma TickedGate(g: State, n: nat, at: nat)
    requires n < 4 && g.hsync.mode == HRender && Clocked(g, n)
    ensures Registers.IsTicked(TimerOf(g, n))
    ensures StartGateOf(g, n, false, at)
         == g.(counters := g.counters[n := Registers.HorizontalEdge(TimerOf(g, n), g.cycle, at, false).c],
               irqs := g.irqs + TickOf(g.counters[n], true))
  {
    var c := g.counters[n];
    assert !Gated(c.mode, false);
    TickedTimer(TimerOf(g, n), g.cycle, at);
    TestsRaise(c.(count := U32(c.count + 1)));
    assert StartGateOf(g, n, false, at) == g.(counters := g.counters[n := TickOne(c)], irqs := g.irqs + TickIrqs(c)) by {
      UngatedStart(g, n, at);
    }
  }

  lemma TickedTimer(timer: Registers.Timer, t: nat, at: nat)
    requires Registers.IsTicked(timer)
    ensures Registers.HorizontalEdge(timer, t, at, false).c == TickOne(timer.c)
  {
    Registers.TickedEdge(timer, t, Registers.Update(false, true, at, at, false));
  }

  /** And at its end. */
  lemma {:induction false} EndGatesAt(s: State, at: nat, n: nat)
    requires n <= 4 && s.hsync.mode == HBlank
    ensures var g := EndGate(s, false, at, n); g == s.(counters := g.counters)
    ensures forall i :: 0 <= i < 4 ==>
              EndGate(s, false, at, n).counters[i]
              == if i < n then Registers.HorizontalEdge(TimerOf(s, i), s.cycle, at, false).c else s.counters[i]
  {
    if n > 0 {
      EndGatesAt(s, at, n - 1);
      NextEndGate(s, EndGate(s, false, at, n - 1), at, n - 1);
    }
  }

  lemma NextEndGate(s: State, g: State, at: nat, n: nat)
    requires n < 4 && s.hsync.mode == HBlank && g == s.(counters := g.counters) && g.counters[n] == s.counters[n]
    ensures EndGateOf(g, n, false, at)
         == s.(counters := g.counters[n := Registers.HorizontalEdge(TimerOf(s, n), s.cycle, at, false).c])
  {
  }

  // ----- the horizontal handler

  function HorizontalIrqs(s: State): seq<Irq> {
    if !HorizontalDue(s) || s.sint || s.hsync.mode == HBlank then []
    else (if s.hsint || s.hsmsk then [] else [Gs]) + TickedIrqs(s, |s.counters|)
  }

  /** What the handler does apart from the counters. */
  function AfterHorizontal(s: State): State {
    if !HorizontalDue(s) then s
    else if s.hsync.mode == HBlank then
      s.(hsync := HSync(HRender, HorizontalCycle(s), s.hRender), iop := if s.sint then s.iop else Iop.HBlankEnd(s.iop))
    else
      s.(hsync := HSync(HBlank, HorizontalCycle(s), s.hBlank), hsint := s.hsint || !s.sint,
         irqs := s.irqs + HorizontalIrqs(s), iop := if s.sint then s.iop else Iop.HBlankStart(s.iop))
  }

  /** rcntUpdate_hScanline on any state: the counters, gated by the blank, clocked by it or neither, each
      see their edge. */
  lemma HScanlineAt(s: State)
    ensures var g := HScanline(s);
            && g == AfterHorizontal(s).(counters := g.counters)
            && forall i :: 0 <= i < 4 ==>
                 g.counters[i]
                 == if HorizontalDue(s) then Registers.HorizontalEdge(TimerOf(s, i), s.cycle, HorizontalCycle(s), s.sint).c
                    else s.counters[i]
  {
    if HorizontalDue(s) {
      if s.hsync.mode == HBlank {
        BlankEndsAt(s);
      } else {
        BlankBeginsAt(s);
      }
    }
  }

  lemma BlankEndsAt(s: State)
    requires s.hsync.mode == HBlank && HorizontalDue(s)
    ensures var g := BlankEnds(s);
            && g == AfterHorizontal(s).(counters := g.counters)
            && forall i :: 0 <= i < 4 ==>
                 g.counters[i] == Registers.HorizontalEdge(TimerOf(s, i), s.cycle, HorizontalCycle(s), s.sint).c
  {
    var at := HorizontalCycle(s);
    EndGatesAt(s.(hsync := HSync(HBlank, at, s.hRender)), at, |s.counters|);
  }

  lemma BlankBeginsAt(s: State)
    requires s.hsync.mode == HRender && HorizontalDue(s)
    ensures var g := BlankStarts(s);
            && g == AfterHorizontal(s).(counters := g.counters)
            && forall i :: 0 <= i < 4 ==>
                 g.counters[i] == Registers.HorizontalEdge(TimerOf(s, i), s.cycle, HorizontalCycle(s), s.sint).c
  {
    if s.sint {
      assert s.irqs + [] == s.irqs;
    } else {
      var before := BeforeStart(s);
      BlankStartsAt(s);
      StartGatesAt(before, before.hsync.startCycle, |s.counters|);
      StartIrqs(s, before);
      GatesThenBlank(s, before, StartGate(before, false, before.hsync.startCycle, |s.counters|));
    }
  }

  lemma StartIrqs(s: State, before: State)
    requires s.hsync.mode == HRender && HorizontalDue(s) && !s.sint && before == BeforeStart(s)
    ensures before.irqs + TickedIrqs(before, |before.counters|) == s.irqs + HorizontalIrqs(s)
  {
    var ticks := TickedIrqs(s, |s.counters|);
    SameTicks(s, before, |s.counters|);
    assert s.irqs + [Gs] + ticks == s.irqs + ([Gs] + ticks);
    assert [] + ticks == ticks;
  }

  lemma GatesThenBlank(s: State, before: State, g: State)
    requires s.hsync.mode == HRender && HorizontalDue(s) && !s.sint && before == BeforeStart(s)
    requires g == before.(counters := g.counters, irqs := s.irqs + HorizontalIrqs(s))
    requires forall i :: 0 <= i < 4 ==>
               g.counters[i] == Registers.HorizontalEdge(TimerOf(before, i), before.cycle, before.hsync.startCycle, false).c
    ensures var b := WithHMode(g.(iop := Iop.HBlankStart(g.iop)), HBlank);
            && b == AfterHorizontal(s).(counters := b.counters)
            && forall i :: 0 <= i < 4 ==>
                 b.counters[i] == Registers.HorizontalEdge(TimerOf(s, i), s.cycle, HorizontalCycle(s), s.sint).c
  {
    forall i | 0 <= i < 4
      ensures TimerOf(before, i) == TimerOf(s, i)
    {
    }
  }

  lemma {:induction false} SameTicks(s: State, t: State, n: nat)
    requires n <= 4 && s.counters == t.counters && s.hsync.mode == t.hsync.mode && s.vsync.mode == t.vsync.mode
    ensures TickedIrqs(s, n) == TickedIrqs(t, n)
  {
    if n > 0 {
      SameTicks(s, t, n - 1);
    }
  }

  // ----- the whole update

  /** The interrupts that the counter loop raises for the first `n` counters. */
  function LoopIrqs(s: State, n: nat): seq<Irq>
    requires n <= 4
  {
    if n == 0 then []
    else
      var c := s.counters[n - 1];
      LoopIrqs(s, n - 1)
      + if External(c) || !Counting(s, n - 1) then [] else RaisedAt(c, Sync(c, s.cycle, true).count)
  }

  lemma {:induction false} LoopRaises(s: State, n: nat)
    requires n <= 4
    ensures UpdateUpTo(s, n).irqs == s.irqs + LoopIrqs(s, n)
  {
    if n > 0 {
      LoopRaises(s, n - 1);
      NextIrqs(s, n - 1);
      LoopRaisesOne(s.counters[n - 1], s.cycle, Counting(s, n - 1));
      AppendedIrqs(s.irqs, LoopIrqs(s, n - 1), UpdateIrqs(s.counters[n - 1], s.cycle, Counting(s, n - 1)));
    } else {
      assert s.irqs + [] == s.irqs;
    }
  }

  lemma LoopRaisesOne(c: Counter, t: nat, counting: bool)
    ensures UpdateIrqs(c, t, counting) == if External(c) || !counting then [] else RaisedAt(c, Sync(c, t, true).count)
  {
    TestsRaise(Sync(c, t, true));
  }

  /** rcntUpdate for every state: vertical handler, horizontal handler and counter loop together do to each
      counter what its event says, to everything else what the two handlers say, and raise the interrupts
      of the vertical edge, of HSINT, of the ticks and of the loop in this order. */
  lemma UpdateIsEvent(s: State, video: Video)
    ensures var h := Handlers(s, video);
            var u := UpdateUpTo(h, |h.counters|);
            && (forall i :: 0 <= i < 4 ==> u.counters[i] == Registers.After(TimerOf(s, i), s.cycle, EventOf(s, video)).c)
            && h == AfterHorizontal(VScanline(s, video)).(counters := h.counters)
            && u == h.(counters := u.counters, irqs := h.irqs + LoopIrqs(h, |h.counters|))
            && AnyUpdate(s, video) == CpuRcntSet(u)
  {
    var v := VScanline(s, video);
    var h := Handlers(s, video);
    VScanlineAt(s, video);
    HScanlineAt(v);
    UpdateUpToAt(h, |h.counters|);
    LoopRaises(h, |h.counters|);
    forall i | 0 <= i < 4
      ensures UpdateUpTo(h, |h.counters|).counters[i] == Registers.After(TimerOf(s, i), s.cycle, EventOf(s, video)).c
    {
      AfterVerticalEdge(s, video, i);
      AtCounter(s, video, v, h, i);
    }
  }

  lemma AtCounter(s: State, video: Video, v: State, h: State, i: nat)
    requires i < 4 && v == AfterVertical(s, video).(counters := v.counters) && h == AfterHorizontal(v).(counters := h.counters)
    requires TimerOf(v, i) == Registers.AfterV(TimerOf(s, i), s.cycle, EventOf(s, video))
    requires h.counters[i]
          == if HorizontalDue(v) then Registers.HorizontalEdge(TimerOf(v, i), v.cycle, HorizontalCycle(v), v.sint).c
             else v.counters[i]
    ensures UpdateCounter(h.counters[i], h.cycle, Counting(h, i)) == Registers.After(TimerOf(s, i), s.cycle, EventOf(s, video)).c
  {
    var e := EventOf(s, video);
    assert e.hEdge == HorizontalDue(v) && e.hAt == HorizontalCycle(v) && e.suppressed == v.sint && v.cycle == s.cycle;
    LevelsAfter(v, h, i, e);
    assert Registers.After(TimerOf(s, i), s.cycle, e) == Registers.Updated(TimerOf(h, i), s.cycle);
  }

  lemma LevelsAfter(v: State, h: State, i: nat, e: Registers.Event)
    requires i < 4 && e.Update? && h == AfterHorizontal(v).(counters := h.counters)
    requires e.hEdge == HorizontalDue(v) && e.hAt == HorizontalCycle(v) && e.suppressed == v.sint
    requires h.counters[i]
          == if HorizontalDue(v) then Registers.HorizontalEdge(TimerOf(v, i), v.cycle, HorizontalCycle(v), v.sint).c
             else v.counters[i]
    ensures TimerOf(h, i) == Registers.AfterH(TimerOf(v, i), v.cycle, e)
  {
  }
}
