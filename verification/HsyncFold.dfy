/** VitaFoldSilentHsyncBefore of pcsx2/Counters.cpp applies many horizontal sync edges at once.
    This module relates one folded edge, and then any number of them, to running the ordinary
    edge handler at the cycle of each edge. */
module HsyncFold {

  import opened Words
  import opened EeTimers
  import Iop = IopCounters

  /** What VitaPrepareEeHsyncFold accepts: no counter gated by the horizontal blank, and no
      counter clocked by it that could raise an interrupt. */
  predicate CounterFoldable(s: State, i: nat)
    requires i < 4
  {
    && !Gated(s.counters[i].mode, false)
    && (Clocked(s, i) ==> !s.counters[i].mode.targetInterrupt && !s.counters[i].mode.overflowInterrupt)
  }

  predicate Foldable(s: State) {
    s.sint || (Iop.HsyncSilent(s.iop) && forall i :: 0 <= i < 4 ==> CounterFoldable(s, i))
  }

  type Mask = s: seq<bool> | |s| == 4 witness [false, false, false, false]

  /** The external-clock mask: computed once, before the first edge. */
  function ClockMask(s: State): Mask {
    if s.sint then [false, false, false, false]
    else [Clocked(s, 0), Clocked(s, 1), Clocked(s, 2), Clocked(s, 3)]
  }

  /** The first `n` counters advanced and tested as the mask says. */
  function TickMasked(bank: Bank, mask: Mask, n: nat): Bank
    requires n <= 4
  {
    if n == 0 then bank
    else
      var bank := TickMasked(bank, mask, n - 1);
      var c := bank[n - 1];
      if mask[n - 1] then bank[n - 1 := Tested(c.(count := U32(c.count + 1)))] else bank
  }

  /** An unmasked first HSINT is left to the ordinary handler. */
  predicate WakesTheEe(s: State) {
    s.hsync.mode == HRender && !s.sint && !s.hsint && !s.hsmsk
  }

  /** The interrupt that the edge raises then. */
  function WakeUp(s: State): seq<Irq> {
    if WakesTheEe(s) then [Gs] else []
  }

  /** One iteration of the fold loop. */
  function FoldEdge(s: State, mask: Mask): State {
    if s.hsync.mode == HBlank then
      s.(hsync := HSync(HRender, s.hsync.startCycle + s.hBlank, s.hRender),
         iop := if s.sint then s.iop else s.iop.(hBlanking := false))
    else
      var s := s.(hsync := HSync(HBlank, s.hsync.startCycle + s.hRender, s.hBlank));
      if s.sint then s
      else
        s.(hsint := true, counters := TickMasked(s.counters, mask, |s.counters|), iop := s.iop.(hBlanking := true))
  }

  /** The reference: the ordinary handler, run at the cycle of the next edge. */
  function StepEdge(s: State): State {
    HScanline(s.(cycle := Edge(s.hsync)))
  }

  function StepEdges(s: State, n: nat): State {
    if n == 0 then s else StepEdge(StepEdges(s, n - 1))
  }

  // ----- one edge

  lemma SilentTick(s: State, i: nat)
    requires i < 4
    requires !s.counters[i].mode.targetInterrupt && !s.counters[i].mode.overflowInterrupt
    ensures Tick(s, i).irqs == s.irqs
    ensures Tick(s, i).counters[i].mode == s.counters[i].mode
  {
  }

  /** For a foldable counter the start gate only ticks it, silently. */
  lemma StartGateOfFoldable(s: State, i: nat, at: nat)
    requires i < 4 && CounterFoldable(s, i)
    ensures StartGateOf(s, i, false, at) == if Clocked(s, i) then Tick(s, i) else s
    ensures StartGateOf(s, i, false, at).irqs == s.irqs
    ensures StartGateOf(s, i, false, at).counters[i].mode == s.counters[i].mode
  {
    if Clocked(s, i) {
      SilentTick(s, i);
    }
  }

  lemma {:induction false} StartGateTicks(s: State, at: nat, mask: Mask, n: nat)
    requires n <= 4
    requires !s.sint && (forall i :: 0 <= i < 4 ==> CounterFoldable(s, i)) && mask == ClockMask(s)
    ensures StartGate(s, false, at, n) == s.(counters := TickMasked(s.counters, mask, n))
    ensures forall i :: 0 <= i < 4 ==> TickMasked(s.counters, mask, n)[i].mode == s.counters[i].mode
  {
    TickMaskedModes(s, mask, n);
    if n > 0 {
      StartGateTicks(s, at, mask, n - 1);
      TickMaskedModes(s, mask, n - 1);
      GateTicksNext(s, TickMasked(s.counters, mask, n - 1), at, mask, n - 1);
    }
  }

  lemma GateTicksNext(s: State, bank: Bank, at: nat, mask: Mask, i: nat)
    requires i < 4 && !s.sint && CounterFoldable(s, i) && mask == ClockMask(s)
    requires bank == TickMasked(s.counters, mask, i) && bank[i].mode == s.counters[i].mode
    requires StartGate(s, false, at, i) == s.(counters := bank)
    ensures StartGate(s, false, at, i + 1) == s.(counters := TickMasked(s.counters, mask, i + 1))
  {
    GateTicksOne(s, bank, at, mask, i);
    TickMaskedNext(s.counters, mask, i, bank);
  }

  lemma TickMaskedNext(bank: Bank, mask: Mask, i: nat, ticked: Bank)
    requires i < 4 && ticked == TickMasked(bank, mask, i)
    ensures TickMasked(bank, mask, i + 1)
         == if mask[i] then ticked[i := Tested(ticked[i].(count := U32(ticked[i].count + 1)))] else ticked
  {
  }

  /** Ticking foldable counters leaves their modes alone. */
  lemma {:induction false} TickMaskedModes(s: State, mask: Mask, n: nat)
    requires n <= 4
    requires !s.sint && (forall i :: 0 <= i < 4 ==> CounterFoldable(s, i)) && mask == ClockMask(s)
    ensures forall i :: 0 <= i < 4 ==> TickMasked(s.counters, mask, n)[i].mode == s.counters[i].mode
  {
    if n > 0 {
      TickMaskedModes(s, mask, n - 1);
      assert CounterFoldable(s, n - 1);
    }
  }

  /** The gate of counter `i`, with the others as they are in `bank`. */
  lemma GateTicksOne(s: State, bank: Bank, at: nat, mask: Mask, i: nat)
    requires i < 4 && !s.sint && CounterFoldable(s, i) && mask == ClockMask(s)
    requires bank[i].mode == s.counters[i].mode
    ensures var after := if mask[i] then bank[i := Tested(bank[i].(count := U32(bank[i].count + 1)))] else bank;
            StartGateOf(s.(counters := bank), i, false, at) == s.(counters := after) && after[i].mode == bank[i].mode
  {
    StartGateOfFoldable(s.(counters := bank), i, at);
  }

  lemma {:induction false} EndGateIdle(s: State, at: nat, n: nat)
    requires n <= 4
    requires forall i :: 0 <= i < 4 ==> CounterFoldable(s, i)
    ensures EndGate(s, false, at, n) == s
  {
    if n > 0 {
      EndGateIdle(s, at, n - 1);
      assert CounterFoldable(s, n - 1);
    }
  }

  lemma EdgeIsDue(s: State)
    requires s.hsync.deltaCycles >= 0
    ensures CpuTestCycle(Edge(s.hsync), s.hsync.startCycle, s.hsync.deltaCycles)
  {
  }

  /** Whether a state is foldable, and with which mask, does not depend on the horizontal phase
      or on what an edge changes. */
  lemma FoldKeepsFoldable(s: State)
    requires Foldable(s)
    ensures Foldable(FoldEdge(s, ClockMask(s)))
    ensures ClockMask(FoldEdge(s, ClockMask(s))) == ClockMask(s)
    ensures FoldEdge(s, ClockMask(s)).hsync.deltaCycles > 0
  {
    if !s.sint {
      var f := FoldEdge(s, ClockMask(s));
      StartGateTicks(s, 0, ClockMask(s), |s.counters|);
      forall i | 0 <= i < 4
        ensures CounterFoldable(f, i) && (Clocked(f, i) <==> Clocked(s, i))
      {
        assert CounterFoldable(s, i);
      }
    }
  }

  /** The IOP as stepping leaves it: the fold skips the republication of the deadline of IOP
      counter 0 that every unsuppressed edge performs. */
  function IopAfter(folded: State, n: nat): Iop.State {
    if folded.sint || n == 0 then folded.iop else Iop.Publish(folded.iop)
  }

  lemma BlankEndSimulates(f: State, r: State)
    requires Foldable(f) && !f.sint && f.hsync.mode == HBlank
    requires r == f.(cycle := r.cycle, iop := r.iop) && (r.iop == f.iop || r.iop == Iop.Publish(f.iop))
    ensures BlankEnds(r) == f.(cycle := r.cycle,
                               hsync := HSync(HRender, f.hsync.startCycle + f.hBlank, f.hRender),
                               iop := Iop.Publish(f.iop.(hBlanking := false)))
  {
    var s := r.(hsync := HSync(HBlank, f.hsync.startCycle + f.hBlank, f.hRender));
    forall i | 0 <= i < 4
      ensures CounterFoldable(s, i)
    {
      assert CounterFoldable(f, i);
    }
    EndGateIdle(s, s.hsync.startCycle, |s.counters|);
    IopEdge(f.iop, r.iop);
  }

  lemma BlankStartSimulates(f: State, r: State)
    requires Foldable(f) && !f.sint && f.hsync.mode == HRender
    requires r == f.(cycle := r.cycle, iop := r.iop) && (r.iop == f.iop || r.iop == Iop.Publish(f.iop))
    ensures BlankStarts(r) == f.(cycle := r.cycle,
                                 hsync := HSync(HBlank, f.hsync.startCycle + f.hRender, f.hBlank),
                                 hsint := true,
                                 irqs := f.irqs + WakeUp(f),
                                 counters := TickMasked(f.counters, ClockMask(f), |f.counters|),
                                 iop := Iop.Publish(f.iop.(hBlanking := true)))
  {
    var s := r.(hsync := HSync(HRender, f.hsync.startCycle + f.hRender, f.hBlank), hsint := true,
                irqs := f.irqs + WakeUp(f));
    assert f.irqs + [] == f.irqs;
    forall i | 0 <= i < 4
      ensures CounterFoldable(s, i)
    {
      assert CounterFoldable(f, i);
    }
    StartGateTicks(s, s.hsync.startCycle, ClockMask(f), |s.counters|);
    IopEdge(f.iop, r.iop);
  }

  /** `r` is `f` at another cycle, with the IOP as `n` steps leave it. */
  predicate Tracks(f: State, r: State, n: nat) {
    r == f.(cycle := r.cycle, iop := IopAfter(f, n))
  }

  /** One folded edge is one run of the ordinary handler at the cycle of that edge, but for the
      interrupt of an unmasked first HSINT. */
  lemma EdgeSimulates(f: State, r: State, n: nat)
    requires Foldable(f) && f.hsync.deltaCycles >= 0
    requires Tracks(f, r, n)
    ensures Tracks(FoldEdge(f, ClockMask(f)).(irqs := f.irqs + WakeUp(f)), StepEdge(r), n + 1)
    ensures StepEdge(r).cycle == Edge(f.hsync)
  {
    if f.sint {
      SuppressedEdge(f, r, n);
    } else if f.hsync.mode == HBlank {
      EndingEdge(f, r, n);
    } else {
      StartingEdge(f, r, n);
    }
  }

  /** An edge that is handled late: only the current cycle differs. */
  lemma LateEdge(f: State, t: nat)
    requires Foldable(f) && f.hsync.deltaCycles >= 0
    requires CpuTestCycle(t, f.hsync.startCycle, f.hsync.deltaCycles)
    ensures HScanline(f.(cycle := t)) == StepEdge(f).(cycle := t)
  {
    EdgeIsDue(f);
    if !f.sint {
      if f.hsync.mode == HBlank {
        BlankEndSimulates(f, f.(cycle := t));
        BlankEndSimulates(f, f.(cycle := Edge(f.hsync)));
      } else {
        BlankStartSimulates(f, f.(cycle := t));
        BlankStartSimulates(f, f.(cycle := Edge(f.hsync)));
      }
    }
  }

  lemma SuppressedEdge(f: State, r: State, n: nat)
    requires f.sint && f.hsync.deltaCycles >= 0 && Tracks(f, r, n)
    ensures Tracks(FoldEdge(f, ClockMask(f)).(irqs := f.irqs + WakeUp(f)), StepEdge(r), n + 1)
    ensures StepEdge(r).cycle == Edge(f.hsync)
  {
    EdgeIsDue(f);
  }

  lemma EndingEdge(f: State, r: State, n: nat)
    requires Foldable(f) && !f.sint && f.hsync.mode == HBlank && f.hsync.deltaCycles >= 0 && Tracks(f, r, n)
    ensures Tracks(FoldEdge(f, ClockMask(f)).(irqs := f.irqs + WakeUp(f)), StepEdge(r), n + 1)
    ensures StepEdge(r).cycle == Edge(f.hsync)
  {
    EdgeIsDue(f);
    var at := r.(cycle := Edge(f.hsync));
    BlankEndSimulates(f, at);
    assert StepEdge(r) == BlankEnds(at);
  }

  lemma StartingEdge(f: State, r: State, n: nat)
    requires Foldable(f) && !f.sint && f.hsync.mode == HRender && f.hsync.deltaCycles >= 0 && Tracks(f, r, n)
    ensures Tracks(FoldEdge(f, ClockMask(f)).(irqs := f.irqs + WakeUp(f)), StepEdge(r), n + 1)
    ensures StepEdge(r).cycle == Edge(f.hsync)
  {
    EdgeIsDue(f);
    var at := r.(cycle := Edge(f.hsync));
    BlankStartSimulates(f, at);
    assert StepEdge(r) == BlankStarts(at);
  }

  lemma IopEdge(f: Iop.State, r: Iop.State)
    requires Iop.HsyncSilent(f) && (r == f || r == Iop.Publish(f))
    ensures Iop.HBlankStart(r) == Iop.Publish(f.(hBlanking := true))
    ensures Iop.HBlankEnd(r) == Iop.Publish(f.(hBlanking := false))
  {
    Iop.SilentEdges(f);
    Iop.SilentEdges(r);
    Iop.PublishIsIdempotent(f, true);
    Iop.PublishIsIdempotent(f, false);
  }

  // ----- any number of edges

  function FoldEdges(s: State, n: nat): State {
    if n == 0 then s else FoldEdge(FoldEdges(s, n - 1), ClockMask(s))
  }

  /** The first `n` edges may be folded. */
  predicate MayFold(s: State, n: nat) {
    if n == 0 then Foldable(s) && s.hsync.deltaCycles >= 0
    else MayFold(s, n - 1) && !WakesTheEe(FoldEdges(s, n - 1))
  }

  /** The first `n` edges lie strictly between `now` and `horizon`. */
  predicate EdgesWithin(s: State, n: nat, now: nat, horizon: nat) {
    n == 0 || (EdgesWithin(s, n - 1, now, horizon) && now < Edge(FoldEdges(s, n - 1).hsync) < horizon)
  }

  lemma {:induction false} FoldEdgesFoldable(s: State, n: nat)
    requires MayFold(s, n)
    ensures Foldable(FoldEdges(s, n)) && ClockMask(FoldEdges(s, n)) == ClockMask(s)
    ensures FoldEdges(s, n).hsync.deltaCycles >= 0
  {
    if n > 0 {
      FoldEdgesFoldable(s, n - 1);
      FoldKeepsFoldable(FoldEdges(s, n - 1));
    }
  }

  lemma {:induction false} FoldEdgesFrame(s: State, n: nat)
    ensures FoldEdges(s, n).irqs == s.irqs && FoldEdges(s, n).sint == s.sint && FoldEdges(s, n).cycle == s.cycle
    ensures FoldEdges(s, n).iop == s.iop.(hBlanking := FoldEdges(s, n).iop.hBlanking)
    ensures FoldEdges(s, n).vsync == s.vsync
  {
    if n > 0 {
      FoldEdgesFrame(s, n - 1);
      FoldEdgeFrame(FoldEdges(s, n - 1), ClockMask(s));
    }
  }

  lemma FoldEdgeFrame(s: State, mask: Mask)
    ensures FoldEdge(s, mask).irqs == s.irqs && FoldEdge(s, mask).sint == s.sint && FoldEdge(s, mask).cycle == s.cycle
    ensures FoldEdge(s, mask).iop == s.iop.(hBlanking := FoldEdge(s, mask).iop.hBlanking)
    ensures FoldEdge(s, mask).vsync == s.vsync
  {
  }

  /** Main result of this module: folding `n` edges leaves the horizontal sync counter, HSINT,
      the blanking level, all four counters and the list of raised interrupts exactly as running
      the ordinary handler at each of the `n` edge cycles does.  The two states differ only in
      the current cycle and, where the deadline of IOP counter 0 had not been published, in that
      deadline. */
  lemma {:induction false} FoldSimulatesStepping(s: State, n: nat)
    requires MayFold(s, n)
    ensures Tracks(FoldEdges(s, n), StepEdges(s, n), n)
  {
    if n > 0 {
      FoldSimulatesStepping(s, n - 1);
      FoldEdgesFoldable(s, n - 1);
      TracksOneMore(s, n, FoldEdges(s, n - 1), StepEdges(s, n - 1));
    }
  }

  predicate Ready(f: State, mask: Mask) {
    Foldable(f) && ClockMask(f) == mask && f.hsync.deltaCycles >= 0
  }

  lemma TracksOneMore(s: State, n: nat, f: State, r: State)
    requires n > 0 && f == FoldEdges(s, n - 1) && r == StepEdges(s, n - 1)
    requires Ready(f, ClockMask(s)) && !WakesTheEe(f) && Tracks(f, r, n - 1)
    ensures Tracks(FoldEdges(s, n), StepEdges(s, n), n)
  {
    EdgeSimulates(f, r, n - 1);
    NoInterrupt(f, FoldEdges(s, n));
  }

  lemma NoInterrupt(f: State, next: State)
    requires !WakesTheEe(f) && next == FoldEdge(f, ClockMask(f))
    ensures next.(irqs := f.irqs + WakeUp(f)) == next
  {
    FoldEdgeFrame(f, ClockMask(f));
  }

  /** Agreement on everything the guest can see of the timers. */
  predicate SameTimers(a: State, b: State) {
    && a.hsync == b.hsync && a.hsint == b.hsint && a.counters == b.counters
    && a.iop.hBlanking == b.iop.hBlanking && a.irqs == b.irqs && a.iop.irqs == b.iop.irqs
  }

  /** The consequence spelled out field by field: the guest-visible timer state is the same, and
      no stepped edge raises an interrupt on either processor. */
  lemma FoldedStateIsSteppedState(s: State, n: nat)
    requires MayFold(s, n)
    ensures SameTimers(FoldEdges(s, n), StepEdges(s, n))
    ensures StepEdges(s, n).irqs == s.irqs && StepEdges(s, n).iop.irqs == s.iop.irqs
  {
    FoldSimulatesStepping(s, n);
    FoldEdgesFrame(s, n);
  }

  /** The source takes the skipped IOP callbacks to republish an unchanged deadline.  They do so
      exactly when IOP counter 0 does not count cycles, or is past its target with four cycles
      scheduled, or is due no sooner than the IOP deadline; the fold and the steps then agree on
      the whole IOP state, and otherwise they do not. */
  lemma IopAgreesIffPublished(s: State, n: nat)
    requires MayFold(s, n) && n > 0 && !s.sint
    ensures StepEdges(s, n).iop == FoldEdges(s, n).iop <==> Iop.Published(s.iop)
  {
    FoldEdgesFrame(s, n);
    MayFoldStart(s, n);
    var f := FoldEdges(s, n);
    assert StepEdges(s, n).iop == Iop.Publish(f.iop) by {
      FoldSimulatesStepping(s, n);
    }
    Iop.PublishedAtAnyLevel(s.iop, f.iop.hBlanking);
    Iop.PublishedIff(s.iop);
  }

  /** An instance: IOP counter 0 is past its target while the IOP deadline is one cycle away.  The
      fold leaves the deadline alone, the step postpones it to four cycles. */
  lemma SkippedPublication() returns (s: State)
    ensures MayFold(s, 1) && !s.sint
    ensures FoldEdges(s, 1).iop.nextDelta == 1 && StepEdges(s, 1).iop.nextDelta == 4
  {
    var mode := Iop.Mode(false, 0, false, false, false, false, false, false, false, false, false);
    var late := Iop.Counter(20, 10, 1, 0, 0, mode);
    var still := late.(mode := mode.(stopped := true));
    var iop := Iop.State(0, late, still, still, true, false, 0, 1, []);
    var idle := Counter(0, Mode(0, false, false, 0, false, false, false, false, false, false), 0xFFFF, 2, 0, 0);
    s := State(0, [idle, idle, idle, idle], HSync(HBlank, 0, 50), VSync(VRender, 0, 5000),
               50, 50, false, false, false, iop, 0, 50, []);
    assert Foldable(s);
    assert MayFold(s, 0) && FoldEdges(s, 0) == s && MayFold(s, 1);
    assert FoldEdges(s, 1).iop == iop.(hBlanking := false);
    FoldSimulatesStepping(s, 1);
  }

  lemma {:induction false} MayFoldStart(s: State, n: nat)
    requires MayFold(s, n)
    ensures Foldable(s) && s.hsync.deltaCycles >= 0
  {
    if n > 0 {
      MayFoldStart(s, n - 1);
    }
  }
}
