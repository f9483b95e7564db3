/** The vertical sync handler of pcsx2/Counters.cpp:969-1005 in front of the rest of rcntUpdate, and the
    comparison of the fold with the ordinary path at an update that may find a vertical edge due.
    The IOP's own callbacks at a vertical blank are not part of it. */
module VerticalUpdates {

  import opened Words
  import opened EeTimers
  import opened HsyncFold
  import opened CounterUpdates
  import opened FoldedUpdates
  import opened Ticks
  import Deadlines
  import Iop = IopCounters

  /** Durations of the vertical phases and the rounding error of the horizontal ones, in cycles;
      `vsint` is CSR.VSINT, `vsmsk` IMR.VSMSK. */
  datatype Video = Video(render: phase, blank: phase, gsBlank: phase, hSyncError: u32, vsint: bool, vsmsk: bool)

  const VBLANK_STARTS: nat := 2
  const VBLANK_ENDS: nat := 3

  // ----- the handler

  predicate VerticalDue(s: State) {
    CpuTestCycle(s.cycle, s.vsync.startCycle, s.vsync.deltaCycles)
  }

  /** VSyncStart: what it does to the timers. */
  function VsyncStart(s: State, at: nat): State {
    if s.sint then s else StartGate(s.(irqs := s.irqs + [Intc(VBLANK_STARTS)]), true, at, |s.counters|)
  }

  function VsyncEnd(s: State, at: nat): State {
    if s.sint then s else EndGate(s.(irqs := s.irqs + [Intc(VBLANK_ENDS)]), true, at, |s.counters|)
  }

  /** GSVSync. */
  function GsVsync(s: State, video: Video): State {
    if s.sint || video.vsint || video.vsmsk then s else s.(irqs := s.irqs + [Gs])
  }

  /** rcntUpdate_vSync. */
  function VScanline(s: State, video: Video): State {
    if !VerticalDue(s) then s
    else
      match s.vsync.mode
      case VBlank =>
        var at := s.vsync.startCycle + video.blank;
        var g := VsyncEnd(s.(vsync := VSync(VBlank, at, video.render)), at);
        g.(vsync := g.vsync.(mode := VRender))
      case GsBlank =>
        var g := GsVsync(s, video);
        g.(vsync := g.vsync.(mode := VBlank, deltaCycles := video.blank))
      case VRender =>
        var at := s.vsync.startCycle + video.render;
        var g := VsyncStart(s.(vsync := VSync(VRender, at, video.gsBlank)), at);
        g.(vsync := g.vsync.(mode := GsBlank),
           hsync := g.hsync.(deltaCycles := S32(g.hsync.deltaCycles + video.hSyncError)))
  }

  /** rcntUpdate up to the loop over the counters, and the whole of it. */
  function Handlers(s: State, video: Video): State {
    HScanline(VScanline(s, video))
  }

  function AnyUpdate(s: State, video: Video): State {
    CpuRcntSet(UpdateUpTo(Handlers(s, video), |s.counters|))
  }

  /** The ordinary path, with the vertical handler in it. */
  function AnyUpdateEdges(s: State, n: nat, video: Video): State {
    if n == 0 then s
    else var r := AnyUpdateEdges(s, n - 1, video); AnyUpdate(r.(cycle := Edge(r.hsync)), video)
  }

  // ----- its gates, counter by counter

  /** The vertical edge of this update opens, closes or restarts a counter with this mode. */
  predicate Acts(m: Mode, s: State) {
    && VerticalDue(s) && !s.sint && Gated(m, true)
    && ((s.vsync.mode == VRender && m.gateMode != 2) || (s.vsync.mode == VBlank && m.gateMode != 1))
  }

  function GateCycle(s: State, video: Video): nat {
    s.vsync.startCycle + if s.vsync.mode == VBlank then video.blank else video.render
  }

  function Acted(c: Counter, s: State, video: Video): Counter {
    if Acts(c.mode, s) then
      GateActs(c, CanCount(c.mode, s.hsync.mode, s.vsync.mode), s.cycle, GateCycle(s, video), s.vsync.mode == VRender)
    else c
  }

  lemma {:induction false} StartGateAt(s: State, at: nat, n: nat)
    requires n <= 4
    ensures var g := StartGate(s, true, at, n); g == s.(counters := g.counters)
    ensures forall i :: 0 <= i < 4 ==>
              StartGate(s, true, at, n).counters[i]
              == if i < n && Gated(s.counters[i].mode, true) then GateStarts(s.counters[i], Counting(s, i), s.cycle, at)
                 else s.counters[i]
  {
    if n > 0 {
      StartGateAt(s, at, n - 1);
      StartGateNext(s, StartGate(s, true, at, n - 1), at, n - 1);
    }
  }

  lemma StartGateNext(s: State, g: State, at: nat, n: nat)
    requires n < 4 && g == s.(counters := g.counters) && g.counters[n] == s.counters[n]
    ensures StartGateOf(g, n, true, at)
         == s.(counters := g.counters[n := if Gated(s.counters[n].mode, true)
                                           then GateStarts(s.counters[n], Counting(s, n), s.cycle, at) else s.counters[n]])
  {
  }

  lemma {:induction false} EndGateAt(s: State, at: nat, n: nat)
    requires n <= 4
    ensures var g := EndGate(s, true, at, n); g == s.(counters := g.counters)
    ensures forall i :: 0 <= i < 4 ==>
              EndGate(s, true, at, n).counters[i]
              == if i < n && Gated(s.counters[i].mode, true) then GateEnds(s.counters[i], Counting(s, i), s.cycle, at)
                 else s.counters[i]
  {
    if n > 0 {
      EndGateAt(s, at, n - 1);
      EndGateNext(s, EndGate(s, true, at, n - 1), at, n - 1);
    }
  }

  lemma EndGateNext(s: State, g: State, at: nat, n: nat)
    requires n < 4 && g == s.(counters := g.counters) && g.counters[n] == s.counters[n]
    ensures EndGateOf(g, n, true, at)
         == s.(counters := g.counters[n := if Gated(s.counters[n].mode, true)
                                           then GateEnds(s.counters[n], Counting(s, n), s.cycle, at) else s.counters[n]])
  {
  }

  function NextVsync(v: VSync, video: Video): VSync {
    match v.mode
    case VBlank => VSync(VRender, v.startCycle + video.blank, video.render)
    case GsBlank => VSync(VBlank, v.startCycle, video.blank)
    case VRender => VSync(GsBlank, v.startCycle + video.render, video.gsBlank)
  }

  function Compensated(h: HSync, v: VMode, video: Video): HSync {
    if v == VRender then h.(deltaCycles := S32(h.deltaCycles + video.hSyncError)) else h
  }

  /** By number of the interrupt cause: 2 when the vertical blank starts, 3 when it ends. */
  function VerticalIrqs(v: VMode, sint: bool, video: Video): seq<Irq> {
    if sint then []
    else
      match v
      case VBlank => [Intc(3)]
      case GsBlank => if video.vsint || video.vsmsk then [] else [Gs]
      case VRender => [Intc(2)]
  }

  /** What the handler does apart from the counters, which has nothing to do with them. */
  function AfterVertical(s: State, video: Video): State {
    if !VerticalDue(s) then s
    else
      s.(vsync := NextVsync(s.vsync, video), hsync := Compensated(s.hsync, s.vsync.mode, video),
         irqs := s.irqs + VerticalIrqs(s.vsync.mode, s.sint, video))
  }

  lemma VScanlineAt(s: State, video: Video)
    ensures var g := VScanline(s, video);
            && g == AfterVertical(s, video).(counters := g.counters)
            && forall i :: 0 <= i < 4 ==> g.counters[i] == Acted(s.counters[i], s, video)
  {
    if VerticalDue(s) && !s.sint {
      if s.vsync.mode == VRender {
        VerticalStartAt(s, video);
      } else if s.vsync.mode == VBlank {
        VerticalEndAt(s, video);
      }
    }
  }

  lemma VerticalStartAt(s: State, video: Video)
    requires VerticalDue(s) && !s.sint && s.vsync.mode == VRender
    ensures var g := VScanline(s, video);
            && g == AfterVertical(s, video).(counters := g.counters)
            && forall i :: 0 <= i < 4 ==> g.counters[i] == Acted(s.counters[i], s, video)
  {
    var at := GateCycle(s, video);
    StartGateAt(s.(vsync := VSync(VRender, at, video.gsBlank), irqs := s.irqs + [Intc(VBLANK_STARTS)]), at, |s.counters|);
  }

  lemma VerticalEndAt(s: State, video: Video)
    requires VerticalDue(s) && !s.sint && s.vsync.mode == VBlank
    ensures var g := VScanline(s, video);
            && g == AfterVertical(s, video).(counters := g.counters)
            && forall i :: 0 <= i < 4 ==> g.counters[i] == Acted(s.counters[i], s, video)
  {
    var at := GateCycle(s, video);
    EndGateAt(s.(vsync := VSync(VBlank, at, video.render), irqs := s.irqs + [Intc(VBLANK_ENDS)]), at, |s.counters|);
  }

  // ----- two states side by side

  /** `b` is `a` but for the IOP, the EE deadline and the counters, with the same modes; a counter clocked
      by the edges differs at most in its start cycle. */
  predicate Twin(a: State, b: State) {
    && Alike(a.(counters := b.counters), b) && a.iop.hBlanking == b.iop.hBlanking
    && forall i :: 0 <= i < 4 ==> TwinCounter(a.counters[i], b.counters[i])
  }

  predicate TwinCounter(c: Counter, d: Counter) {
    c.mode == d.mode && (External(c) ==> d == c.(startCycle := d.startCycle))
  }

  lemma ActedTwins(c: Counter, d: Counter, a: State, b: State, video: Video)
    requires TwinCounter(c, d) && Alike(a.(counters := b.counters), b)
    ensures TwinCounter(Acted(c, a, video), Acted(d, b, video)) && Acted(c, a, video).mode == c.mode
  {
  }

  lemma AfterVerticalAlike(a: State, b: State, video: Video, bank: Bank, bank': Bank)
    requires Alike(a.(counters := b.counters), b)
    ensures var a', b' := AfterVertical(a, video).(counters := bank), AfterVertical(b, video).(counters := bank');
            Alike(a'.(counters := b'.counters), b') && a'.iop == a.iop && b'.iop == b.iop
  {
  }

  lemma VScanlineKeepsTwins(a: State, b: State, video: Video)
    requires Twin(a, b)
    ensures Twin(VScanline(a, video), VScanline(b, video))
    ensures forall i :: 0 <= i < 4 ==> VScanline(a, video).counters[i].mode == a.counters[i].mode
  {
    VScanlineAt(a, video);
    VScanlineAt(b, video);
    var a', b' := VScanline(a, video), VScanline(b, video);
    AfterVerticalAlike(a, b, video, a'.counters, b'.counters);
    forall i | 0 <= i < 4
      ensures TwinCounter(a'.counters[i], b'.counters[i]) && a'.counters[i].mode == a.counters[i].mode
    {
      ActedTwins(a.counters[i], b.counters[i], a, b, video);
    }
  }

  /** Gated by the horizontal blank, no counter of a foldable state is. */
  predicate NoneGated(s: State) {
    forall i :: 0 <= i < 4 ==> !Gated(s.counters[i].mode, false)
  }

  /** Counters that count cycles are as they were, and no counter has changed its clock. */
  predicate SparesOthers(a: State, a': State) {
    forall i :: 0 <= i < 4 ==>
      External(a'.counters[i]) == External(a.counters[i])
      && (!External(a.counters[i]) ==> a'.counters[i] == a.counters[i])
  }

  lemma TickKeepsTwins(a: State, b: State, i: nat, at: nat)
    requires i < 4 && Twin(a, b) && NoneGated(a)
    ensures var a', b' := StartGateOf(a, i, false, at), StartGateOf(b, i, false, at);
            && Twin(a', b') && NoneGated(a') && SparesOthers(a, a') && SparesOthers(b, b')
            && a' == a.(counters := a'.counters, irqs := a'.irqs) && b'.iop == b.iop
  {
    var c, d := a.counters[i], b.counters[i];
    assert TwinCounter(c, d);
    assert !Gated(c.mode, false);
    UngatedStart(a, i, at);
    UngatedStart(b, i, at);
    if Clocked(a, i) {
      TickedTwins(c, d);
      TwinsUpdated(a, b, i, TickOne(c), TickOne(d), TickIrqs(c));
    }
  }

  function TickIrqs(c: Counter): seq<Irq> {
    TestIrqs(c.(count := U32(c.count + 1)))
  }

  lemma TickedTwins(c: Counter, d: Counter)
    requires TwinCounter(c, d) && External(c)
    ensures TwinCounter(TickOne(c), TickOne(d)) && TickIrqs(c) == TickIrqs(d)
  {
    TestedElsewhere(c.(count := U32(c.count + 1)), d.startCycle);
  }

  /** A counter that the horizontal blank does not gate. */
  lemma UngatedStart(s: State, i: nat, at: nat)
    requires i < 4 && !Gated(s.counters[i].mode, false)
    ensures var c := s.counters[i];
            StartGateOf(s, i, false, at)
            == if Clocked(s, i) then s.(counters := s.counters[i := TickOne(c)],
                                        irqs := s.irqs + TickIrqs(c))
               else s
    ensures External(TickOne(s.counters[i])) == External(s.counters[i]) && !Gated(TickOne(s.counters[i]).mode, false)
  {
    UngatedTick(s.counters[i]);
  }

  lemma UngatedTick(c: Counter)
    ensures External(TickOne(c)) == External(c) && Gated(TickOne(c).mode, false) == Gated(c.mode, false)
  {
  }

  lemma TwinsUpdated(a: State, b: State, i: nat, c: Counter, d: Counter, more: seq<Irq>)
    requires i < 4 && Twin(a, b) && NoneGated(a) && TwinCounter(c, d) && External(c) && External(a.counters[i])
    requires !Gated(c.mode, false)
    ensures var a', b' := a.(counters := a.counters[i := c], irqs := a.irqs + more),
                          b.(counters := b.counters[i := d], irqs := b.irqs + more);
            Twin(a', b') && NoneGated(a') && SparesOthers(a, a') && SparesOthers(b, b')
  {
    var bank, bank' := a.counters[i := c], b.counters[i := d];
    forall j | 0 <= j < 4
      ensures TwinCounter(bank[j], bank'[j]) && !Gated(bank[j].mode, false)
    {
      assert TwinCounter(a.counters[j], b.counters[j]) && !Gated(a.counters[j].mode, false);
    }
    assert TwinCounter(a.counters[i], b.counters[i]);
  }

  lemma {:induction false} StartGateKeepsTwins(a: State, b: State, at: nat, n: nat)
    requires n <= 4 && Twin(a, b) && NoneGated(a)
    ensures var a', b' := StartGate(a, false, at, n), StartGate(b, false, at, n);
            && Twin(a', b') && NoneGated(a') && SparesOthers(a, a') && SparesOthers(b, b')
            && a' == a.(counters := a'.counters, irqs := a'.irqs) && b'.iop == b.iop
  {
    if n > 0 {
      StartGateKeepsTwins(a, b, at, n - 1);
      TickKeepsTwins(StartGate(a, false, at, n - 1), StartGate(b, false, at, n - 1), n - 1, at);
    }
  }

  lemma {:induction false} NoneGatedAtEnd(s: State, at: nat, n: nat)
    requires n <= 4 && NoneGated(s)
    ensures EndGate(s, false, at, n) == s
  {
    if n > 0 {
      NoneGatedAtEnd(s, at, n - 1);
      assert !Gated(s.counters[n - 1].mode, false);
    }
  }

  lemma HScanlineKeepsTwins(a: State, b: State)
    requires Twin(a, b) && (a.sint || NoneGated(a))
    ensures var a', b' := HScanline(a), HScanline(b);
            && Twin(a', b') && SparesOthers(a, a') && SparesOthers(b, b')
            && a'.cycle == a.cycle && a'.vsync == a.vsync && a'.hsync.mode == LevelAt(a, a.cycle)
  {
    if EdgeDue(a, a.cycle) && !a.sint {
      if a.hsync.mode == HBlank {
        EndKeepsTwins(a, b);
      } else {
        StartKeepsTwins(a, b);
      }
    }
  }

  lemma EndKeepsTwins(a: State, b: State)
    requires Twin(a, b) && NoneGated(a) && a.hsync.mode == HBlank && !a.sint
    ensures var a', b' := BlankEnds(a), BlankEnds(b);
            && Twin(a', b') && a'.counters == a.counters && b'.counters == b.counters
            && a'.cycle == a.cycle && a'.vsync == a.vsync && a'.hsync.mode == HRender
  {
    var edge := HSync(HBlank, a.hsync.startCycle + a.hBlank, a.hRender);
    forall i | 0 <= i < 4
      ensures !Gated(b.counters[i].mode, false)
    {
      assert TwinCounter(a.counters[i], b.counters[i]) && !Gated(a.counters[i].mode, false);
    }
    NoneGatedAtEnd(a.(hsync := edge), edge.startCycle, |a.counters|);
    NoneGatedAtEnd(b.(hsync := edge), edge.startCycle, |b.counters|);
  }

  lemma StartKeepsTwins(a: State, b: State)
    requires Twin(a, b) && NoneGated(a) && a.hsync.mode == HRender && !a.sint
    ensures var a', b' := BlankStarts(a), BlankStarts(b);
            && Twin(a', b') && SparesOthers(a, a') && SparesOthers(b, b')
            && a'.cycle == a.cycle && a'.vsync == a.vsync && a'.hsync.mode == HBlank
  {
    var a1, b1 := BeforeStart(a), BeforeStart(b);
    BeforeStartTwins(a, b);
    BlankStartsAt(a);
    BlankStartsAt(b);
    StartGateKeepsTwins(a1, b1, a1.hsync.startCycle, |a.counters|);
    BlanksTwins(StartGate(a1, false, a1.hsync.startCycle, |a.counters|), StartGate(b1, false, b1.hsync.startCycle, |b.counters|));
  }

  /** The blank start up to its gates. */
  function BeforeStart(s: State): State {
    s.(hsync := HSync(HRender, s.hsync.startCycle + s.hRender, s.hBlank), hsint := true,
       irqs := if s.hsint || s.hsmsk then s.irqs else s.irqs + [Gs])
  }

  lemma BeforeStartTwins(a: State, b: State)
    requires Twin(a, b) && NoneGated(a)
    ensures Twin(BeforeStart(a), BeforeStart(b)) && NoneGated(BeforeStart(a))
  {
  }

  lemma BlankStartsAt(s: State)
    requires !s.sint
    ensures var before := BeforeStart(s);
            var g := StartGate(before, false, before.hsync.startCycle, |s.counters|);
            BlankStarts(s) == WithHMode(g.(iop := Iop.HBlankStart(g.iop)), HBlank)
  {
  }

  lemma BlanksTwins(g: State, h: State)
    requires Twin(g, h)
    ensures var a', b' := WithHMode(g.(iop := Iop.HBlankStart(g.iop)), HBlank), WithHMode(h.(iop := Iop.HBlankStart(h.iop)), HBlank);
            Twin(a', b') && a'.counters == g.counters && b'.counters == h.counters
  {
  }

  /** What both handlers leave of a counter that counts cycles. */
  lemma HandlersKeepTwins(a: State, b: State, video: Video)
    requires Twin(a, b) && (a.sint || NoneGated(a))
    ensures var a', b' := Handlers(a, video), Handlers(b, video);
            && Twin(a', b') && a'.cycle == a.cycle
            && a'.hsync.mode == LevelAt(AfterVertical(a, video), a.cycle) && a'.vsync.mode == AfterVertical(a, video).vsync.mode
            && forall i :: 0 <= i < 4 ==>
                 && External(a'.counters[i]) == External(a.counters[i])
                 && (!External(a.counters[i]) ==> a'.counters[i] == Acted(a.counters[i], a, video)
                                                  && b'.counters[i] == Acted(b.counters[i], b, video))
  {
    VScanlineKeepsTwins(a, b, video);
    VScanlineAt(a, video);
    VScanlineAt(b, video);
    var a1, b1 := VScanline(a, video), VScanline(b, video);
    HScanlineKeepsTwins(a1, b1);
  }

  // ----- one counter at the next update

  /** When a counter agrees on the two paths at an update that finds the levels `h` and `v` at its start
      and leaves `h1` and `v1`.  One that the vertical edge acts on: unless it is closed with nobody
      watching after a test has wrapped or postponed it.  One whose level the update changes without an
      act: if no tick elapses before an edge that brings the other level. */
  predicate Agrees(c: Counter, times: seq<nat>, t: nat, h: HMode, v: VMode, acts: bool, h1: HMode, v1: VMode) {
    || External(c)
    || if acts then c.mode.gateMode != 0 || !CanCount(c.mode, h, v) || !Unnoticed(c.mode) || Untested(c, times)
       else if LevelFree(c.mode) && CanCount(c.mode, h, v) == CanCount(c.mode, h1, v1) then
         WrapsAlike(c, times, t, CanCount(c.mode, h, v))
       else NoTickAt(c, times, h, v, !CanCount(c.mode, h1, v1))
  }

  /** In range up to the update; one whose level changes without an act reaches no threshold. */
  ghost predicate FitForUpdate(c: Counter, from: nat, times: seq<nat>, t: nat,
                               h: HMode, v: VMode, acts: bool, h1: HMode, v1: VMode) {
    && CounterFit(c, from, times, h, v)
    && (External(c)
        || (InOrder(c, from, times + [t])
            && (acts || (LevelFree(c.mode) && CanCount(c.mode, h, v) == CanCount(c.mode, h1, v1))
                || !Deadlines.CounterDue(c, t))))
  }

  lemma CounterAtUpdate(c: Counter, from: nat, times: seq<nat>, h: HMode, h1: HMode, v1: VMode, f: State, video: Video)
    requires !External(c)
    requires var x, v := LevelUpdates(c, times, h, f.vsync.mode), f.vsync.mode;
             && x.mode == c.mode
             && FitForUpdate(c, from, times, f.cycle, h, v, Acts(c.mode, f), h1, v1)
    requires v1 == AfterVertical(f, video).vsync.mode
    ensures var x, v, t := LevelUpdates(c, times, h, f.vsync.mode), f.vsync.mode, f.cycle;
            var a, b, counting := Acted(c, f, video), Acted(x, f, video), CanCount(c.mode, h1, v1);
            && a.mode == b.mode == c.mode
            && UpdateIrqs(a, t, counting) == UpdateIrqs(b, t, counting)
            && (UpdateCounter(a, t, counting) == UpdateCounter(b, t, counting)
                <==> Agrees(c, times, t, h, v, Acts(c.mode, f), h1, v1))
  {
    var x, v, t := LevelUpdates(c, times, h, f.vsync.mode), f.vsync.mode, f.cycle;
    var counting, after := CanCount(c.mode, h, v), CanCount(c.mode, h1, v1);
    if Acts(c.mode, f) {
      LevelFreeUpdates(c, times, h, v);
      LevelFreeCounts(c.mode, h, f.hsync.mode, v);
      VerticalUpdateIff(c, from, times, t, GateCycle(f, video), counting, v == VRender, after);
      VerticalGateIff(c, from, times, t, GateCycle(f, video), counting, v == VRender);
    } else if LevelFree(c.mode) && counting == after {
      LevelFreeUpdates(c, times, h, v);
      CalmAtEnd(c, from, times, t, counting);
    } else {
      LevelAtEndIff(c, from, times, t, h, v, after);
    }
  }

  // ----- the whole update

  /** Every counter is fit for the update of `f`, or agrees at it. */
  ghost predicate AllFit(s: State, times: seq<nat>, f: State, video: Video) {
    var next := AfterVertical(f, video);
    forall i :: 0 <= i < 4 ==>
      FitForUpdate(s.counters[i], s.cycle, times, f.cycle, s.hsync.mode, s.vsync.mode, Acts(s.counters[i].mode, f),
                   LevelAt(next, f.cycle), next.vsync.mode)
  }

  ghost predicate AllAgreeAt(s: State, times: seq<nat>, f: State, video: Video) {
    var next := AfterVertical(f, video);
    forall i :: 0 <= i < 4 ==>
      Agrees(s.counters[i], times, f.cycle, s.hsync.mode, s.vsync.mode, Acts(s.counters[i].mode, f),
             LevelAt(next, f.cycle), next.vsync.mode)
  }

  lemma TwinsAtEnd(s: State, f: State, r: State, times: seq<nat>, t: nat)
    requires Follows(s, f, r, times) && Foldable(f)
    ensures Twin(f.(cycle := t), r.(cycle := t)) && (f.sint || NoneGated(f))
  {
    forall i | 0 <= i < 4
      ensures TwinCounter(f.counters[i], r.counters[i])
    {
      assert CounterFollows(s.counters[i], f.counters[i], r.counters[i], times, s.hsync.mode, s.vsync.mode);
    }
    if !f.sint {
      forall i | 0 <= i < 4
        ensures !Gated(f.counters[i].mode, false)
      {
        assert CounterFoldable(f, i);
      }
    }
  }

  /** Counter `i` of the two paths, after the handlers have left `a` and `b`. */
  lemma TwinsUpdateIff(c: Counter, from: nat, times: seq<nat>, h: HMode, f: State, video: Video,
                       folded: Counter, stepped: Counter, a: Counter, b: Counter)
    requires CounterFollows(c, folded, stepped, times, h, f.vsync.mode) && TwinCounter(a, b) && External(a) == External(folded)
    requires !External(folded) ==> a == Acted(folded, f, video) && b == Acted(stepped, f, video)
    requires var next := AfterVertical(f, video);
             FitForUpdate(c, from, times, f.cycle, h, f.vsync.mode, Acts(c.mode, f), LevelAt(next, f.cycle), next.vsync.mode)
    ensures var next := AfterVertical(f, video);
            var h1, v1 := LevelAt(next, f.cycle), next.vsync.mode;
            && UpdateIrqs(a, f.cycle, CanCount(a.mode, h1, v1)) == UpdateIrqs(b, f.cycle, CanCount(b.mode, h1, v1))
            && (UpdateCounter(a, f.cycle, CanCount(a.mode, h1, v1)) == UpdateCounter(b, f.cycle, CanCount(b.mode, h1, v1))
                <==> Agrees(c, times, f.cycle, h, f.vsync.mode, Acts(c.mode, f), h1, v1))
  {
    if !External(c) {
      var next := AfterVertical(f, video);
      CounterAtUpdate(c, from, times, h, LevelAt(next, f.cycle), next.vsync.mode, f, video);
    }
  }

  lemma ActedAlike(c: Counter, a: State, b: State, video: Video)
    requires Alike(a.(counters := b.counters), b)
    ensures Acted(c, a, video) == Acted(c, b, video)
  {
  }

  /** The counter loop after the handlers. */
  lemma UpdatedTwinsIff(s: State, f: State, r: State, times: seq<nat>, video: Video, a: State, b: State)
    requires f.vsync == s.vsync && Twin(f, r) && (f.sint || NoneGated(f)) && AllFit(s, times, f, video)
    requires forall i :: 0 <= i < 4 ==>
               CounterFollows(s.counters[i], f.counters[i], r.counters[i], times, s.hsync.mode, s.vsync.mode)
    requires a == Handlers(f, video) && b == Handlers(r, video)
    ensures Alike(UpdateUpTo(a, |a.counters|), UpdateUpTo(b, |b.counters|)) <==> AllAgreeAt(s, times, f, video)
    ensures a.iop.hBlanking == b.iop.hBlanking
  {
    HandlersKeepTwins(f, r, video);
    var next := AfterVertical(f, video);
    forall i | 0 <= i < 4
      ensures UpdateIrqs(a.counters[i], a.cycle, Counting(a, i)) == UpdateIrqs(b.counters[i], b.cycle, Counting(b, i))
      ensures UpdateCounter(a.counters[i], a.cycle, Counting(a, i)) == UpdateCounter(b.counters[i], b.cycle, Counting(b, i))
         <==> Agrees(s.counters[i], times, f.cycle, s.hsync.mode, s.vsync.mode, Acts(s.counters[i].mode, f),
                     LevelAt(next, f.cycle), next.vsync.mode)
    {
      ActedAlike(r.counters[i], f, r, video);
      TwinsUpdateIff(s.counters[i], s.cycle, times, s.hsync.mode, f, video,
                     f.counters[i], r.counters[i], a.counters[i], b.counters[i]);
    }
    UpdateUpToIrqs(a, b, |a.counters|);
    WholeLoop(a);
    WholeLoop(b);
    ResultsAlikeIff(a, b, UpdateUpTo(a, |a.counters|), UpdateUpTo(b, |b.counters|));
  }

  lemma AnyEndOf(s: State, f: State, r: State, times: seq<nat>, t: nat, video: Video)
    requires Follows(s, f, r, times) && Foldable(f) && AllFit(s, times, f.(cycle := t), video)
    ensures var u, w := AnyUpdate(f.(cycle := t), video), AnyUpdate(r.(cycle := t), video);
            && (w == u.(iop := w.iop) <==> AllAgreeAt(s, times, f.(cycle := t), video))
            && u.iop.hBlanking == w.iop.hBlanking
  {
    TwinsAtEnd(s, f, r, times, t);
    var a, b := Handlers(f.(cycle := t), video), Handlers(r.(cycle := t), video);
    UpdatedTwinsIff(s, f.(cycle := t), r.(cycle := t), times, video, a, b);
    WholeLoop(a);
    WholeLoop(b);
    DeadlineKeepsAlike(UpdateUpTo(a, |a.counters|), UpdateUpTo(b, |b.counters|));
  }

  /** No vertical edge is due at the given cycles. */
  predicate VerticalLater(s: State, times: seq<nat>) {
    forall j :: 0 <= j < |times| ==> !CpuTestCycle(times[j], s.vsync.startCycle, s.vsync.deltaCycles)
  }

  lemma NoVerticalEdge(s: State, video: Video)
    requires !VerticalDue(s)
    ensures AnyUpdate(s, video) == RcntUpdate(s)
  {
  }

  /** The first `n` edges may be folded, and no vertical edge is due at them. */
  ghost predicate HorizontalOnly(s: State, n: nat) {
    MayFold(s, n) && Fit(s, EdgeTimes(s, n)) && VerticalLater(s, EdgeTimes(s, n))
  }

  /** On the ordinary path, too, each of them comes before the vertical edge. */
  predicate HorizontalFirst(s: State, n: nat) {
    n == 0 || (HorizontalFirst(s, n - 1) && IsHorizontalNext(UpdateEdges(s, n - 1)))
  }

  lemma {:induction false} FoldedAreFirst(s: State, n: nat)
    requires HorizontalOnly(s, n)
    ensures HorizontalFirst(s, n)
  {
    if n > 0 {
      Sooner(s, n);
      FoldedAreFirst(s, n - 1);
      HorizontalNext(s, n);
    }
  }

  /** At such edges the vertical handler has nothing to do. */
  lemma {:induction false} NoVerticalEdges(s: State, n: nat, video: Video)
    requires HorizontalFirst(s, n)
    ensures AnyUpdateEdges(s, n, video) == UpdateEdges(s, n)
  {
    if n > 0 {
      NoVerticalEdges(s, n - 1, video);
      NoVerticalNext(s, n, UpdateEdges(s, n - 1), video);
    }
  }

  /** The next horizontal edge comes before the vertical one. */
  predicate IsHorizontalNext(r: State) {
    !CpuTestCycle(Edge(r.hsync), r.vsync.startCycle, r.vsync.deltaCycles)
  }

  lemma HorizontalNext(s: State, n: nat)
    requires n > 0 && MayFold(s, n - 1) && Fit(s, EdgeTimes(s, n - 1))
    requires !CpuTestCycle(Edge(FoldEdges(s, n - 1).hsync), s.vsync.startCycle, s.vsync.deltaCycles)
    ensures IsHorizontalNext(UpdateEdges(s, n - 1))
  {
    FoldFollows(s, n - 1);
    HorizontalInBoth(s, FoldEdges(s, n - 1), UpdateEdges(s, n - 1), EdgeTimes(s, n - 1));
  }

  lemma HorizontalInBoth(s: State, f: State, r: State, times: seq<nat>)
    requires Follows(s, f, r, times) && !CpuTestCycle(Edge(f.hsync), s.vsync.startCycle, s.vsync.deltaCycles)
    ensures IsHorizontalNext(r)
  {
  }

  lemma NoVerticalNext(s: State, n: nat, r: State, video: Video)
    requires n > 0 && r == UpdateEdges(s, n - 1) && r == AnyUpdateEdges(s, n - 1, video) && IsHorizontalNext(r)
    ensures AnyUpdateEdges(s, n, video) == UpdateEdges(s, n)
  {
    NoVerticalEdge(r.(cycle := Edge(r.hsync)), video);
  }

  lemma Sooner(s: State, n: nat)
    requires n > 0 && HorizontalOnly(s, n)
    ensures HorizontalOnly(s, n - 1)
    ensures !CpuTestCycle(Edge(FoldEdges(s, n - 1).hsync), s.vsync.startCycle, s.vsync.deltaCycles)
  {
    FitSooner(s, n);
    VerticalLaterBefore(s, EdgeTimes(s, n - 1), Edge(FoldEdges(s, n - 1).hsync));
  }

  lemma VerticalLaterBefore(s: State, times: seq<nat>, t: nat)
    requires VerticalLater(s, times + [t])
    ensures VerticalLater(s, times) && !CpuTestCycle(t, s.vsync.startCycle, s.vsync.deltaCycles)
  {
    var all := times + [t];
    assert all[|times|] == t && forall j :: 0 <= j < |times| ==> all[j] == times[j];
  }

  /** Folding `n` edges and updating at `t` leaves the EE side exactly as updating at each edge and then
      at `t`, whatever edges are due then, vertical or horizontal, in time or late, if and only if every
      counter agrees: one that nobody watches does not overflow both before the last edge and again
      before `t`, and is not closed at `t` after a test has acted on it; and one that follows a level
      sees no tick before an edge with another level than the last.  On the IOP side the horizontal
      blanking level agrees in any case. */
  lemma FoldThenUpdateIff(s: State, n: nat, t: nat, video: Video)
    requires MayFold(s, n) && VerticalLater(s, EdgeTimes(s, n))
    requires AllFit(s, EdgeTimes(s, n), FoldEdges(s, n).(cycle := t), video)
    ensures var u, w := AnyUpdate(FoldEdges(s, n).(cycle := t), video), AnyUpdate(AnyUpdateEdges(s, n, video).(cycle := t), video);
            && (w == u.(iop := w.iop) <==> AllAgreeAt(s, EdgeTimes(s, n), FoldEdges(s, n).(cycle := t), video))
            && u.iop.hBlanking == w.iop.hBlanking
  {
    var f, times := FoldEdges(s, n), EdgeTimes(s, n);
    AllFitForEdges(s, times, f.(cycle := t), video);
    FoldedAreFirst(s, n);
    NoVerticalEdges(s, n, video);
    FoldFollows(s, n);
    FoldEdgesFoldable(s, n);
    AnyEndOf(s, f, UpdateEdges(s, n), times, t, video);
  }

  lemma AllFitForEdges(s: State, times: seq<nat>, f: State, video: Video)
    requires AllFit(s, times, f, video)
    ensures Fit(s, times)
  {
    var next := AfterVertical(f, video);
    forall i | 0 <= i < 4
      ensures CounterFit(s.counters[i], s.cycle, times, s.hsync.mode, s.vsync.mode)
    {
      assert FitForUpdate(s.counters[i], s.cycle, times, f.cycle, s.hsync.mode, s.vsync.mode, Acts(s.counters[i].mode, f),
                          LevelAt(next, f.cycle), next.vsync.mode);
    }
  }

  // ----- the horizon the caller uses

  /** The next vertical edge is ahead, and a counter that it would open or close but for suppressed
      sync interrupts reaches no threshold. */
  predicate VerticalRanges(s: State, t: nat) {
    && s.vsync.startCycle <= s.cycle && s.vsync.deltaCycles >= 0
    && forall i :: 0 <= i < 4 && s.sint && FollowsVertical(s.counters[i]) ==> !Deadlines.CounterDue(s.counters[i], t)
  }

  predicate FollowsVertical(c: Counter) {
    !External(c) && Gated(c.mode, true) && c.mode.gateMode == 0
  }

  lemma {:induction false} VerticalDeadline(s: State, n: nat)
    requires n <= 4
    ensures Deadlines.DeadlineUpTo(s, n) <= Deadlines.VsyncEdge(s)
  {
    if n > 0 {
      VerticalDeadline(s, n - 1);
    }
  }

  lemma HorizonIsBeforeVerticalEdge(s: State, n: nat)
    requires EdgesWithin(s, n, s.cycle, Deadlines.NonHsyncDeadline(s))
    requires s.vsync.startCycle <= s.cycle && s.vsync.deltaCycles >= 0
    ensures VerticalLater(s, EdgeTimes(s, n))
  {
    VerticalDeadline(s, 4);
    forall j | 0 <= j < n
      ensures !CpuTestCycle(EdgeTimes(s, n)[j], s.vsync.startCycle, s.vsync.deltaCycles)
    {
      EdgesBefore(s, n, Deadlines.NonHsyncDeadline(s), j);
      NotYetDue(s.vsync, EdgeTimes(s, n)[j]);
    }
  }

  lemma NotYetDue(v: VSync, t: nat)
    requires v.startCycle <= t < v.startCycle + U32(v.deltaCycles) && v.deltaCycles >= 0
    ensures !CpuTestCycle(t, v.startCycle, v.deltaCycles)
  {
  }

  /** A level that the update changes without an act is one that the counter follows. */
  lemma FitsAnyUpdate(s: State, n: nat, t: nat, i: nat, f: State, video: Video)
    requires i < 4 && EdgesWithin(s, n, s.cycle, Deadlines.NonHsyncDeadline(s)) && Deadlines.NonePast(s, 4)
    requires Ranges(s, EdgeTimes(s, n), t) && VerticalRanges(s, t)
    requires f.cycle == t && f.vsync == s.vsync && f.sint == s.sint
    ensures var c, next := s.counters[i], AfterVertical(f, video);
            FitForUpdate(c, s.cycle, EdgeTimes(s, n), t, s.hsync.mode, s.vsync.mode, Acts(c.mode, f),
                         LevelAt(next, t), next.vsync.mode)
  {
    CounterFitsHorizon(s, n, t, i);
  }

  /** With the horizon no later than the vertical edge and the next deadline, and no watched counter past
      its target, the fold and the ordinary path agree at the next update under the same condition. */
  lemma FoldBeforeDeadlineIff(s: State, n: nat, t: nat, video: Video)
    requires MayFold(s, n) && EdgesWithin(s, n, s.cycle, Deadlines.NonHsyncDeadline(s)) && Deadlines.NonePast(s, 4)
    requires Ranges(s, EdgeTimes(s, n), t) && VerticalRanges(s, t)
    ensures var u, w := AnyUpdate(FoldEdges(s, n).(cycle := t), video), AnyUpdate(AnyUpdateEdges(s, n, video).(cycle := t), video);
            && (w == u.(iop := w.iop) <==> AllAgreeAt(s, EdgeTimes(s, n), FoldEdges(s, n).(cycle := t), video))
            && u.iop.hBlanking == w.iop.hBlanking
  {
    HorizonIsBeforeVerticalEdge(s, n);
    FoldEdgesFrame(s, n);
    var f := FoldEdges(s, n).(cycle := t);
    forall i | 0 <= i < 4
      ensures var c, next := s.counters[i], AfterVertical(f, video);
              FitForUpdate(c, s.cycle, EdgeTimes(s, n), t, s.hsync.mode, s.vsync.mode, Acts(c.mode, f),
                           LevelAt(next, t), next.vsync.mode)
    {
      FitsAnyUpdate(s, n, t, i, f, video);
    }
    FoldThenUpdateIff(s, n, t, video);
  }
}
