/** The EE timers of pcsx2/Counters.cpp: four lazily updated counters, the horizontal and
    vertical sync counters that gate and clock them, and the deadline handed to the scheduler.
    Cycle counts are unbounded naturals; every 32-bit truncation of the source is written out. */
module EeTimers {

  import opened Words
  import Iop = IopCounters

  const FUTURE_TARGET: int := 0x1000_0000
  const EXTERNAL_CLOCK: int := 3

  /** A two-bit field of the mode register. */
  type twobit = x: int | 0 <= x <= 3

  datatype Mode = Mode(
    clockSource: twobit,
    enableGate: bool,
    vblankGate: bool,
    gateMode: twobit,
    zeroReturn: bool,
    isCounting: bool,
    targetInterrupt: bool,
    overflowInterrupt: bool,
    targetReached: bool,
    overflowReached: bool)

  datatype Counter = Counter(
    count: u32,
    mode: Mode,
    target: u32,
    rate: rate32,
    interrupt: nat,
    startCycle: nat)

  datatype HMode = HRender | HBlank
  datatype VMode = VRender | VBlank | GsBlank

  datatype HSync = HSync(mode: HMode, startCycle: nat, deltaCycles: s32)
  datatype VSync = VSync(mode: VMode, startCycle: nat, deltaCycles: s32)

  /** Durations of the two phases of a scanline, in cycles. */
  type phase = x: int | 1 <= x < TWO_31 witness 1

  datatype Irq = Gs | Intc(cause: nat)

  type Bank = s: seq<Counter> | |s| == 4
    witness seq(4, _ => Counter(0, Mode(0, false, false, 0, false, false, false, false, false, false), 0xFFFF, 2, 0, 0))

  /** `sint` is SMODE1.SINT, `hsint` CSR.HSINT, `hsmsk` IMR.HSMSK; `irqs` lists the interrupts
      raised on the EE so far. */
  datatype State = State(
    cycle: nat,
    counters: Bank,
    hsync: HSync,
    vsync: VSync,
    hRender: phase,
    hBlank: phase,
    sint: bool,
    hsint: bool,
    hsmsk: bool,
    iop: Iop.State,
    nextStart: nat,
    nextDelta: s32,
    irqs: seq<Irq>)

  /** `(int)(cycle - startCycle) >= delta`. */
  predicate CpuTestCycle(cycle: nat, startCycle: nat, delta: s32) {
    S32(cycle - startCycle) >= delta
  }

  // ----- one counter

  predicate HasFutureTarget(target: u32) {
    (target / FUTURE_TARGET) % 2 == 1
  }

  function WithFutureTarget(target: u32): u32 {
    if HasFutureTarget(target) then target else target + FUTURE_TARGET
  }

  predicate CanCount(m: Mode, h: HMode, v: VMode) {
    && m.isCounting
    && (m.enableGate ==>
          if m.vblankGate then v == VRender || m.gateMode != 0
          else m.clockSource != EXTERNAL_CLOCK && (h == HRender || m.gateMode != 0))
  }

  function Sync(c: Counter, cycle: nat, counting: bool): Counter {
    if c.mode.clockSource != EXTERNAL_CLOCK then
      var change := U32(U64(cycle - c.startCycle) / c.rate);
      c.(startCycle := AndNot(c.startCycle + U32(change * c.rate), c.rate - 1),
         count := if counting then U32(c.count + change) else c.count)
    else
      c.(startCycle := cycle)
  }

  function TestTarget(c: Counter): Counter {
    if c.count < c.target then c
    else
      var c := if c.mode.targetInterrupt then c.(mode := c.mode.(targetReached := true)) else c;
      if c.mode.zeroReturn then c.(count := c.count - c.target)
      else c.(target := WithFutureTarget(c.target))
  }

  predicate TargetRaises(c: Counter) {
    c.count >= c.target && c.mode.targetInterrupt && !c.mode.targetReached
  }

  function TestOverflow(c: Counter): Counter {
    if c.count <= 0xFFFF then c
    else
      var c := if c.mode.overflowInterrupt then c.(mode := c.mode.(overflowReached := true)) else c;
      c.(count := c.count - TWO_16, target := c.target % TWO_16)
  }

  predicate OverflowRaises(c: Counter) {
    c.count > 0xFFFF && c.mode.overflowInterrupt && !c.mode.overflowReached
  }

  /** Overflow test, then target test, as rcntUpdate and rcntStartGate run them. */
  function Tested(c: Counter): Counter {
    TestTarget(TestOverflow(c))
  }

  function TestIrqs(c: Counter): seq<Irq> {
    (if OverflowRaises(c) then [Intc(c.interrupt)] else [])
    + (if TargetRaises(TestOverflow(c)) then [Intc(c.interrupt)] else [])
  }

  /** Clocked by the horizontal blank instead of by cycles. */
  predicate External(c: Counter) {
    c.mode.clockSource == EXTERNAL_CLOCK
  }

  /** rcntUpdate for one counter: the tests are for those that count cycles. */
  function UpdateCounter(c: Counter, t: nat, counting: bool): Counter {
    var synced := Sync(c, t, counting);
    if External(c) || !counting then synced else Tested(synced)
  }

  // ----- gates

  predicate Clocked(s: State, i: nat)
    requires i < 4
  {
    s.counters[i].mode.clockSource == EXTERNAL_CLOCK && CanCount(s.counters[i].mode, s.hsync.mode, s.vsync.mode)
  }

  /** A counter clocked by the horizontal blank advances and is tested. */
  function Tick(s: State, i: nat): State
    requires i < 4
  {
    var c := s.counters[i].(count := U32(s.counters[i].count + 1));
    s.(counters := s.counters[i := Tested(c)], irqs := s.irqs + TestIrqs(c))
  }

  predicate Gated(m: Mode, isVblank: bool) {
    m.enableGate && m.vblankGate == isVblank
  }

  /** What the start of the gate signal, at cycle `at`, does to a counter gated by it. */
  function GateStarts(c: Counter, counting: bool, cycle: nat, at: nat): Counter {
    if c.mode.gateMode == 0 then Sync(c, cycle, counting).(startCycle := AndNot(at, c.rate - 1))
    else if c.mode.gateMode == 1 || c.mode.gateMode == 3 then
      Sync(c, cycle, counting).(count := 0, target := c.target % TWO_16, startCycle := AndNot(at, c.rate - 1))
    else c
  }

  /** And its end. */
  function GateEnds(c: Counter, counting: bool, cycle: nat, at: nat): Counter {
    if c.mode.gateMode == 0 then c.(startCycle := AndNot(at, c.rate - 1))
    else if c.mode.gateMode == 2 || c.mode.gateMode == 3 then
      Sync(c, cycle, counting).(count := 0, target := c.target % TWO_16, startCycle := AndNot(at, c.rate - 1))
    else c
  }

  function StartGateOf(s: State, i: nat, isVblank: bool, at: nat): State
    requires i < 4
  {
    var s := if !isVblank && Clocked(s, i) then Tick(s, i) else s;
    var c := s.counters[i];
    if !Gated(c.mode, isVblank) then s
    else
      var counting := CanCount(c.mode, s.hsync.mode, s.vsync.mode);
      s.(counters := s.counters[i := GateStarts(c, counting, s.cycle, at)])
  }

  /** rcntStartGate, for the first `n` counters; the source runs all four. */
  function StartGate(s: State, isVblank: bool, at: nat, n: nat): State
    requires n <= 4
  {
    if n == 0 then s else StartGateOf(StartGate(s, isVblank, at, n - 1), n - 1, isVblank, at)
  }

  function EndGateOf(s: State, i: nat, isVblank: bool, at: nat): State
    requires i < 4
  {
    var c := s.counters[i];
    if !Gated(c.mode, isVblank) then s
    else
      var counting := CanCount(c.mode, s.hsync.mode, s.vsync.mode);
      s.(counters := s.counters[i := GateEnds(c, counting, s.cycle, at)])
  }

  /** rcntEndGate, for the first `n` counters. */
  function EndGate(s: State, isVblank: bool, at: nat, n: nat): State
    requires n <= 4
  {
    if n == 0 then s else EndGateOf(EndGate(s, isVblank, at, n - 1), n - 1, isVblank, at)
  }

  // ----- the horizontal sync edge

  function Edge(h: HSync): nat {
    h.startCycle + U32(h.deltaCycles)
  }

  function WithHMode(s: State, mode: HMode): State {
    s.(hsync := s.hsync.(mode := mode))
  }

  function BlankEnds(s: State): State {
    var s := s.(hsync := HSync(HBlank, s.hsync.startCycle + s.hBlank, s.hRender));
    var s := if s.sint then s
             else var g := EndGate(s, false, s.hsync.startCycle, |s.counters|); g.(iop := Iop.HBlankEnd(g.iop));
    WithHMode(s, HRender)
  }

  function BlankStarts(s: State): State {
    var s := s.(hsync := HSync(HRender, s.hsync.startCycle + s.hRender, s.hBlank));
    var s := if s.sint then s
             else
               var s := if s.hsint then s
                        else s.(hsint := true, irqs := if s.hsmsk then s.irqs else s.irqs + [Gs]);
               var g := StartGate(s, false, s.hsync.startCycle, |s.counters|);
               g.(iop := Iop.HBlankStart(g.iop));
    WithHMode(s, HBlank)
  }

  /** rcntUpdate_hScanline. */
  function HScanline(s: State): State {
    if !CpuTestCycle(s.cycle, s.hsync.startCycle, s.hsync.deltaCycles) then s
    else if s.hsync.mode == HBlank then BlankEnds(s)
    else BlankStarts(s)
  }

  // ----- scheduling

  /** A counter the scheduler must wake for: it counts cycles and somebody can notice. */
  predicate Watched(c: Counter, h: HMode, v: VMode) {
    && CanCount(c.mode, h, v)
    && c.mode.clockSource != EXTERNAL_CLOCK
    && (c.mode.targetInterrupt || c.mode.overflowInterrupt || c.mode.zeroReturn)
  }

  predicate PastTarget(c: Counter) {
    c.count > TWO_16 || c.count > c.target
  }

  /** `(n * rate) - (cycle - startCycle)`, then `+= cycle - nextStart`, in an s32. */
  function DeltaUntil(c: Counter, ticks: nat, cycle: nat, nextStart: nat): s32 {
    S32(S32(U32(ticks * c.rate) - (cycle - c.startCycle)) + (cycle - nextStart))
  }

  /** `_rcntSet`: the deadline after looking at one more counter. */
  function RcntSet(delta: s32, c: Counter, watched: bool, cycle: nat, nextStart: nat): s32 {
    if !watched then delta
    else if PastTarget(c) then 4
    else
      var d := Min(delta, DeltaUntil(c, TWO_16 - c.count, cycle, nextStart));
      if HasFutureTarget(c.target) then d
      else Min(d, DeltaUntil(c, c.target - c.count, cycle, nextStart))
  }

  predicate IsWatched(s: State, i: nat)
    requires i < 4
  {
    Watched(s.counters[i], s.hsync.mode, s.vsync.mode)
  }

  /** The deadline after the first `i` counters. */
  function RcntSetUpTo(delta: s32, s: State, i: nat): s32
    requires i <= 4
  {
    if i == 0 then delta
    else RcntSet(RcntSetUpTo(delta, s, i - 1), s.counters[i - 1], IsWatched(s, i - 1), s.cycle, s.nextStart)
  }

  function SyncDelta(s: State): s32 {
    Min(S32(s.vsync.deltaCycles - (s.cycle - s.vsync.startCycle)),
        S32(s.hsync.deltaCycles - (s.cycle - s.hsync.startCycle)))
  }

  /** cpuRcntSet. */
  function CpuRcntSet(s: State): State {
    var s := s.(nextStart := s.cycle);
    s.(nextDelta := Max(0, RcntSetUpTo(SyncDelta(s), s, |s.counters|)))
  }
}
