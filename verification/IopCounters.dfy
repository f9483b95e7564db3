/** The part of pcsx2/IopCounters.cpp that an EE horizontal blank reaches: counters 0, 1 and 3,
    the blanking levels and the published counter deadline. */
module IopCounters {

  import opened Words

  const HBLANK_RATE: int := 0x2001
  const FUTURE_TARGET: int := 0x10_0000_0000

  /** The mode register, and the interrupt mode in force. */
  datatype Mode = Mode(
    gateEnable: bool,
    gateMode: nat,
    zeroReturn: bool,
    targetIntr: bool,
    overflIntr: bool,
    intrEnable: bool,
    targetFlag: bool,
    overflowFlag: bool,
    stopped: bool,
    repeatInterrupt: bool,
    toggleInterrupt: bool)

  datatype Counter = Counter(
    count: nat,
    target: nat,
    rate: rate32,
    interrupt: nat,
    startCycle: nat,
    mode: Mode)

  /** `irqs` lists the interrupt bits raised so far. */
  datatype State = State(
    cycle: nat,
    c0: Counter,
    c1: Counter,
    c3: Counter,
    hBlanking: bool,
    vBlanking: bool,
    nextStart: nat,
    nextDelta: s32,
    irqs: seq<nat>)

  predicate CanCount(c: Counter, blanking: bool) {
    if c.mode.stopped then false
    else if !c.mode.gateEnable then true
    else !(c.mode.gateMode == 0 && blanking) && !(c.mode.gateMode == 2 && !blanking)
  }

  /** What neither time nor the signals change. */
  predicate SameGate(c: Counter, d: Counter) {
    d.rate == c.rate && d.mode.gateEnable == c.mode.gateEnable && d.mode.gateMode == c.mode.gateMode && d.mode.stopped == c.mode.stopped
  }

  /** In repeat mode without toggling interrupts are enabled again. */
  function Rearmed(c: Counter): (d: Counter)
    ensures SameGate(c, d) && d.count == c.count && d.startCycle == c.startCycle
  {
    if c.mode.repeatInterrupt && !c.mode.toggleInterrupt then c.(mode := c.mode.(intrEnable := true)) else c
  }

  function Change(c: Counter, cycle: nat): u32 {
    U32(U64(cycle - c.startCycle) / c.rate)
  }

  function AddTicks(c: Counter, change: u32): (d: Counter)
    ensures SameGate(c, d)
  {
    if change == 0 then c
    else c.(count := c.count + change, startCycle := AndNot(c.startCycle + U32(change * c.rate), c.rate - 1))
  }

  /** A counter that does not count, or counts scanlines. */
  function PassedOver(c: Counter, cycle: nat): (d: Counter)
    ensures SameGate(c, d)
  {
    c.(count := if c.mode.gateEnable && c.mode.gateMode == 2 then 0 else c.count, startCycle := cycle)
  }

  predicate CountsCycles(c: Counter, blanking: bool) {
    CanCount(c, blanking) && c.rate != HBLANK_RATE
  }

  /** psxRcntSync. */
  function Sync(c: Counter, cycle: nat, blanking: bool): (d: Counter)
    ensures SameGate(c, d)
  {
    if CountsCycles(c, blanking) then AddTicks(Rearmed(c), Change(c, cycle)) else PassedOver(Rearmed(c), cycle)
  }

  /** A counter together with the interrupts it has raised. */
  datatype Fired = Fired(c: Counter, irqs: seq<nat>)

  function FireInterrupt(c: Counter, irqs: seq<nat>, overflow: bool): (r: Fired)
    ensures SameGate(c, r.c)
  {
    var already := if overflow then c.mode.overflowFlag else c.mode.targetFlag;
    var raised := if c.mode.intrEnable && (c.mode.repeatInterrupt || !already) then irqs + [c.interrupt] else irqs;
    var update := c.mode.repeatInterrupt || (c.mode.intrEnable && c.mode.toggleInterrupt);
    Fired(if update then c.(mode := c.mode.(intrEnable := c.mode.toggleInterrupt && !c.mode.intrEnable)) else c, raised)
  }

  predicate HasFutureTarget(c: Counter) {
    (c.target / FUTURE_TARGET) % 2 == 1
  }

  function WithFlag(c: Counter, overflow: bool): (r: Counter)
    ensures SameGate(c, r)
  {
    c.(mode := if overflow then c.mode.(overflowFlag := true) else c.mode.(targetFlag := true))
  }

  /** The overflow or the target is reached: an interrupt if the mode asks for it, then the flag. */
  function FireOnce(f: Fired, overflow: bool): (r: Fired)
    ensures SameGate(f.c, r.c)
  {
    var asked := if overflow then f.c.mode.overflIntr else f.c.mode.targetIntr;
    Flagged(if asked then FireInterrupt(f.c, f.irqs, overflow) else f, overflow)
  }

  function Flagged(f: Fired, overflow: bool): (r: Fired)
    ensures SameGate(f.c, r.c)
  {
    Fired(WithFlag(f.c, overflow), f.irqs)
  }

  /** At the target the count returns to zero, or the target is put off until after an overflow. */
  function FromTarget(c: Counter): (r: Counter)
    ensures SameGate(c, r)
  {
    if c.mode.zeroReturn then c.(count := Max(0, c.count - c.target))
    else c.(target := if HasFutureTarget(c) then c.target else c.target + FUTURE_TARGET)
  }

  function FromOverflow(c: Counter, limit: nat): (r: Counter)
    ensures SameGate(c, r)
  {
    c.(count := Max(0, c.count - limit), target := if limit > 0 then c.target % limit else c.target)
  }

  function TestTarget(f: Fired): (r: Fired)
    ensures SameGate(f.c, r.c)
  {
    if f.c.count < f.c.target then f else var g := FireOnce(f, false); Fired(FromTarget(g.c), g.irqs)
  }

  function TestOverflow(f: Fired, limit: nat): (r: Fired)
    ensures SameGate(f.c, r.c)
  {
    if f.c.count < limit then f else var g := FireOnce(f, true); Fired(FromOverflow(g.c, limit), g.irqs)
  }

  function Tests(f: Fired, limit: nat): (r: Fired)
    ensures SameGate(f.c, r.c)
  {
    TestTarget(TestOverflow(f, limit))
  }

  function Counted(c: Counter): (r: Counter)
    ensures SameGate(c, r)
  {
    c.(count := c.count + 1)
  }

  /** A counter clocked by the horizontal blank advances by one. */
  function Tick(c: Counter, irqs: seq<nat>, limit: nat): (r: Fired)
    ensures SameGate(c, r.c)
  {
    Tests(Fired(Counted(c), irqs), limit)
  }

  function StartGate(c: Counter, cycle: nat, hBlanking: bool): Counter {
    if !c.mode.gateEnable then c
    else if c.mode.gateMode == 0 then
      var c := Sync(c, cycle, hBlanking);
      c.(count := c.count % TWO_16, startCycle := AndNot(cycle, c.rate - 1))
    else if c.mode.gateMode == 2 then
      var d := Sync(c, cycle, hBlanking);
      d.(mode := d.mode.(stopped := false), count := 0, target := ClearFuture(c.target))
    else c
  }

  function EndGate(c: Counter, cycle: nat, hBlanking: bool): Counter {
    if !c.mode.gateEnable then c
    else if c.mode.gateMode == 0 then
      c.(startCycle := AndNot(cycle, c.rate - 1))
    else if c.mode.gateMode == 1 || c.mode.gateMode == 2 then
      Sync(c, cycle, hBlanking).(count := 0, target := ClearFuture(c.target))
    else if c.mode.stopped then
      c.(startCycle := AndNot(cycle, c.rate - 1), mode := c.mode.(stopped := false))
    else c
  }

  function ClearFuture(target: nat): nat {
    if (target / FUTURE_TARGET) % 2 == 1 then target - FUTURE_TARGET else target
  }

  // ----- publishing the deadline of counter 0

  /** The published delta after comparing it, widened to an unsigned 64-bit word, with a distance
      and taking over the low word of a smaller one. A negative delta widens to a huge one. */
  function Narrow(delta: s32, c: nat): s32 {
    if c < U64(delta) then S32(c) else delta
  }

  /** Cycles from `nextStart` until the counter has advanced by `ticks`. */
  function DeltaUntil(c: Counter, ticks: nat, cycle: nat, nextStart: nat): nat {
    U64(ticks * c.rate - U32(cycle - c.startCycle) + (cycle - nextStart))
  }

  function PublishedDelta(delta: s32, counting: bool, c: Counter, cycle: nat, nextStart: nat): s32 {
    if c.rate == HBLANK_RATE || !counting then delta
    else if c.count > TWO_16 || c.count > c.target then 4
    else
      var d := Narrow(delta, DeltaUntil(c, TWO_16 - c.count, cycle, nextStart));
      if HasFutureTarget(c) then d else Narrow(d, DeltaUntil(c, c.target - c.count, cycle, nextStart))
  }

  /** `_rcntSet(0)`. */
  function Publish(s: State): State {
    s.(nextDelta := PublishedDelta(s.nextDelta, CanCount(s.c0, s.hBlanking), s.c0, s.cycle, s.nextStart))
  }

  function HBlankStart(s: State): State {
    var f1 := if s.c1.rate == HBLANK_RATE && CanCount(s.c1, s.vBlanking) then Tick(s.c1, s.irqs, TWO_16)
              else Fired(s.c1, s.irqs);
    var f3 := if s.c3.rate == HBLANK_RATE && CanCount(s.c3, s.vBlanking) then Tick(s.c3, f1.irqs, TWO_32)
              else Fired(s.c3, f1.irqs);
    Publish(s.(c0 := StartGate(s.c0, s.cycle, s.hBlanking), c1 := f1.c, c3 := f3.c, irqs := f3.irqs,
               hBlanking := true))
  }

  function HBlankEnd(s: State): State {
    Publish(s.(c0 := EndGate(s.c0, s.cycle, s.hBlanking), hBlanking := false))
  }

  /** VitaIopHsyncCountersAreSilent. */
  predicate HsyncSilent(s: State) {
    && !s.c0.mode.gateEnable
    && !(s.c1.rate == HBLANK_RATE && CanCount(s.c1, s.vBlanking))
    && !(s.c3.rate == HBLANK_RATE && CanCount(s.c3, s.vBlanking))
  }

  /** What the comment in the source claims: in a silent state the callbacks only set the level
      and republish the deadline of counter 0, and the state stays silent. */
  lemma SilentEdges(s: State)
    requires HsyncSilent(s)
    ensures HBlankStart(s) == Publish(s.(hBlanking := true)) && HsyncSilent(HBlankStart(s))
    ensures HBlankEnd(s) == Publish(s.(hBlanking := false)) && HsyncSilent(HBlankEnd(s))
  {
  }

  /** In a silent state the level plays no part in the published deadline, and publishing again
      changes nothing. */
  lemma PublishIsIdempotent(s: State, level: bool)
    requires HsyncSilent(s)
    ensures Publish(Publish(s).(hBlanking := level)) == Publish(s).(hBlanking := level)
    ensures Publish(s.(hBlanking := level)) == Publish(s).(hBlanking := level)
  {
    assert CanCount(s.c0, level) == CanCount(s.c0, s.hBlanking);
    PublishedDeltaIsStable(s.nextDelta, CanCount(s.c0, level), s.c0, s.cycle, s.nextStart);
  }

  /** Whether the deadline is already published does not depend on the level. */
  lemma PublishedAtAnyLevel(s: State, level: bool)
    requires HsyncSilent(s)
    ensures Publish(s.(hBlanking := level)) == s.(hBlanking := level) <==> Publish(s) == s
  {
    PublishIsIdempotent(s, level);
  }

  lemma PublishedDeltaIsStable(delta: s32, counting: bool, c: Counter, cycle: nat, nextStart: nat)
    ensures var d := PublishedDelta(delta, counting, c, cycle, nextStart);
            PublishedDelta(d, counting, c, cycle, nextStart) == d
  {
    if c.count <= TWO_16 && c.count <= c.target {
      NarrowTwice(delta, DeltaUntil(c, TWO_16 - c.count, cycle, nextStart),
                  DeltaUntil(c, c.target - c.count, cycle, nextStart));
    }
  }

  lemma NarrowTwice(delta: s32, a: nat, b: nat)
    requires a < TWO_64 && b < TWO_64
    ensures var d := Narrow(delta, a); Narrow(d, a) == d
    ensures var d := Narrow(Narrow(delta, a), b); Narrow(Narrow(d, a), b) == d
  {
    Widened(delta);
    Widened(S32(a));
    Widened(S32(b));
    LowWord(a);
    LowWord(b);
  }

  lemma Widened(delta: s32)
    ensures U64(delta) == if delta < 0 then TWO_64 + delta else delta
  {
  }

  lemma LowWord(c: nat)
    requires c < TWO_64
    ensures S32(c) <= c && (c < TWO_31 ==> S32(c) == c)
    ensures TWO_64 - TWO_31 <= c ==> S32(c) == c - TWO_64
  {
  }

  // ----- when the deadline is already published

  /** A distance that leaves the published delta alone: it is no nearer, or, under a negative
      delta, it has that very low word. */
  predicate Leaves(delta: s32, distance: nat) {
    if delta >= 0 then delta <= distance
    else TWO_64 + delta <= distance || S32(distance) == delta
  }

  /** Under a negative delta the second distance may also undo what the first one did. */
  predicate Restores(delta: s32, first: nat, second: nat) {
    delta < 0 && S32(second) == delta && first < TWO_64 + delta && second < U64(S32(first))
  }

  lemma NarrowsToItselfIff(delta: s32, a: nat, b: nat)
    requires a < TWO_64 && b < TWO_64
    ensures Narrow(delta, a) == delta <==> Leaves(delta, a)
    ensures Narrow(Narrow(delta, a), b) == delta
       <==> (Leaves(delta, a) && Leaves(delta, b)) || Restores(delta, a, b)
  {
  }

  predicate PastTarget(c: Counter) {
    c.count > TWO_16 || c.count > c.target
  }

  /** The deadline of counter 0 is published already: the counter does not count cycles, or it is
      past its target and the answer is the four cycles this gives, or the deadline is no later
      than its overflow and its target. */
  predicate Published(s: State) {
    var c := s.c0;
    if c.rate == HBLANK_RATE || !CanCount(c, s.hBlanking) then true
    else if PastTarget(c) then s.nextDelta == 4
    else
      var overflow := DeltaUntil(c, TWO_16 - c.count, s.cycle, s.nextStart);
      var target := DeltaUntil(c, c.target - c.count, s.cycle, s.nextStart);
      if HasFutureTarget(c) then Leaves(s.nextDelta, overflow)
      else (Leaves(s.nextDelta, overflow) && Leaves(s.nextDelta, target)) || Restores(s.nextDelta, overflow, target)
  }

  /** Republishing leaves the deadline unchanged exactly in these states. */
  lemma PublishedIff(s: State)
    ensures Publish(s) == s <==> Published(s)
  {
    var c := s.c0;
    if !PastTarget(c) {
      NarrowsToItselfIff(s.nextDelta, DeltaUntil(c, TWO_16 - c.count, s.cycle, s.nextStart),
                         DeltaUntil(c, c.target - c.count, s.cycle, s.nextStart));
    }
  }
}
