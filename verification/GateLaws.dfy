/** What the gate modes of pcsx2/Counters.h:24-28 promise, in ticks of the clock: a counter gated by a blanking
    signal counts only while the signal is low, or is reset at its rising edge, its falling edge, or both.
    The edges are handled on their cycle, and the counter is not about to reach its target. */
module GateLaws {

  import opened Words
  import opened EeTimers
  import opened Ticks
  import opened TimerRegisters
  import RegisterLaws
  import Arithmetic

  /** Counts cycles, gated by the vertical or by the horizontal blank. */
  predicate GatedBy(m: Mode, vertical: bool) {
    m.isCounting && m.enableGate && m.vblankGate == vertical && m.clockSource != EXTERNAL_CLOCK
  }

  /** The signal is low while the picture is drawn. */
  predicate IsLow(s: Timer, vertical: bool) {
    if vertical then s.v == VRender else s.h == HRender
  }

  /** It falls next: the vertical blank has two phases, of which the second ends it. */
  predicate FallsNext(s: Timer, vertical: bool) {
    if vertical then s.v == VBlank else s.h == HBlank
  }

  function EdgeAt(vertical: bool, t: nat): TimerRegisters.Event {
    TimerRegisters.Update(vertical, !vertical, t, t, false)
  }

  /** Ticks of the clock between two cycles. */
  function ClockTicks(rate: rate32, t: nat, u: nat): int {
    u / rate - t / rate
  }

  predicate Below(c: Counter, t: nat, counting: bool) {
    c.count < c.target % TWO_16 && (counting ==> CountBy(c, t) < c.target % TWO_16)
  }

  /** Below its target for now. */
  ghost predicate Quiet(s: Timer, t: nat) {
    Aligned(s.c) && Recent(s.c, t) && Below(s.c, t, IsCounting(s))
  }

  /** The counter `d` left at cycle `t` by an update that found `c`. */
  ghost predicate Left(c: Counter, d: Counter, t: nat, count: int) {
    && d.mode == c.mode && d.rate == c.rate && Aligned(d) && d.startCycle <= t < d.startCycle + d.rate
    && d.count == count
  }

  /** Sync and tests on a counter below its target. */
  lemma QuietUpdate(c: Counter, t: nat, counts: bool)
    requires Aligned(c) && Recent(c, t) && Below(c, t, counts)
    ensures Left(c, UpdateCounter(c, t, counts), t, if counts then CountBy(c, t) else c.count)
  {
    SyncLeaves(c, t, counts);
    var d := Sync(c, t, counts);
    assert d.count < d.target && d.count <= 0xFFFF;
  }

  /** The count that a gate acting on time leaves, after sync and tests. */
  function Settled(c: Counter, action: GateAction, counting: bool, t: nat, counts: bool): int {
    match action
    case Untouched => if counts then CountBy(c, t) else c.count
    case Opened => c.count
    case Closed => if counting then CountBy(c, t) else c.count
    case Restarted => 0
  }

  lemma QuietAction(c: Counter, action: GateAction, counting: bool, t: nat, counts: bool)
    requires Aligned(c) && Recent(c, t) && Below(c, t, counting) && (action == Untouched && counts ==> counting)
    ensures var count := Settled(c, action, counting, t, counts);
            0 <= count < TWO_16 && Left(c, UpdateCounter(Acted(c, action, counting, t, t), t, counts), t, count)
  {
    SyncLeaves(c, t, counting);
    if action == Untouched {
      QuietUpdate(c, t, counts);
    } else {
      Restarts(c, action, counting, t, Settled(c, action, counting, t, counts));
      QuietUpdate(Acted(c, action, counting, t, t), t, counts);
    }
  }

  /** The gate puts the counter on the tick of its edge. */
  lemma Restarts(c: Counter, action: GateAction, counting: bool, t: nat, count: int)
    requires Aligned(c) && Recent(c, t) && Below(c, t, counting) && action != Untouched
    requires count == if action == Restarted then 0 else if action == Closed && counting then CountBy(c, t) else c.count
    ensures var d := Acted(c, action, counting, t, t);
            && d.mode == c.mode && d.rate == c.rate && Aligned(d) && Recent(d, t) && Elapsed(d, t) == 0 && d.count == count
            && d.target % TWO_16 == c.target % TWO_16
  {
    SyncLeaves(c, t, counting);
    RestartsFrom(c, Sync(c, t, counting), action, counting, t, count);
  }

  lemma RestartsFrom(c: Counter, synced: Counter, action: GateAction, counting: bool, t: nat, count: int)
    requires Aligned(c) && action != Untouched && synced == Sync(c, t, counting)
    requires synced == c.(startCycle := synced.startCycle, count := synced.count)
    requires count == match action case Restarted => 0 case Closed => synced.count case _ => c.count
    ensures var d := Acted(c, action, counting, t, t);
            && d.mode == c.mode && d.rate == c.rate && Aligned(d) && Recent(d, t) && Elapsed(d, t) == 0 && d.count == count
            && d.target % TWO_16 == c.target % TWO_16
  {
    var d := PutOnTick(c, action, count, AndNot(t, c.rate - 1));
    assert Acted(c, action, counting, t, t) == d;
    OnTick(d, t);
    LowWord(c.target);
  }

  function PutOnTick(c: Counter, action: GateAction, count: u32, start: nat): Counter {
    c.(count := count, target := if action == Restarted then c.target % TWO_16 else c.target, startCycle := start)
  }

  lemma LowWord(target: u32)
    ensures target % TWO_16 % TWO_16 == target % TWO_16
  {
  }

  lemma OnTick(d: Counter, t: nat)
    requires !External(d) && 2 <= d.rate <= 512 && IsPowerOfTwo(d.rate) && d.startCycle == AndNot(t, d.rate - 1)
    ensures Aligned(d) && Recent(d, t) && Elapsed(d, t) == 0
  {
    StartsOnTick(t, d.rate);
    Arithmetic.Unique(t - d.startCycle, d.rate, 0, t - d.startCycle);
  }

  /** A read at `u` after that. */
  lemma ReadAfter(s: Timer, c: Counter, t: nat, count: int, u: nat)
    requires Left(c, s.c, t, count) && 0 <= count < TWO_16 && t <= u < t + TWO_31 - 512
    ensures After(s, u, ReadCount).c.count == count + if IsCounting(s) then ClockTicks(c.rate, t, u) else 0
  {
    RegisterLaws.TicksBetween(s.c, t, u);
    SyncLeaves(s.c, u, IsCounting(s));
  }

  /** An update whose edge is handled on its cycle, and a read after it. */
  lemma UpdateThenRead(s: Timer, t: nat, e: TimerRegisters.Event, u: nat)
    requires e.Update? && Quiet(s, t) && ActsAt(s, e) == t && t <= u < t + TWO_31 - 512
    requires ActionOf(s, e) == Untouched && CountsAfter(s, e) ==> IsCounting(s)
    ensures After(After(s, t, e), u, ReadCount).c.count
         == Settled(s.c, ActionOf(s, e), IsCounting(s), t, CountsAfter(s, e))
            + if CountsAfter(s, e) then ClockTicks(s.c.rate, t, u) else 0
  {
    var count := Settled(s.c, ActionOf(s, e), IsCounting(s), t, CountsAfter(s, e));
    UpdateLeaves(s, t, e, count);
    ReadAfter(After(s, t, e), s.c, t, count, u);
  }

  lemma UpdateLeaves(s: Timer, t: nat, e: TimerRegisters.Event, count: int)
    requires e.Update? && Quiet(s, t) && ActsAt(s, e) == t
    requires ActionOf(s, e) == Untouched && CountsAfter(s, e) ==> IsCounting(s)
    requires count == Settled(s.c, ActionOf(s, e), IsCounting(s), t, CountsAfter(s, e))
    ensures var d := After(s, t, e);
            0 <= count < TWO_16 && Left(s.c, d.c, t, count) && IsCounting(d) == CountsAfter(s, e)
  {
    QuietAction(s.c, ActionOf(s, e), IsCounting(s), t, CountsAfter(s, e));
    UpdateByAction(s, t, e);
    Signals(s, t, e);
  }

  /** The count that a read at `u` finds after the rising edge at `t`, by gate mode. */
  function AfterRise(c: Counter, t: nat, u: nat): int {
    match c.mode.gateMode
    case 0 => CountBy(c, t)
    case 2 => CountBy(c, t) + ClockTicks(c.rate, t, u)
    case _ => ClockTicks(c.rate, t, u)
  }

  /** And after the falling edge. */
  function AfterFall(c: Counter, t: nat, u: nat): int {
    match c.mode.gateMode
    case 0 => c.count + ClockTicks(c.rate, t, u)
    case 1 => CountBy(c, t) + ClockTicks(c.rate, t, u)
    case _ => ClockTicks(c.rate, t, u)
  }

  /** The blank starts. */
  lemma RisingEdge(s: Timer, vertical: bool, t: nat, u: nat)
    requires GatedBy(s.c.mode, vertical) && IsLow(s, vertical) && Quiet(s, t) && t <= u < t + TWO_31 - 512
    ensures After(After(s, t, EdgeAt(vertical, t)), u, ReadCount).c.count == AfterRise(s.c, t, u)
  {
    RiseActs(s, vertical, t);
    UpdateThenRead(s, t, EdgeAt(vertical, t), u);
  }

  lemma RiseActs(s: Timer, vertical: bool, t: nat)
    requires GatedBy(s.c.mode, vertical) && IsLow(s, vertical)
    ensures var e := EdgeAt(vertical, t);
            ActionOf(s, e) == StartAction(s.c.mode) && IsCounting(s) && (CountsAfter(s, e) <==> s.c.mode.gateMode != 0)
  {
  }

  /** The blank ends. */
  lemma FallingEdge(s: Timer, vertical: bool, t: nat, u: nat)
    requires GatedBy(s.c.mode, vertical) && FallsNext(s, vertical) && Quiet(s, t) && t <= u < t + TWO_31 - 512
    ensures After(After(s, t, EdgeAt(vertical, t)), u, ReadCount).c.count == AfterFall(s.c, t, u)
  {
    FallActs(s, vertical, t);
    UpdateThenRead(s, t, EdgeAt(vertical, t), u);
  }

  lemma FallActs(s: Timer, vertical: bool, t: nat)
    requires GatedBy(s.c.mode, vertical) && FallsNext(s, vertical)
    ensures var e := EdgeAt(vertical, t); ActionOf(s, e) == EndAction(s.c.mode) && CountsAfter(s, e)
    ensures IsCounting(s) <==> s.c.mode.gateMode != 0
  {
  }

  /** The levels after an update. */
  lemma Signals(s: Timer, t: nat, e: TimerRegisters.Event)
    requires e.Update? && !External(s.c)
    ensures var d := After(s, t, e); d.h == HAfter(s.h, e.hEdge) && d.v == VAfter(s.v, e.vEdge)
  {
    VerticalAction(s, t, e);
    HorizontalAction(AfterV(s, t, e), t, e);
  }

  /** A counter gated by the horizontal blank and clocked by it at the same time never counts. */
  lemma SameSourceNeverCounts(s: Timer)
    requires s.c.mode.enableGate && !s.c.mode.vblankGate && External(s.c)
    ensures !IsCounting(s)
  {
  }

  /** A counter without a gate counts whatever the signals do, unless it is switched off. */
  lemma UngatedCounts(s: Timer, t: nat, e: TimerRegisters.Event, u: nat)
    requires !s.c.mode.enableGate && e.Update? && e.hAt == t && Quiet(s, t) && t <= u < t + TWO_31 - 512
    ensures After(After(s, t, e), u, ReadCount).c.count
         == if s.c.mode.isCounting then CountBy(s.c, t) + ClockTicks(s.c.rate, t, u) else s.c.count
  {
    UpdateThenRead(s, t, e, u);
  }
}
