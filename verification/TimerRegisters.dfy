/** What happens to one EE counter over time (pcsx2/Counters.cpp): the scheduler's updates, with the
    gate signals they deliver, and the register accesses of the guest.  Each register access syncs
    the counter without testing it.  Whether elapsed cycles count depends on the mode register and
    on the two blanking signals. */
module TimerRegisters {

  import opened Words
  import opened EeTimers
  import opened Ticks
  import Deadlines
  import Arithmetic

  // ----- the register writes

  /** rcntWcount: a target not ahead of the new count is postponed until after an overflow. */
  function WriteCount(c: Counter, t: nat, counting: bool, value: u32): Counter {
    var c := Sync(c, t, counting);
    var count, target := value % TWO_16, c.target % TWO_16;
    c.(count := count, target := if count >= target then WithFutureTarget(target) else target)
  }

  /** rcntWtarget: likewise for a new target not ahead of the count. */
  function WriteTarget(c: Counter, t: nat, counting: bool, value: u32): Counter {
    var target := value % TWO_16;
    var c := Sync(c.(target := target), t, counting);
    if target <= c.count then c.(target := WithFutureTarget(target)) else c
  }

  /** What a write to the mode register carries: the ten mode bits, and which of the two reached
      flags it clears. */
  datatype ModeWrite = ModeWrite(mode: Mode, clearTarget: bool, clearOverflow: bool)

  function RateOf(clockSource: twobit, line: rate32): rate32 {
    if clockSource == 0 then 2 else if clockSource == 1 then 32 else if clockSource == 2 then 512 else line
  }

  /** rcntWmode: the rate follows the clock source, and the start cycle moves to the last tick of
      the new rate. `line` is the length of a scanline. */
  function WriteMode(c: Counter, t: nat, counting: bool, w: ModeWrite, line: rate32): Counter {
    var c := Sync(c, t, counting);
    var rate := RateOf(w.mode.clockSource, line);
    c.(mode := w.mode.(targetReached := c.mode.targetReached && !w.clearTarget,
                       overflowReached := c.mode.overflowReached && !w.clearOverflow),
       rate := rate,
       startCycle := AndNot(t, rate - 1))
  }

  // ----- one counter and the signals it sees

  datatype Timer = Timer(c: Counter, h: HMode, v: VMode)

  predicate IsCounting(s: Timer) {
    CanCount(s.c.mode, s.h, s.v)
  }

  /** A vertical edge of cycle `at`, handled at cycle `t`: rendering ends, the field is swapped, the
      blank ends.  While sync interrupts are suppressed no gate acts. */
  function VerticalEdge(s: Timer, t: nat, at: nat, suppressed: bool): Timer {
    match s.v
    case VRender =>
      s.(v := GsBlank, c := if Gated(s.c.mode, true) && !suppressed then GateStarts(s.c, IsCounting(s), t, at) else s.c)
    case GsBlank => s.(v := VBlank)
    case VBlank =>
      s.(v := VRender, c := if Gated(s.c.mode, true) && !suppressed then GateEnds(s.c, IsCounting(s), t, at) else s.c)
  }

  /** A counter clocked by the horizontal blank advances when it starts. */
  predicate IsTicked(s: Timer) {
    External(s.c) && IsCounting(s) && s.h == HRender
  }

  function BlankTick(s: Timer): Timer {
    if IsTicked(s) then s.(c := Tested(s.c.(count := U32(s.c.count + 1)))) else s
  }

  /** A horizontal edge of cycle `at`, handled at cycle `t`.  While sync interrupts are suppressed no
      gate acts and nothing ticks. */
  function HorizontalEdge(s: Timer, t: nat, at: nat, suppressed: bool): Timer {
    match s.h
    case HRender =>
      var s := if suppressed then s else BlankTick(s);
      s.(h := HBlank, c := if Gated(s.c.mode, false) && !suppressed then GateStarts(s.c, IsCounting(s), t, at) else s.c)
    case HBlank =>
      s.(h := HRender, c := if Gated(s.c.mode, false) && !suppressed then GateEnds(s.c, IsCounting(s), t, at) else s.c)
  }

  /** The counter loop of rcntUpdate. */
  function Updated(s: Timer, t: nat): Timer {
    s.(c := UpdateCounter(s.c, t, IsCounting(s)))
  }

  /** An update comes with the edges that are due; `vAt` and `hAt` are their cycles,
      and `suppressed` is SMODE1.SINT. */
  datatype Event =
    | Update(vEdge: bool, hEdge: bool, vAt: nat, hAt: nat, suppressed: bool)
    | ReadCount
    | SetCount(value: u32)
    | SetTarget(value: u32)
    | SetMode(write: ModeWrite, line: rate32)

  function AfterV(s: Timer, t: nat, e: Event): Timer
    requires e.Update?
  {
    if e.vEdge then VerticalEdge(s, t, e.vAt, e.suppressed) else s
  }

  function AfterH(s: Timer, t: nat, e: Event): Timer
    requires e.Update?
  {
    if e.hEdge then HorizontalEdge(s, t, e.hAt, e.suppressed) else s
  }

  function After(s: Timer, t: nat, e: Event): Timer {
    match e
    case Update(_, _, _, _, _) => Updated(AfterH(AfterV(s, t, e), t, e), t)
    case ReadCount => s.(c := Sync(s.c, t, IsCounting(s)))
    case SetCount(value) => s.(c := WriteCount(s.c, t, IsCounting(s), value))
    case SetTarget(value) => s.(c := WriteTarget(s.c, t, IsCounting(s), value))
    case SetMode(write, line) => s.(c := WriteMode(s.c, t, IsCounting(s), write, line))
  }

  // ----- what an event finds

  /** The counter is aligned, and no 2^31 cycles have gone by since its last sync. */
  ghost predicate InRange(s: Timer, t: nat) {
    !External(s.c) ==> Aligned(s.c) && Recent(s.c, t)
  }

  /** The count at cycle `t` if it counts cycles. */
  function CountBy(c: Counter, t: nat): int {
    c.count + Elapsed(c, t)
  }

  lemma FutureTargetIsFar(target: u32)
    ensures HasFutureTarget(target) ==> target >= FUTURE_TARGET
    ensures WithFutureTarget(target) >= FUTURE_TARGET
  {
  }

  /** A sync, whether or not the elapsed cycles count. */
  lemma SyncLeaves(c: Counter, t: nat, counting: bool)
    requires Aligned(c) && Recent(c, t) && c.count < TWO_31
    ensures var d := Sync(c, t, counting);
            && d == c.(startCycle := d.startCycle, count := d.count) && Aligned(d)
            && d.startCycle <= t < d.startCycle + d.rate && Elapsed(d, t) == 0
            && d.count == (if counting then CountBy(c, t) else c.count)
            && c.count <= CountBy(c, t) <= c.count + TWO_31 / 2
  {
    SyncMovesWholeTicks(c, t, counting);
    WholeTicks(c.startCycle, c.rate, t);
    var d := Sync(c, t, counting);
    Arithmetic.Unique(t - d.startCycle, d.rate, 0, t - d.startCycle);
  }

  // ----- when an event leaves a counter past its target

  /** A sync does exactly when more ticks have elapsed than there was room for. */
  lemma SyncPassesIff(c: Counter, t: nat)
    requires !PastTarget(c) && Aligned(c) && Recent(c, t)
    ensures PastTarget(Sync(c, t, true)) <==> Elapsed(c, t) > Headroom(c)
  {
    SyncLeaves(c, t, true);
    FutureTargetIsFar(c.target);
  }

  /** The tests take a counter that has reached `n` past its target: it returns to zero with more
      than a second target left; or, after the overflow, it is more than a second overflow ahead,
      or returns to zero with more than a second target left. */
  predicate TestsPass(c: Counter, n: int) {
    if n <= 0xFFFF then c.mode.zeroReturn && n >= c.target && n - c.target > c.target
    else
      var m, low := n - TWO_16, c.target % TWO_16;
      m >= low && if c.mode.zeroReturn then m - low > TWO_16 || m - low > low else m > TWO_16
  }

  /** The tests of rcntUpdate, on any counter. */
  lemma TestsPassIff(c: Counter)
    ensures PastTarget(Tested(c)) <==> TestsPass(c, c.count)
  {
    var w := TestOverflow(c);
    assert w.mode.zeroReturn == c.mode.zeroReturn;
    FutureTargetIsFar(w.target);
  }

  /** A count write never does. */
  lemma WriteCountNeverPasses(c: Counter, t: nat, counting: bool, value: u32)
    ensures !PastTarget(WriteCount(c, t, counting, value))
  {
    FutureTargetIsFar(Sync(c, t, counting).target % TWO_16);
  }

  /** A target write does exactly when the synced count is beyond an overflow. */
  lemma WriteTargetPassesIff(c: Counter, t: nat, counting: bool, value: u32)
    ensures PastTarget(WriteTarget(c, t, counting, value)) <==> Sync(c, t, counting).count > TWO_16
  {
    var target := value % TWO_16;
    SyncIgnoresTarget(c, t, counting, target);
    FutureTargetIsFar(target);
  }

  /** The target written has no part in the sync. */
  lemma SyncIgnoresTarget(c: Counter, t: nat, counting: bool, target: u32)
    ensures Sync(c.(target := target), t, counting) == Sync(c, t, counting).(target := target)
  {
  }

  /** All but the one way a clocked counter gets past its target: returning to zero at a target of
      zero, which takes nothing off, with one tick more than that on the counter. */
  predicate TickIsSafe(c: Counter) {
    !(c.mode.zeroReturn && ((c.count == 0 && c.target == 0) || (c.count == TWO_16 && c.target % TWO_16 == 0)))
  }

  lemma TickPassesIff(c: Counter)
    requires !PastTarget(c)
    ensures PastTarget(Tested(c.(count := U32(c.count + 1)))) <==> !TickIsSafe(c)
  {
    assert U32(c.count + 1) == c.count + 1;
    TestsPassIff(c.(count := c.count + 1));
  }

  // ----- the edges

  /** What the edges of an update mean to a counter: nothing, or its gate opens or closes, or it is
      restarted. */
  datatype GateAction = Untouched | Opened | Closed | Restarted

  function StartAction(m: Mode): GateAction {
    if m.gateMode == 0 then Closed else if m.gateMode == 2 then Untouched else Restarted
  }

  function EndAction(m: Mode): GateAction {
    if m.gateMode == 0 then Opened else if m.gateMode == 1 then Untouched else Restarted
  }

  function ActionOf(s: Timer, e: Event): GateAction
    requires e.Update?
  {
    var m := s.c.mode;
    if e.suppressed then Untouched
    else if Gated(m, true) then
      if !e.vEdge || s.v == GsBlank then Untouched else if s.v == VRender then StartAction(m) else EndAction(m)
    else if Gated(m, false) then
      if !e.hEdge then Untouched else if s.h == HRender then StartAction(m) else EndAction(m)
    else Untouched
  }

  /** The cycle of the edge that acts. */
  function ActsAt(s: Timer, e: Event): nat
    requires e.Update?
  {
    if Gated(s.c.mode, true) then e.vAt else e.hAt
  }

  /** The counter after its gate has acted, at cycle `t`, on the edge of cycle `at`. */
  function Acted(c: Counter, action: GateAction, counting: bool, t: nat, at: nat): Counter {
    match action
    case Untouched => c
    case Opened => c.(startCycle := AndNot(at, c.rate - 1))
    case Closed => Sync(c, t, counting).(startCycle := AndNot(at, c.rate - 1))
    case Restarted => Sync(c, t, counting).(count := 0, target := c.target % TWO_16, startCycle := AndNot(at, c.rate - 1))
  }

  /** Whether it counts at the levels that the edges bring. */
  predicate CountsAfter(s: Timer, e: Event)
    requires e.Update?
  {
    CanCount(s.c.mode, HAfter(s.h, e.hEdge), VAfter(s.v, e.vEdge))
  }

  function HAfter(h: HMode, edge: bool): HMode {
    if !edge then h else if h == HRender then HBlank else HRender
  }

  function VAfter(v: VMode, edge: bool): VMode {
    if !edge then v else match v case VRender => GsBlank case GsBlank => VBlank case VBlank => VRender
  }

  /** An update of a counter that counts cycles: the action of its gate, then sync and tests. */
  lemma UpdateByAction(s: Timer, t: nat, e: Event)
    requires e.Update? && !External(s.c)
    ensures After(s, t, e).c
         == UpdateCounter(Acted(s.c, ActionOf(s, e), IsCounting(s), t, ActsAt(s, e)), t, CountsAfter(s, e))
  {
    VerticalAction(s, t, e);
    HorizontalAction(AfterV(s, t, e), t, e);
  }

  /** The vertical edge acts on the counters gated by it. */
  lemma VerticalAction(s: Timer, t: nat, e: Event)
    requires e.Update?
    ensures var u := AfterV(s, t, e);
            && u.h == s.h && u.v == VAfter(s.v, e.vEdge) && u.c.mode == s.c.mode
            && u.c == if Gated(s.c.mode, true) then Acted(s.c, ActionOf(s, e), IsCounting(s), t, ActsAt(s, e)) else s.c
  {
  }

  /** The horizontal edge acts on the others, unless it is a tick. */
  lemma HorizontalAction(u: Timer, t: nat, e: Event)
    requires e.Update? && !(e.hEdge && !e.suppressed && IsTicked(u))
    ensures var w := AfterH(u, t, e);
            && w.v == u.v && w.h == HAfter(u.h, e.hEdge) && w.c.mode == u.c.mode
            && w.c == if Gated(u.c.mode, false) then Acted(u.c, ActionOf(u, e), IsCounting(u), t, ActsAt(u, e)) else u.c
  {
  }

  /** The counter that the start of a horizontal blank would tick. */
  function BeforeTick(s: Timer, e: Event): Counter
    requires e.Update?
  {
    if ActionOf(s, e) == Restarted then s.c.(count := 0, target := s.c.target % TWO_16) else s.c
  }

  predicate TicksIn(s: Timer, e: Event)
    requires e.Update?
  {
    e.hEdge && !e.suppressed && s.h == HRender && CanCount(s.c.mode, HRender, VAfter(s.v, e.vEdge))
  }

  /** An update of a counter clocked by the blank: a tick at its start, and at most a restart. */
  lemma UpdateOfExternal(s: Timer, t: nat, e: Event)
    requires e.Update? && External(s.c)
    ensures var c, d := BeforeTick(s, e), After(s, t, e).c;
            if TicksIn(s, e) then d == Tested(c.(count := U32(c.count + 1))).(startCycle := d.startCycle)
            else d == c.(startCycle := d.startCycle)
  {
    var u := AfterV(s, t, e);
    VerticalAction(s, t, e);
    if TicksIn(s, e) {
      ExternalTicked(s, t, e, u);
    } else {
      ExternalUnticked(s, t, e, u);
    }
  }

  lemma ExternalActed(c: Counter, action: GateAction, counting: bool, t: nat, at: nat)
    requires External(c)
    ensures var d := Acted(c, action, counting, t, at);
            d == (if action == Restarted then c.(count := 0, target := c.target % TWO_16) else c).(startCycle := d.startCycle)
  {
  }

  lemma ExternalUnticked(s: Timer, t: nat, e: Event, u: Timer)
    requires e.Update? && External(s.c) && !TicksIn(s, e) && u == AfterV(s, t, e)
    requires u.h == s.h && u.v == VAfter(s.v, e.vEdge) && u.c.mode == s.c.mode
    requires u.c == if Gated(s.c.mode, true) then Acted(s.c, ActionOf(s, e), IsCounting(s), t, ActsAt(s, e)) else s.c
    ensures var d := After(s, t, e).c; d == BeforeTick(s, e).(startCycle := d.startCycle)
  {
    HorizontalAction(u, t, e);
    ExternalActed(s.c, ActionOf(s, e), IsCounting(s), t, ActsAt(s, e));
    ExternalActed(u.c, ActionOf(u, e), IsCounting(u), t, ActsAt(u, e));
  }

  lemma ExternalTicked(s: Timer, t: nat, e: Event, u: Timer)
    requires e.Update? && External(s.c) && TicksIn(s, e) && u == AfterV(s, t, e)
    requires u.h == s.h && u.v == VAfter(s.v, e.vEdge) && u.c.mode == s.c.mode
    requires u.c == if Gated(s.c.mode, true) then Acted(s.c, ActionOf(s, e), IsCounting(s), t, ActsAt(s, e)) else s.c
    ensures var c, d := BeforeTick(s, e), After(s, t, e).c;
            d == Tested(c.(count := U32(c.count + 1))).(startCycle := d.startCycle)
  {
    var c := BeforeTick(s, e);
    ExternalActed(s.c, ActionOf(s, e), IsCounting(s), t, ActsAt(s, e));
    assert u.c == c.(startCycle := u.c.startCycle);
    TickedEdge(u, t, e);
    TestedElsewhere(c.(count := U32(c.count + 1)), u.c.startCycle);
    ExternalUpdated(AfterH(u, t, e), t);
  }

  lemma TickedEdge(u: Timer, t: nat, e: Event)
    requires e.Update? && e.hEdge && !e.suppressed && IsTicked(u)
    ensures AfterH(u, t, e).c == Tested(u.c.(count := U32(u.c.count + 1))) && External(AfterH(u, t, e).c)
  {
    TestsKeepGate(u.c.(count := U32(u.c.count + 1)));
    UngatedStart(u, t, e.hAt, BlankTick(u));
  }

  lemma UngatedStart(u: Timer, t: nat, at: nat, ticked: Timer)
    requires u.h == HRender && ticked == BlankTick(u) && !Gated(ticked.c.mode, false)
    ensures HorizontalEdge(u, t, at, false).c == ticked.c
  {
  }

  lemma TestsKeepGate(c: Counter)
    ensures Gated(Tested(c).mode, false) == Gated(c.mode, false) && External(Tested(c)) == External(c)
  {
  }

  lemma ExternalUpdated(s: Timer, t: nat)
    requires External(s.c)
    ensures Updated(s, t).c == s.c.(startCycle := t)
  {
  }

  // ----- one event

  /** The event leaves the counter past its target: read off the fields, the elapsed ticks and the
      edges that come with it. */
  predicate Passes(s: Timer, t: nat, e: Event) {
    match e
    case ReadCount => SyncPasses(s, t)
    case SetMode(_, _) => SyncPasses(s, t)
    case SetCount(_) => false
    case SetTarget(_) => !External(s.c) && IsCounting(s) && CountBy(s.c, t) > TWO_16
    case Update(_, _, _, _, _) =>
      if External(s.c) then TicksIn(s, e) && !TickIsSafe(BeforeTick(s, e))
      else
        match ActionOf(s, e)
        case Untouched => CountsAfter(s, e) && TestsPass(s.c, CountBy(s.c, t))
        case Closed => SyncPasses(s, t)
        case Opened => CountsAfter(s, e) && TestsPass(s.c, s.c.count + TicksSince(s.c, ActsAt(s, e), t))
        case Restarted =>
          CountsAfter(s, e) && TestsPass(s.c.(target := s.c.target % TWO_16), TicksSince(s.c, ActsAt(s, e), t))
  }

  /** Ticks between the edge of cycle `at` and its handling. */
  function TicksSince(c: Counter, at: nat, t: nat): int {
    (t - AndNot(at, c.rate - 1)) / c.rate
  }

  /** Edges are handled on their cycle or later, by less than 2^31 - 512 cycles. */
  predicate EdgesInRange(t: nat, e: Event) {
    e.Update? ==> e.vAt <= t < e.vAt + TWO_31 - 512 && e.hAt <= t < e.hAt + TWO_31 - 512
  }

  predicate SyncPasses(s: Timer, t: nat) {
    !External(s.c) && IsCounting(s) && Elapsed(s.c, t) > Headroom(s.c)
  }

  lemma StartsOnTick(t: nat, rate: rate32)
    requires IsPowerOfTwo(rate)
    ensures AndNot(t, rate - 1) % rate == 0 && AndNot(t, rate - 1) <= t < AndNot(t, rate - 1) + rate
  {
    MaskRoundsDown(t, rate);
    Arithmetic.LastMultiple(t, rate);
  }

  /** Aligned, with its start cycle not in the future. */
  ghost predicate OnGrid(c: Counter, t: nat) {
    !External(c) ==> Aligned(c) && c.startCycle <= t < c.startCycle + c.rate
  }

  lemma SyncedIff(s: Timer, t: nat)
    requires !PastTarget(s.c) && InRange(s, t)
    ensures var c := Sync(s.c, t, IsCounting(s));
            && (PastTarget(c) <==> SyncPasses(s, t)) && OnGrid(c, t)
            && c.mode == s.c.mode && c.target == s.c.target && c.rate == s.c.rate
            && c.count == if !External(s.c) && IsCounting(s) then CountBy(s.c, t) else s.c.count
  {
    if !External(s.c) {
      SyncLeaves(s.c, t, IsCounting(s));
      if IsCounting(s) {
        SyncPassesIff(s.c, t);
      }
    }
  }

  lemma WriteModePassesIff(s: Timer, t: nat, w: ModeWrite, line: rate32)
    requires !PastTarget(s.c) && InRange(s, t)
    ensures var c := WriteMode(s.c, t, IsCounting(s), w, line);
            (PastTarget(c) <==> SyncPasses(s, t)) && OnGrid(c, t)
  {
    SyncedIff(s, t);
    if w.mode.clockSource < EXTERNAL_CLOCK {
      InternalRates();
      StartsOnTick(t, RateOf(w.mode.clockSource, line));
    }
  }

  lemma TestsKeepGrid(c: Counter, t: nat)
    requires OnGrid(c, t)
    ensures OnGrid(Tested(c), t)
  {
  }

  /** An update of any counter that counts cycles, however late. */
  lemma UpdatePassesIff(d: Counter, t: nat, counting: bool)
    requires !External(d) && Aligned(d) && Recent(d, t) && d.count < TWO_31
    ensures var c := UpdateCounter(d, t, counting);
            OnGrid(c, t) && (PastTarget(c) <==> if counting then TestsPass(d, CountBy(d, t)) else PastTarget(d))
  {
    SyncLeaves(d, t, counting);
    TestsKeepGrid(Sync(d, t, counting), t);
    TestsPassIff(Sync(d, t, counting));
  }

  /** The gate leaves the counter aligned. */
  lemma ActedAligned(s: Timer, t: nat, action: GateAction, at: nat)
    requires !PastTarget(s.c) && InRange(s, t) && !External(s.c) && action != Untouched
    requires at <= t < at + TWO_31 - 512
    ensures var d := Acted(s.c, action, IsCounting(s), t, at);
            && !External(d) && Aligned(d) && Recent(d, t) && d.count < TWO_31
            && Elapsed(d, t) == TicksSince(s.c, at, t)
            && (action == Closed ==> (PastTarget(d) <==> SyncPasses(s, t)))
  {
    SyncedIff(s, t);
    StartsOnTick(at, s.c.rate);
    if IsCounting(s) {
      SyncLeaves(s.c, t, true);
    }
  }

  /** An update of an internally clocked counter on which its gate has acted. */
  lemma ActedPassesIff(s: Timer, t: nat, action: GateAction, at: nat, counts: bool)
    requires !PastTarget(s.c) && InRange(s, t) && !External(s.c) && action != Untouched
    requires at <= t < at + TWO_31 - 512 && (action == Closed ==> !counts)
    ensures var c := UpdateCounter(Acted(s.c, action, IsCounting(s), t, at), t, counts);
            && OnGrid(c, t)
            && (PastTarget(c)
                <==> match action
                     case Opened => counts && TestsPass(s.c, s.c.count + TicksSince(s.c, at, t))
                     case Restarted =>
                       counts && TestsPass(s.c.(target := s.c.target % TWO_16), TicksSince(s.c, at, t))
                     case _ => SyncPasses(s, t))
  {
    ActedAligned(s, t, action, at);
    UpdatePassesIff(Acted(s.c, action, IsCounting(s), t, at), t, counts);
  }

  lemma UpdateEventPassesIff(s: Timer, t: nat, e: Event)
    requires !PastTarget(s.c) && InRange(s, t) && e.Update? && EdgesInRange(t, e)
    ensures PastTarget(After(s, t, e).c) <==> Passes(s, t, e)
    ensures OnGrid(After(s, t, e).c, t)
  {
    if External(s.c) {
      ExternalUpdatePassesIff(s, t, e);
    } else if ActionOf(s, e) == Untouched {
      UpdateByAction(s, t, e);
      UpdatePassesIff(s.c, t, CountsAfter(s, e));
    } else {
      UpdateByAction(s, t, e);
      ActedPassesIff(s, t, ActionOf(s, e), ActsAt(s, e), CountsAfter(s, e));
    }
  }

  lemma ExternalUpdatePassesIff(s: Timer, t: nat, e: Event)
    requires !PastTarget(s.c) && e.Update? && External(s.c)
    ensures PastTarget(After(s, t, e).c) <==> Passes(s, t, e)
    ensures External(After(s, t, e).c)
  {
    UpdateOfExternal(s, t, e);
    TickPassesIff(BeforeTick(s, e));
    TestsKeepGate(BeforeTick(s, e).(count := U32(BeforeTick(s, e).count + 1)));
  }

  /** Decided for every event, however late: past its target afterwards exactly by the condition. */
  lemma EventPassesIff(s: Timer, t: nat, e: Event)
    requires !PastTarget(s.c) && InRange(s, t) && EdgesInRange(t, e)
    ensures PastTarget(After(s, t, e).c) <==> Passes(s, t, e)
    ensures OnGrid(After(s, t, e).c, t)
  {
    match e
    case Update(_, _, _, _, _) => UpdateEventPassesIff(s, t, e);
    case ReadCount => SyncedIff(s, t);
    case SetCount(value) =>
      SyncedIff(s, t);
      WriteCountNeverPasses(s.c, t, IsCounting(s), value);
    case SetTarget(value) =>
      SyncedIff(s, t);
      WriteTargetPassesIff(s.c, t, IsCounting(s), value);
      SyncIgnoresTarget(s.c, t, IsCounting(s), value % TWO_16);
    case SetMode(write, line) => WriteModePassesIff(s, t, write, line);
  }

  // ----- runs

  datatype Timed = Timed(t: nat, e: Event)

  function RunEvents(s: Timer, events: seq<Timed>): Timer {
    if events == [] then s
    else After(RunEvents(s, events[..|events| - 1]), events[|events| - 1].t, events[|events| - 1].e)
  }

  /** The cycle of the last event. */
  function Clock(now: nat, events: seq<Timed>): nat {
    if events == [] then now else events[|events| - 1].t
  }

  /** Events in order, fewer than 2^31 - 512 cycles apart. */
  predicate Spaced(now: nat, events: seq<Timed>) {
    events == [] ||
    (var before, last := events[..|events| - 1], events[|events| - 1];
     && Spaced(now, before) && EdgesInRange(last.t, last.e)
     && Clock(now, before) <= last.t < Clock(now, before) + TWO_31 - 512)
  }

  /** No state of the run is past its target. */
  predicate NeverPast(s: Timer, events: seq<Timed>) {
    !PastTarget(RunEvents(s, events).c) && (events == [] || NeverPast(s, events[..|events| - 1]))
  }

  /** No event of the run meets the condition under which it leaves its counter past its target. */
  predicate NonePasses(s: Timer, events: seq<Timed>) {
    events == [] ||
    (var before, last := events[..|events| - 1], events[|events| - 1];
     NonePasses(s, before) && !Passes(RunEvents(s, before), last.t, last.e))
  }

  /** Decided for every run of updates, blanking edges, reads and register writes, whatever their
      lateness: no state is past its target exactly when no event meets its condition. */
  lemma {:induction false} NeverPastIff(s: Timer, now: nat, events: seq<Timed>)
    requires !PastTarget(s.c) && OnGrid(s.c, now) && Spaced(now, events)
    ensures NeverPast(s, events) <==> NonePasses(s, events)
    ensures NeverPast(s, events) ==> OnGrid(RunEvents(s, events).c, Clock(now, events))
  {
    if events != [] {
      var before, last := events[..|events| - 1], events[|events| - 1];
      NeverPastIff(s, now, before);
      if NeverPast(s, before) {
        NotPastAtEnd(s, before);
        EventPassesIff(RunEvents(s, before), last.t, last.e);
      }
    }
  }

  lemma NotPastAtEnd(s: Timer, events: seq<Timed>)
    requires NeverPast(s, events)
    ensures !PastTarget(RunEvents(s, events).c)
  {
  }

  /** By its deadline, with edges handled on their cycle, no event on a counter that counts cycles
      meets the condition. */
  lemma PunctualEventIsSafe(s: Timer, now: nat, t: nat, e: Event)
    requires !PastTarget(s.c) && !External(s.c) && UpToDate(s.c, now)
    requires now <= t <= Deadlines.CounterDeadline(s.c, now) && (e.Update? ==> ActsAt(s, e) == t)
    ensures !Passes(s, t, e)
  {
    PunctualElapsed(s.c, now, t);
    FutureTargetIsFar(s.c.target);
    StartsOnTick(t, s.c.rate);
    var since := t - AndNot(t, s.c.rate - 1);
    Arithmetic.Unique(since, s.c.rate, 0, since);
  }

  /** A free-running counter on the external clock, at the next horizontal edge. */
  lemma FreeTick(s: Timer, t: nat)
    requires External(s.c) && !s.c.mode.enableGate && s.c.mode.isCounting
    ensures var u := After(s, t, Event.Update(false, true, t, t, false));
            && u.h != s.h
            && u.c == (if s.h == HRender then Tested(s.c.(count := U32(s.c.count + 1))) else s.c).(startCycle := u.c.startCycle)
  {
    UpdateOfExternal(s, t, Event.Update(false, true, t, t, false));
  }

  /** Zero is returned to at a target of zero, and then passed. */
  lemma ZeroTargetTicks(c: Counter)
    requires c.mode.zeroReturn
    ensures c.count == 0xFFFF && c.target % TWO_16 == 0 && c.target >= FUTURE_TARGET ==>
              var d := Tested(c.(count := U32(c.count + 1))); d.count == 0 && d.target == 0
    ensures c.count == 0 && c.target == 0 ==>
              var d := Tested(c.(count := U32(c.count + 1))); d.count == 1 && d.target == 0
    ensures var m := Tested(c.(count := U32(c.count + 1))).mode;
            m.zeroReturn && m.enableGate == c.mode.enableGate && m.isCounting == c.mode.isCounting
            && m.clockSource == c.mode.clockSource
  {
  }

  /** A target of zero and a count of 0xFFFF, written by the guest. */
  lemma ZeroTargetWritten(s: Timer, t: nat)
    requires External(s.c)
    ensures var u := After(After(s, t, SetTarget(0)), t, SetCount(0xFFFF));
            && u == s.(c := u.c) && u.c.mode == s.c.mode
            && u.c.count == 0xFFFF && u.c.target % TWO_16 == 0 && u.c.target >= FUTURE_TARGET
  {
  }

  /** A run of the external clock that is past its target in the end: target zero, count 0xFFFF,
      return to zero, and the starts of two horizontal blanks.  The first wraps the count to zero,
      which is the target; the second leaves it at one. */
  lemma ZeroTargetIsPassed(s: Timer, t: nat)
    requires External(s.c) && !s.c.mode.enableGate && s.c.mode.isCounting && s.c.mode.zeroReturn && s.h == HRender
    ensures var blank := Event.Update(false, true, t, t, false);
            var written := After(After(s, t, SetTarget(0)), t, SetCount(0xFFFF));
            PastTarget(After(After(After(written, t, blank), t, blank), t, blank).c)
  {
    var blank := Event.Update(false, true, t, t, false);
    var written := After(After(s, t, SetTarget(0)), t, SetCount(0xFFFF));
    ZeroTargetWritten(s, t);
    TwoBlanks(written, After(written, t, blank), t);
  }

  lemma TwoBlanks(s: Timer, u: Timer, t: nat)
    requires External(s.c) && !s.c.mode.enableGate && s.c.mode.isCounting && s.c.mode.zeroReturn && s.h == HRender
    requires s.c.count == 0xFFFF && s.c.target % TWO_16 == 0 && s.c.target >= FUTURE_TARGET
    requires u == After(s, t, Event.Update(false, true, t, t, false))
    ensures var blank := Event.Update(false, true, t, t, false);
            PastTarget(After(After(u, t, blank), t, blank).c)
  {
    FreeTick(s, t);
    ZeroTargetTicks(s.c);
    LastBlank(u, After(u, t, Event.Update(false, true, t, t, false)), t);
  }

  lemma LastBlank(u: Timer, w: Timer, t: nat)
    requires External(u.c) && !u.c.mode.enableGate && u.c.mode.isCounting && u.c.mode.zeroReturn && u.h == HBlank
    requires u.c.count == 0 && u.c.target == 0 && w == After(u, t, Event.Update(false, true, t, t, false))
    ensures PastTarget(After(w, t, Event.Update(false, true, t, t, false)).c)
  {
    FreeTick(u, t);
    FinalTick(w, t);
  }

  lemma FinalTick(w: Timer, t: nat)
    requires External(w.c) && !w.c.mode.enableGate && w.c.mode.isCounting && w.c.mode.zeroReturn && w.h == HRender
    requires w.c.count == 0 && w.c.target == 0
    ensures PastTarget(After(w, t, Event.Update(false, true, t, t, false)).c)
  {
    FreeTick(w, t);
    ZeroTargetTicks(w.c);
  }

  /** The cycles per tick of clock source `k`: 2, and sixteen times as many for each source after it. */
  function CyclesPerTick(k: nat): nat {
    if k == 0 then 2 else 16 * CyclesPerTick(k - 1)
  }

  lemma RatesOfSources(k: twobit, line: rate32)
    ensures k == EXTERNAL_CLOCK ==> RateOf(k, line) == line
    ensures k < EXTERNAL_CLOCK ==>
              RateOf(k, line) == CyclesPerTick(k) && IsPowerOfTwo(RateOf(k, line)) && 2 <= RateOf(k, line) <= 512
  {
    InternalRates();
    assert CyclesPerTick(0) == 2 && CyclesPerTick(1) == 32 && CyclesPerTick(2) == 512;
  }

  /** A free-running counter after a mode write at `t`, read at `u`: the ticks of the rate that its clock
      source selects, from the last multiple of that rate before `t` to `u`, have been added to the count
      that the write left. */
  lemma TicksAfterModeWrite(s: Timer, t: nat, w: ModeWrite, line: rate32, u: nat)
    requires !PastTarget(s.c) && InRange(s, t)
    requires w.mode.clockSource < EXTERNAL_CLOCK && w.mode.isCounting && !w.mode.enableGate
    requires t <= u < t + TWO_31 - 512
    ensures var written, rate := After(s, t, SetMode(w, line)), CyclesPerTick(w.mode.clockSource);
            && written.c.count == (if !External(s.c) && IsCounting(s) then CountBy(s.c, t) else s.c.count)
            && After(written, u, ReadCount).c.count == written.c.count + (u - rate * (t / rate)) / rate
  {
    var written := After(s, t, SetMode(w, line));
    var rate := RateOf(w.mode.clockSource, line);
    SyncedIff(s, t);
    RatesOfSources(w.mode.clockSource, line);
    MaskRoundsDown(t, rate);
    StartsOnTick(t, rate);
    if !External(s.c) && IsCounting(s) {
      SyncLeaves(s.c, t, true);
    }
    SyncLeaves(written.c, u, true);
  }

  /** A counter stopped by a mode write keeps its count, however long it is left alone. */
  lemma StoppedKeepsCount(s: Timer, t: nat, w: ModeWrite, line: rate32, u: nat)
    requires !w.mode.isCounting
    ensures var stopped := After(s, t, SetMode(w, line));
            After(stopped, u, ReadCount).c.count == stopped.c.count
  {
  }
}
