/** A video line by line: closed forms for the edges of regular scanlines, and a state in which folding
    and stepping part. */
module FoldExamples {

  import opened Words
  import opened EeTimers
  import opened HsyncFold
  import opened CounterUpdates
  import opened FoldedUpdates
  import opened VerticalUpdates
  import opened Ticks
  import Deadlines
  import Arithmetic
  import Iop = IopCounters

  /** The horizontal sync counter after `k` edges of regular scanlines, from the start of a line. */
  function LineSync(start: nat, hRender: phase, hBlank: phase, k: nat): HSync {
    var at := start + k / 2 * (hRender + hBlank);
    if k % 2 == 0 then HSync(HRender, at, hRender) else HSync(HBlank, at + hRender, hBlank)
  }

  lemma NextLineSync(start: nat, hRender: phase, hBlank: phase, k: nat)
    ensures k % 2 == 0 ==> (k + 1) / 2 == k / 2 && (k + 1) % 2 == 1
    ensures k % 2 == 1 ==> (k + 1) / 2 == k / 2 + 1 && (k + 1) % 2 == 0
    ensures (k / 2 + 1) * (hRender + hBlank) == k / 2 * (hRender + hBlank) + (hRender + hBlank)
  {
    Arithmetic.MulDistributes(k / 2, 1, hRender + hBlank);
  }

  lemma EdgeKeepsVideo(s: State, mask: Mask)
    ensures var u := FoldEdge(s, mask);
            u.hRender == s.hRender && u.hBlank == s.hBlank && u.hsmsk == s.hsmsk
            && u.hsync == if s.hsync.mode == HBlank then HSync(HRender, s.hsync.startCycle + s.hBlank, s.hRender)
                          else HSync(HBlank, s.hsync.startCycle + s.hRender, s.hBlank)
  {
  }

  lemma {:induction false} LineByLine(s: State, k: nat)
    requires s.hsync == HSync(HRender, s.hsync.startCycle, s.hRender)
    ensures var f := FoldEdges(s, k);
            f.hRender == s.hRender && f.hBlank == s.hBlank && f.hsmsk == s.hsmsk
            && f.hsync == LineSync(s.hsync.startCycle, s.hRender, s.hBlank, k)
  {
    if k > 0 {
      LineByLine(s, k - 1);
      NextLine(s, FoldEdges(s, k - 1), ClockMask(s), k);
    }
  }

  lemma NextLine(s: State, f: State, mask: Mask, k: nat)
    requires k > 0 && f.hRender == s.hRender && f.hBlank == s.hBlank && f.hsmsk == s.hsmsk
    requires f.hsync == LineSync(s.hsync.startCycle, s.hRender, s.hBlank, k - 1)
    ensures var u := FoldEdge(f, mask);
            u.hRender == s.hRender && u.hBlank == s.hBlank && u.hsmsk == s.hsmsk
            && u.hsync == LineSync(s.hsync.startCycle, s.hRender, s.hBlank, k)
  {
    EdgeKeepsVideo(f, mask);
    NextLineSync(s.hsync.startCycle, s.hRender, s.hBlank, k - 1);
  }

  lemma {:induction false} MaskedMayFold(s: State, n: nat)
    requires Foldable(s) && s.hsmsk && s.hsync == HSync(HRender, s.hsync.startCycle, s.hRender)
    ensures MayFold(s, n)
  {
    if n > 0 {
      MaskedMayFold(s, n - 1);
      LineByLine(s, n - 1);
    }
  }

  /** The cycle of edge `j`. */
  function LineEdge(start: nat, hRender: phase, hBlank: phase, j: nat): nat {
    start + j / 2 * (hRender + hBlank) + hRender + (if j % 2 == 0 then 0 else hBlank)
  }

  lemma EdgeOfLine(s: State, k: nat)
    requires s.hsync == HSync(HRender, s.hsync.startCycle, s.hRender)
    ensures Edge(FoldEdges(s, k).hsync) == LineEdge(s.hsync.startCycle, s.hRender, s.hBlank, k)
  {
    LineByLine(s, k);
    EdgeOfSync(s.hsync.startCycle, s.hRender, s.hBlank, k);
  }

  lemma EdgeOfSync(start: nat, hRender: phase, hBlank: phase, k: nat)
    ensures Edge(LineSync(start, hRender, hBlank, k)) == LineEdge(start, hRender, hBlank, k)
  {
  }

  lemma {:induction false} LineTimes(s: State, n: nat, j: nat)
    requires j < n && s.hsync == HSync(HRender, s.hsync.startCycle, s.hRender)
    ensures EdgeTimes(s, n)[j] == LineEdge(s.hsync.startCycle, s.hRender, s.hBlank, j)
  {
    if j == n - 1 {
      EdgeOfLine(s, j);
    } else {
      LineTimes(s, n - 1, j);
    }
  }

  lemma LineEdgesAscend(start: nat, hRender: phase, hBlank: phase, i: nat, j: nat)
    requires i <= j
    ensures LineEdge(start, hRender, hBlank, i) <= LineEdge(start, hRender, hBlank, j)
    decreases j - i
  {
    if i < j {
      LineEdgesAscend(start, hRender, hBlank, i, j - 1);
      NextLineSync(start, hRender, hBlank, j - 1);
    }
  }

  lemma {:induction false} EdgesOfLinesWithin(s: State, n: nat, horizon: nat)
    requires s.hsync == HSync(HRender, s.hsync.startCycle, s.hRender)
    requires s.cycle < LineEdge(s.hsync.startCycle, s.hRender, s.hBlank, 0)
    requires n > 0 ==> LineEdge(s.hsync.startCycle, s.hRender, s.hBlank, n - 1) < horizon
    ensures EdgesWithin(s, n, s.cycle, horizon)
  {
    if n > 0 {
      if n > 1 {
        LineEdgesAscend(s.hsync.startCycle, s.hRender, s.hBlank, n - 2, n - 1);
      }
      EdgesOfLinesWithin(s, n - 1, horizon);
      EdgeOfLine(s, n - 1);
      LineEdgesAscend(s.hsync.startCycle, s.hRender, s.hBlank, 0, n - 1);
    }
  }

  /** Lines of an NTSC frame: 15685 cycles of picture, 3058 of blank.  Counter 0 is at 0xFFFF and
      nobody watches it. */
  function Ntsc(iop: Iop.State): State {
    var idle := Mode(0, false, false, 0, false, false, false, false, false, false);
    var rest := Counter(0, idle, 0xFFFF, 2, 0, 0);
    State(0, [Counter(0xFFFF, idle.(isCounting := true), 0xFFFF, 2, 0, 0), rest, rest, rest],
          HSync(HRender, 0, 15685), VSync(VRender, 0, 4500000), 15685, 3058,
          false, false, true, iop, 0, 0, [])
  }

  lemma NtscIsQuiet(iop: Iop.State)
    requires Iop.HsyncSilent(iop)
    ensures var s := Ntsc(iop);
            && Foldable(s) && Deadlines.NonePast(s, 4) && Deadlines.NonHsyncDeadline(s) == 4500000
            && forall i :: 0 <= i < 4 ==> !IsWatched(s, i)
  {
    var s := Ntsc(iop);
    assert forall i :: 0 <= i < 4 ==> !IsWatched(s, i);
    NobodyWatched(s, 4);
  }

  lemma {:induction false} NobodyWatched(s: State, n: nat)
    requires n <= 4 && forall i :: 0 <= i < 4 ==> !IsWatched(s, i)
    ensures Deadlines.DeadlineUpTo(s, n) == Deadlines.VsyncEdge(s)
  {
    if n > 0 {
      NobodyWatched(s, n - 1);
    }
  }

  /** Counts every second cycle from cycle 0. */
  predicate FromZero(c: Counter) {
    c.startCycle == 0 && c.rate == 2 && c.count <= 0xFFFF && !External(c)
  }

  lemma EarlySteady(c: Counter, t: nat)
    requires FromZero(c) && t < 1000000
    ensures Steady(c, 0, t)
  {
    InternalRates();
  }

  lemma NtscRanges(iop: Iop.State, n: nat)
    requires n <= 14
    ensures Ranges(Ntsc(iop), EdgeTimes(Ntsc(iop), n), 146886)
  {
    var s := Ntsc(iop);
    var times := EdgeTimes(s, n);
    var all := times + [146886];
    forall j | 0 <= j < n
      ensures 0 <= times[j] == LineEdge(0, 15685, 3058, j) <= 131201
    {
      LineTimes(s, n, j);
      LineEdgesAscend(0, 15685, 3058, j, 13);
    }
    forall i, j | 0 <= i < j < |all|
      ensures all[i] <= all[j]
    {
      if j < n {
        LineEdgesAscend(0, 15685, 3058, i, j);
      }
    }
    forall i, j | 0 <= i < 4 && 0 <= j < |all|
      ensures Steady(s.counters[i], 0, 0) && Steady(s.counters[i], 0, all[j])
    {
      EarlySteady(s.counters[i], 0);
      EarlySteady(s.counters[i], all[j]);
    }
    assert forall i :: 0 <= i < 4 ==> LevelFree(s.counters[i].mode);
  }

  /** Folding `n` edges, all before the deadline, and updating at `t` does not leave what the ordinary
      path leaves. */
  predicate Parts(s: State, n: nat, t: nat, video: Video) {
    && MayFold(s, n) && EdgesWithin(s, n, s.cycle, Deadlines.NonHsyncDeadline(s))
    && var folded, stepped := AnyUpdate(FoldEdges(s, n).(cycle := t), video), AnyUpdate(AnyUpdateEdges(s, n, video).(cycle := t), video);
       stepped != folded.(iop := stepped.iop)
  }

  /** Seven lines later the counter has overflowed twice.  The ordinary path has wrapped it at the
      first edge and wraps it again; the fold wraps it once. */
  lemma TwoOverflowsAreLost(iop: Iop.State, video: Video)
    requires Iop.HsyncSilent(iop)
    ensures Parts(Ntsc(iop), 14, 146886, video)
  {
    var s := Ntsc(iop);
    NtscIsQuiet(iop);
    MaskedMayFold(s, 14);
    EdgesOfLinesWithin(s, 14, 4500000);
    NtscRanges(iop, 14);
    EdgeOfLine(s, 14);
    LineTimes(s, 14, 13);
    FoldEdgesFrame(s, 14);
    WrapsTwice(s, EdgeTimes(s, 14), FoldEdges(s, 14).(cycle := 146886), video);
    FoldBeforeDeadlineIff(s, 14, 146886, video);
  }

  lemma WrapsTwice(s: State, times: seq<nat>, f: State, video: Video)
    requires s.counters[0] == Counter(0xFFFF, s.counters[0].mode, 0xFFFF, 2, 0, 0)
    requires !External(s.counters[0]) && Counting(s, 0) && Unnoticed(s.counters[0].mode)
    requires |times| == 14 && times[13] == 131201
    requires !s.counters[0].mode.enableGate && f.cycle == 146886
    ensures !AllAgreeAt(s, times, f, video)
  {
    var next := AfterVertical(f, video);
    assert !Agrees(s.counters[0], times, f.cycle, s.hsync.mode, s.vsync.mode, Acts(s.counters[0].mode, f),
                   LevelAt(next, f.cycle), next.vsync.mode);
  }

  /** Sync interrupts suppressed, lines of twice a hundred cycles; counter 0 counts while the
      horizontal signal is low, and nobody watches it. */
  function Suppressed(iop: Iop.State): State {
    var idle := Mode(0, false, false, 0, false, false, false, false, false, false);
    var rest := Counter(0, idle, 0xFFFF, 2, 0, 0);
    State(0, [Counter(0, idle.(isCounting := true, enableGate := true), 0xFFFF, 2, 0, 0), rest, rest, rest],
          HSync(HRender, 0, 100), VSync(VRender, 0, 4500000), 100, 100,
          true, false, true, iop, 0, 0, [])
  }

  lemma ThreeRanges(s: State, t0: nat, t1: nat, t2: nat)
    requires forall i :: 0 <= i < 4 ==> FromZero(s.counters[i])
    requires t0 <= t1 <= t2 < 1000000
    ensures var all := [t0, t1] + [t2];
            && Ascending(all)
            && (forall i :: 0 <= i < 4 ==> Steady(s.counters[i], 0, 0))
            && forall i, j :: 0 <= i < 4 && 0 <= j < 3 ==> Steady(s.counters[i], 0, all[j])
  {
    var all := [t0, t1] + [t2];
    assert all == [t0, t1, t2];
    forall i | 0 <= i < 4
      ensures Steady(s.counters[i], 0, 0)
    {
      EarlySteady(s.counters[i], 0);
    }
    forall i, j | 0 <= i < 4 && 0 <= j < 3
      ensures Steady(s.counters[i], 0, all[j])
    {
      EarlySteady(s.counters[i], all[j]);
    }
  }

  lemma SuppressedRanges(iop: Iop.State)
    ensures var s := Suppressed(iop);
            && EdgeTimes(s, 2) == [100, 200] && Ranges(s, [100, 200], 250)
            && Deadlines.NonePast(s, 4) && Deadlines.NonHsyncDeadline(s) == 4500000
  {
    var s := Suppressed(iop);
    LineTimes(s, 2, 0);
    LineTimes(s, 2, 1);
    assert EdgeTimes(s, 2) == [100, 200];
    assert forall i :: 0 <= i < 4 ==> !IsWatched(s, i);
    NobodyWatched(s, 4);
    ThreeRanges(s, 100, 200, 250);
    SyncCounts(s.counters[0], 250);
    assert !Deadlines.CounterDue(s.counters[0], 250);
  }

  /** A counter that follows the level: stepping skips the blank between the two edges, the fold does
      not notice it. */
  lemma LevelIsLost(iop: Iop.State, video: Video)
    ensures Parts(Suppressed(iop), 2, 250, video)
  {
    var s := Suppressed(iop);
    SuppressedRanges(iop);
    MaskedMayFold(s, 2);
    EdgesOfLinesWithin(s, 2, 4500000);
    LineByLine(s, 2);
    FoldEdgesFrame(s, 2);
    TickOff(s, FoldEdges(s, 2).(cycle := 250), video);
    FoldBeforeDeadlineIff(s, 2, 250, video);
  }

  lemma TickOff(s: State, f: State, video: Video)
    requires s.hsync.mode == HRender && s.vsync.mode == VRender && s.sint
    requires s.counters[0].startCycle == 0 && s.counters[0].rate == 2 && !External(s.counters[0])
    requires s.counters[0].mode.isCounting && Gated(s.counters[0].mode, false) && s.counters[0].mode.gateMode == 0
    requires f.cycle == 250 && f.sint && f.hsync == HSync(HRender, 200, 100) && f.vsync == VSync(VRender, 0, 4500000)
    ensures !AllAgreeAt(s, [100, 200], f, video)
  {
    var c, times, next := s.counters[0], [100, 200], AfterVertical(f, video);
    assert next == f && LevelAt(f, 250) == HRender;
    assert LevelAfter(HRender, 0 + 1) == HBlank && TicksBefore(c, times, 0) == 50;
    assert !Agrees(c, times, 250, HRender, VRender, Acts(c.mode, f), LevelAt(next, f.cycle), next.vsync.mode);
  }

  /** The same lines, two of their edges before a vertical blank; counter 0 is gated by it. */
  function Closing(iop: Iop.State): State {
    var s := Ntsc(iop);
    var c := s.counters[0].(mode := s.counters[0].mode.(enableGate := true, vblankGate := true));
    s.(vsync := VSync(VRender, 0, 20000), counters := s.counters[0 := c])
  }

  lemma ClosingRanges(iop: Iop.State)
    requires Iop.HsyncSilent(iop)
    ensures var s := Closing(iop);
            && EdgeTimes(s, 2) == [15685, 18743] && Ranges(s, [15685, 18743], 20000)
            && Deadlines.NonePast(s, 4) && Deadlines.NonHsyncDeadline(s) == 20000 && Foldable(s)
  {
    var s := Closing(iop);
    LineTimes(s, 2, 0);
    LineTimes(s, 2, 1);
    assert EdgeTimes(s, 2) == [15685, 18743];
    assert forall i :: 0 <= i < 4 ==> !IsWatched(s, i);
    NobodyWatched(s, 4);
    ThreeRanges(s, 15685, 18743, 20000);
  }

  /** The vertical blank closes a counter that has overflowed: stepping has wrapped it by then, and
      after the fold nothing does. */
  lemma ClosedUnwrapped(iop: Iop.State, video: Video)
    requires Iop.HsyncSilent(iop)
    ensures Parts(Closing(iop), 2, 20000, video)
  {
    var s := Closing(iop);
    ClosingRanges(iop);
    MaskedMayFold(s, 2);
    EdgesOfLinesWithin(s, 2, 20000);
    FoldEdgesFrame(s, 2);
    var f, times := FoldEdges(s, 2).(cycle := 20000), [15685, 18743];
    var c, next := s.counters[0], AfterVertical(f, video);
    assert Acts(c.mode, f) && CountAt(c, 18743) > 0xFFFF;
    assert !Agrees(c, times, f.cycle, s.hsync.mode, s.vsync.mode, Acts(c.mode, f), LevelAt(next, f.cycle), next.vsync.mode);
    FoldBeforeDeadlineIff(s, 2, 20000, video);
  }
}
