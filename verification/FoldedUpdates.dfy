/** The fold in its place (pcsx2/R5900.cpp:340-358): the caller folds only edges before the next
    deadline of any counter, where the ordinary path would run the whole of rcntUpdate at each edge.
    This module follows the two over the edges, counter by counter and up to the next update;
    VerticalUpdates compares the whole states there. */
module FoldedUpdates {

  import opened Words
  import opened EeTimers
  import opened HsyncFold
  import opened CounterUpdates
  import opened Ticks
  import Deadlines
  import Iop = IopCounters

  // ----- rcntUpdate, at a cycle where no vertical edge is due

  predicate Counting(s: State, i: nat)
    requires i < 4
  {
    CanCount(s.counters[i].mode, s.hsync.mode, s.vsync.mode)
  }

  /** The interrupts that updating a counter raises. */
  function UpdateIrqs(c: Counter, t: nat, counting: bool): seq<Irq> {
    if External(c) || !counting then [] else TestIrqs(Sync(c, t, true))
  }

  /** The loop over the counters, up to counter `n`. */
  function UpdateUpTo(s: State, n: nat): State
    requires n <= 4
  {
    if n == 0 then s
    else
      var u := UpdateUpTo(s, n - 1);
      var c := u.counters[n - 1];
      u.(counters := u.counters[n - 1 := UpdateCounter(c, u.cycle, Counting(u, n - 1))],
         irqs := u.irqs + UpdateIrqs(c, u.cycle, Counting(u, n - 1)))
  }

  function RcntUpdate(s: State): State {
    CpuRcntSet(UpdateUpTo(HScanline(s), |s.counters|))
  }

  /** The ordinary path: an update at the cycle of each edge. */
  function UpdateEdges(s: State, n: nat): State {
    if n == 0 then s
    else var r := UpdateEdges(s, n - 1); RcntUpdate(r.(cycle := Edge(r.hsync)))
  }

  /** The cycles of the first `n` edges. */
  function EdgeTimes(s: State, n: nat): (times: seq<nat>)
    ensures |times| == n
  {
    if n == 0 then [] else EdgeTimes(s, n - 1) + [Edge(FoldEdges(s, n - 1).hsync)]
  }

  // ----- the loop, counter by counter

  /** What the loop does to each counter. */
  lemma {:induction false} UpdateUpToAt(s: State, n: nat)
    requires n <= 4
    ensures var u := UpdateUpTo(s, n); u == s.(counters := u.counters, irqs := u.irqs)
    ensures forall i :: 0 <= i < n ==> UpdateUpTo(s, n).counters[i] == UpdateCounter(s.counters[i], s.cycle, Counting(s, i))
    ensures forall i :: n <= i < 4 ==> UpdateUpTo(s, n).counters[i] == s.counters[i]
  {
    if n > 0 {
      UpdateUpToAt(s, n - 1);
      var u, w := UpdateUpTo(s, n - 1), UpdateUpTo(s, n);
      UpdateNext(s, n - 1, u);
      assert w.counters == u.counters[n - 1 := UpdateCounter(s.counters[n - 1], s.cycle, Counting(s, n - 1))];
    }
  }

  lemma UpdateNext(s: State, n: nat, u: State)
    requires n < 4 && u == UpdateUpTo(s, n) && u == s.(counters := u.counters, irqs := u.irqs)
    requires u.counters[n] == s.counters[n]
    ensures UpdateUpTo(s, n + 1)
         == s.(counters := u.counters[n := UpdateCounter(s.counters[n], s.cycle, Counting(s, n))],
               irqs := u.irqs + UpdateIrqs(s.counters[n], s.cycle, Counting(s, n)))
  {
  }

  /** Counters without an interrupt to raise. */
  lemma {:induction false} UpdateUpToIrqs(s: State, t: State, n: nat)
    requires n <= 4 && s.irqs == t.irqs
    requires forall i :: 0 <= i < 4 ==>
               UpdateIrqs(s.counters[i], s.cycle, Counting(s, i)) == UpdateIrqs(t.counters[i], t.cycle, Counting(t, i))
    ensures UpdateUpTo(s, n).irqs == UpdateUpTo(t, n).irqs
  {
    if n > 0 {
      UpdateUpToIrqs(s, t, n - 1);
      UpdateUpToAt(s, n - 1);
      UpdateUpToAt(t, n - 1);
    }
  }

  lemma {:induction false} UpdateUpToSilent(s: State, n: nat)
    requires n <= 4
    requires forall i :: 0 <= i < 4 ==> UpdateIrqs(s.counters[i], s.cycle, Counting(s, i)) == []
    ensures UpdateUpTo(s, n).irqs == s.irqs
  {
    if n > 0 {
      UpdateUpToSilent(s, n - 1);
      UpdateUpToAt(s, n - 1);
    }
  }

  function TickOne(c: Counter): Counter {
    Tested(c.(count := U32(c.count + 1)))
  }

  lemma TickMaskedStep(bank: Bank, mask: Mask, n: nat, ticked: Bank, i: nat)
    requires n < 4 && i < 4 && ticked == TickMasked(bank, mask, n)
    ensures TickMasked(bank, mask, n + 1)[i] == if i == n && mask[i] then TickOne(ticked[i]) else ticked[i]
  {
    TickMaskedNext(bank, mask, n, ticked);
  }

  lemma {:induction false} TickMaskedAt(bank: Bank, mask: Mask, n: nat, i: nat)
    requires n <= 4 && i < 4
    ensures TickMasked(bank, mask, n)[i] == if i < n && mask[i] then TickOne(bank[i]) else bank[i]
  {
    if n > 0 {
      TickMaskedAt(bank, mask, n - 1, i);
      TickMaskedStep(bank, mask, n - 1, TickMasked(bank, mask, n - 1), i);
    }
  }

  // ----- one edge

  /** `r` is `f` but for its cycle, counters, published IOP deadline and EE deadline. */
  predicate Resembles(f: State, r: State, n: nat) {
    && r == f.(cycle := r.cycle, counters := r.counters, iop := IopAfter(f, n),
               nextStart := r.nextStart, nextDelta := r.nextDelta)
    && forall i :: 0 <= i < 4 ==> r.counters[i].mode == f.counters[i].mode
  }

  lemma FoldableAlike(f: State, r: State, n: nat)
    requires Resembles(f, r, n) && Foldable(f)
    ensures Foldable(r) && ClockMask(r) == ClockMask(f) && WakesTheEe(r) == WakesTheEe(f)
  {
    if !f.sint {
      forall i | 0 <= i < 4
        ensures CounterFoldable(r, i) && Clocked(r, i) == Clocked(f, i)
      {
        assert CounterFoldable(f, i) && r.counters[i].mode == f.counters[i].mode;
      }
    }
  }

  /** The counters after an edge: only its blank start ticks, and only counters clocked by it. */
  function AfterEdge(f: State, bank: Bank): Bank {
    if f.sint || f.hsync.mode == HBlank then bank else TickMasked(bank, ClockMask(f), |bank|)
  }

  /** The edge handler on a state that resembles a foldable one. */
  lemma HandlerResembles(f: State, r: State, n: nat)
    requires Resembles(f, r, n) && Foldable(f) && f.hsync.deltaCycles >= 0
    ensures var g, h := StepEdge(r), FoldEdge(f, ClockMask(f));
            && g == h.(cycle := Edge(f.hsync), counters := AfterEdge(f, r.counters), iop := IopAfter(h, n + 1),
                       irqs := f.irqs + WakeUp(f), nextStart := r.nextStart, nextDelta := r.nextDelta)
            && h.counters == AfterEdge(f, f.counters)
  {
    FoldableAlike(f, r, n);
    EdgeSimulates(r, r, 0);
    IopAfterEdge(f, r, n);
    FoldEdgeAlike(f, r, ClockMask(f));
  }

  lemma FoldEdgeAlike(f: State, r: State, mask: Mask)
    requires mask == ClockMask(f)
    requires r == f.(cycle := r.cycle, counters := r.counters, iop := r.iop, nextStart := r.nextStart, nextDelta := r.nextDelta)
    ensures FoldEdge(r, mask)
         == FoldEdge(f, mask).(cycle := r.cycle, counters := AfterEdge(f, r.counters), iop := FoldEdge(r, mask).iop,
                               nextStart := r.nextStart, nextDelta := r.nextDelta)
    ensures FoldEdge(f, mask).counters == AfterEdge(f, f.counters)
  {
  }

  lemma IopAfterEdge(f: State, r: State, n: nat)
    requires Foldable(f) && r.iop == IopAfter(f, n) && r.sint == f.sint && r.hsync.mode == f.hsync.mode
    ensures IopAfter(FoldEdge(r, ClockMask(r)), 1) == IopAfter(FoldEdge(f, ClockMask(f)), n + 1)
  {
    if !f.sint {
      Iop.PublishIsIdempotent(f.iop, true);
      Iop.PublishIsIdempotent(f.iop, false);
    }
  }

  // ----- the two paths, counter by counter

  /** Updates at the given cycles raise nothing and find the counter in range: it is stopped, or
      unnoticed, or not due at any of them. */
  ghost predicate Calm(c: Counter, from: nat, times: seq<nat>, counting: bool) {
    && InOrder(c, from, times)
    && (!counting || Unnoticed(c.mode) || forall j :: 0 <= j < |times| ==> !Deadlines.CounterDue(c, times[j]))
  }

  /** A counter clocked by the edges, or calm; one that follows the horizontal level is not due even
      if it counts all along. */
  ghost predicate CounterFit(c: Counter, from: nat, times: seq<nat>, h: HMode, v: VMode) {
    External(c)
    || if LevelFree(c.mode) then Calm(c, from, times, CanCount(c.mode, h, v))
       else InOrder(c, from, times) && forall j :: 0 <= j < |times| ==> !Deadlines.CounterDue(c, times[j])
  }

  /** A counter `c` of the initial state, with its levels, on the folded and on the ordinary path. */
  predicate CounterFollows(c: Counter, folded: Counter, stepped: Counter, times: seq<nat>, h: HMode, v: VMode) {
    if External(c) then folded.mode == c.mode && stepped == folded.(startCycle := stepped.startCycle)
    else folded == c && stepped == LevelUpdates(c, times, h, v) && stepped.mode == c.mode
  }

  lemma FitBefore(c: Counter, from: nat, times: seq<nat>, t: nat, h: HMode, v: VMode)
    requires CounterFit(c, from, times + [t], h, v)
    ensures CounterFit(c, from, times, h, v)
  {
    var all := times + [t];
    assert forall i :: 0 <= i < |times| ==> all[i] == times[i];
  }

  /** An update of a calm counter is silent. */
  lemma CalmUpdate(c: Counter, from: nat, times: seq<nat>, t: nat, counting: bool)
    requires !External(c) && Calm(c, from, times + [t], counting)
    ensures Updates(c, times + [t], counting).mode == c.mode
    ensures UpdateIrqs(Updates(c, times, counting), t, counting) == []
  {
    if !counting {
      StoppedUpdates(c, from, times + [t]);
    } else if Unnoticed(c.mode) {
      UnnoticedUpdate(c, from, times, t);
    } else {
      IdleUpdate(c, from, times, t);
    }
  }

  lemma UnnoticedUpdate(c: Counter, from: nat, times: seq<nat>, t: nat)
    requires !External(c) && InOrder(c, from, times + [t]) && Unnoticed(c.mode)
    ensures Updates(c, times + [t], true).mode == c.mode
    ensures UpdateIrqs(Updates(c, times, true), t, true) == []
  {
    var all := times + [t];
    assert all[..|all| - 1] == times;
    InOrderBefore(c, from, all);
    UpdatesWrap(c, from, all);
    if times != [] {
      UpdatesWrap(c, from, times);
    }
  }

  lemma IdleUpdate(c: Counter, from: nat, times: seq<nat>, t: nat)
    requires !External(c) && InOrder(c, from, times + [t])
    requires forall j :: 0 <= j < |times + [t]| ==> !Deadlines.CounterDue(c, (times + [t])[j])
    ensures Updates(c, times + [t], true).mode == c.mode
    ensures UpdateIrqs(Updates(c, times, true), t, true) == []
  {
    var all := times + [t];
    assert forall i :: 0 <= i < |times| ==> all[i] == times[i];
    assert !Deadlines.CounterDue(c, all[|all| - 1]);
    IdleUpdates(c, from, all);
    IdleAtEnd(c, from, times, t);
    IdleTests(Sync(c, t, true));
  }

  /** An update of a fit counter that counts cycles is silent. */
  lemma QuietUpdate(c: Counter, from: nat, times: seq<nat>, t: nat, h: HMode, v: VMode)
    requires !External(c) && CounterFit(c, from, times + [t], h, v)
    ensures var level := CanCount(c.mode, LevelAfter(h, |times| + 1), v);
            && LevelUpdates(c, times + [t], h, v) == UpdateCounter(LevelUpdates(c, times, h, v), t, level)
            && LevelUpdates(c, times + [t], h, v).mode == c.mode
            && UpdateIrqs(LevelUpdates(c, times, h, v), t, level) == []
  {
    var all := times + [t];
    var level := CanCount(c.mode, LevelAfter(h, |times| + 1), v);
    assert all[..|all| - 1] == times;
    if LevelFree(c.mode) {
      LevelFreeUpdates(c, times, h, v);
      LevelFreeUpdates(c, all, h, v);
      LevelFreeCounts(c.mode, h, LevelAfter(h, |times| + 1), v);
      CalmUpdate(c, from, times, t, level);
    } else {
      assert !Deadlines.CounterDue(c, all[|all| - 1]);
      LevelQuiet(c, from, all, h, v);
      LevelAtEndIff(c, from, times, t, h, v, level);
    }
  }

  /** One edge, seen by one counter. */
  lemma CounterAfterEdge(c: Counter, folded: Counter, stepped: Counter, from: nat, times: seq<nat>, t: nat,
                         h: HMode, v: VMode, ticked: bool, counting: bool)
    requires CounterFollows(c, folded, stepped, times, h, v) && CounterFit(c, from, times + [t], h, v)
    requires !External(c) ==> !ticked && counting == CanCount(c.mode, LevelAfter(h, |times| + 1), v)
    requires ticked ==> !c.mode.targetInterrupt && !c.mode.overflowInterrupt
    ensures var folded' := if ticked then TickOne(folded) else folded;
            var between := if ticked then TickOne(stepped) else stepped;
            && CounterFollows(c, folded', UpdateCounter(between, t, counting), times + [t], h, v)
            && between.mode == c.mode && UpdateIrqs(between, t, counting) == []
  {
    if External(c) {
      var ticking := folded.(count := U32(folded.count + 1));
      TestedElsewhere(ticking, stepped.startCycle);
    } else {
      QuietUpdate(c, from, times, t, h, v);
    }
  }

  // ----- any number of edges

  /** The folded state `f` and the stepped state `r` after edges at the given cycles. */
  ghost predicate Follows(s: State, f: State, r: State, times: seq<nat>) {
    && Resembles(f, r, |times|) && f.vsync == s.vsync && f.hsync.mode == LevelAfter(s.hsync.mode, |times|)
    && forall i :: 0 <= i < 4 ==>
         CounterFollows(s.counters[i], f.counters[i], r.counters[i], times, s.hsync.mode, s.vsync.mode)
  }

  ghost predicate Fit(s: State, times: seq<nat>) {
    forall i :: 0 <= i < 4 ==> CounterFit(s.counters[i], s.cycle, times, s.hsync.mode, s.vsync.mode)
  }

  /** Whether the next edge ticks counter `i`. */
  predicate TickedBy(f: State, i: nat)
    requires i < 4
  {
    !f.sint && f.hsync.mode == HRender && ClockMask(f)[i]
  }

  lemma AfterEdgeAt(f: State, bank: Bank, i: nat)
    requires i < 4
    ensures AfterEdge(f, bank)[i] == if TickedBy(f, i) then TickOne(bank[i]) else bank[i]
  {
    if !f.sint && f.hsync.mode == HRender {
      TickMaskedAt(bank, ClockMask(f), |bank|, i);
    }
  }

  /** Counter `i` at the next edge, on both paths. */
  lemma EdgeAtCounter(s: State, f: State, r: State, times: seq<nat>, i: nat, t: nat, h: HMode)
    requires i < 4 && Follows(s, f, r, times) && Foldable(f) && h == LevelAfter(s.hsync.mode, |times| + 1)
    requires CounterFit(s.counters[i], s.cycle, times + [t], s.hsync.mode, s.vsync.mode)
    ensures var between := AfterEdge(f, r.counters)[i];
            var counting' := CanCount(between.mode, h, s.vsync.mode);
            && CounterFollows(s.counters[i], AfterEdge(f, f.counters)[i], UpdateCounter(between, t, counting'),
                              times + [t], s.hsync.mode, s.vsync.mode)
            && between.mode == s.counters[i].mode && UpdateIrqs(between, t, counting') == []
  {
    var c := s.counters[i];
    AfterEdgeAt(f, f.counters, i);
    AfterEdgeAt(f, r.counters, i);
    var ticked := TickedBy(f, i);
    assert CounterFollows(c, f.counters[i], r.counters[i], times, s.hsync.mode, s.vsync.mode);
    if ticked {
      assert Clocked(f, i) && CounterFoldable(f, i);
    }
    var counting' := CanCount(c.mode, h, s.vsync.mode);
    CounterAfterEdge(c, f.counters[i], r.counters[i], s.cycle, times, t, s.hsync.mode, s.vsync.mode, ticked, counting');
  }

  /** The counter loop and the new deadline, after the edge handler has left `g` and the fold `h`. */
  lemma LoopFollows(s: State, h: State, g: State, times: seq<nat>)
    requires h.vsync == s.vsync && h.hsync.mode == LevelAfter(s.hsync.mode, |times|)
    requires g == h.(cycle := g.cycle, counters := g.counters, iop := IopAfter(h, |times|),
                     nextStart := g.nextStart, nextDelta := g.nextDelta)
    requires forall i :: 0 <= i < 4 ==>
               CounterFollows(s.counters[i], h.counters[i], UpdateCounter(g.counters[i], g.cycle, Counting(g, i)), times, s.hsync.mode, s.vsync.mode)
    requires forall i :: 0 <= i < 4 ==> UpdateIrqs(g.counters[i], g.cycle, Counting(g, i)) == []
    ensures Follows(s, h, CpuRcntSet(UpdateUpTo(g, |g.counters|)), times)
  {
    UpdateUpToAt(g, |g.counters|);
    UpdateUpToSilent(g, |g.counters|);
    var u := UpdateUpTo(g, |g.counters|);
    assert CpuRcntSet(u) == u.(nextStart := CpuRcntSet(u).nextStart, nextDelta := CpuRcntSet(u).nextDelta);
    forall i | 0 <= i < 4
      ensures CounterFollows(s.counters[i], h.counters[i], u.counters[i], times, s.hsync.mode, s.vsync.mode)
      ensures u.counters[i].mode == h.counters[i].mode
    {
      assert CounterFollows(s.counters[i], h.counters[i], UpdateCounter(g.counters[i], g.cycle, Counting(g, i)), times, s.hsync.mode, s.vsync.mode);
    }
  }

  /** The counters at the next edge, on both paths. */
  lemma HandlerFollows(s: State, f: State, r: State, g: State, h: State, times: seq<nat>)
    requires Follows(s, f, r, times) && Foldable(f) && !WakesTheEe(f)
    requires Fit(s, times + [Edge(f.hsync)])
    requires h == f.(hsync := h.hsync, hsint := h.hsint, iop := h.iop, counters := AfterEdge(f, f.counters))
    requires h.hsync.mode == Flip(f.hsync.mode)
    requires g == h.(cycle := Edge(f.hsync), counters := AfterEdge(f, r.counters), iop := IopAfter(h, |times| + 1),
                     nextStart := r.nextStart, nextDelta := r.nextDelta)
    ensures Follows(s, h, CpuRcntSet(UpdateUpTo(g, |g.counters|)), times + [Edge(f.hsync)])
  {
    var t := Edge(f.hsync);
    NextLevel(s.hsync.mode, |times|);
    forall i | 0 <= i < 4
      ensures CounterFollows(s.counters[i], h.counters[i], UpdateCounter(g.counters[i], t, Counting(g, i)), times + [t], s.hsync.mode, s.vsync.mode)
      ensures UpdateIrqs(g.counters[i], t, Counting(g, i)) == []
    {
      EdgeAtCounter(s, f, r, times, i, t, g.hsync.mode);
    }
    LoopFollows(s, h, g, times + [t]);
  }

  lemma NextLevel(h: HMode, k: nat)
    ensures LevelAfter(h, k + 1) == Flip(LevelAfter(h, k))
  {
  }

  /** One edge on both paths. */
  lemma EdgeFollows(s: State, f: State, r: State, times: seq<nat>)
    requires Follows(s, f, r, times) && Foldable(f) && f.hsync.deltaCycles >= 0 && !WakesTheEe(f)
    requires Fit(s, times + [Edge(f.hsync)])
    ensures Follows(s, FoldEdge(f, ClockMask(f)), RcntUpdate(r.(cycle := Edge(r.hsync))), times + [Edge(f.hsync)])
  {
    HandlerResembles(f, r, |times|);
    assert f.irqs + [] == f.irqs;
    HandlerFollows(s, f, r, StepEdge(r), FoldEdge(f, ClockMask(f)), times);
  }

  /** Any number of folded edges. */
  lemma {:induction false} FoldFollows(s: State, n: nat)
    requires MayFold(s, n) && Fit(s, EdgeTimes(s, n))
    ensures Follows(s, FoldEdges(s, n), UpdateEdges(s, n), EdgeTimes(s, n))
  {
    if n == 0 {
      FollowsAtFirst(s);
    } else {
      FitSooner(s, n);
      FoldFollows(s, n - 1);
      FollowsOn(s, n);
    }
  }

  lemma FollowsAtFirst(s: State)
    ensures Follows(s, s, s, [])
  {
  }

  lemma FitSooner(s: State, n: nat)
    requires n > 0 && Fit(s, EdgeTimes(s, n))
    ensures Fit(s, EdgeTimes(s, n - 1))
  {
    forall i | 0 <= i < 4
      ensures CounterFit(s.counters[i], s.cycle, EdgeTimes(s, n - 1), s.hsync.mode, s.vsync.mode)
    {
      FitBefore(s.counters[i], s.cycle, EdgeTimes(s, n - 1), Edge(FoldEdges(s, n - 1).hsync), s.hsync.mode, s.vsync.mode);
    }
  }

  lemma FollowsOn(s: State, n: nat)
    requires n > 0 && MayFold(s, n) && Fit(s, EdgeTimes(s, n))
    requires Follows(s, FoldEdges(s, n - 1), UpdateEdges(s, n - 1), EdgeTimes(s, n - 1))
    ensures Follows(s, FoldEdges(s, n), UpdateEdges(s, n), EdgeTimes(s, n))
  {
    FoldEdgesFoldable(s, n - 1);
    FollowsNext(s, n, FoldEdges(s, n - 1), UpdateEdges(s, n - 1), EdgeTimes(s, n - 1));
  }

  lemma FollowsNext(s: State, n: nat, f: State, r: State, times: seq<nat>)
    requires n > 0 && f == FoldEdges(s, n - 1) && r == UpdateEdges(s, n - 1) && times == EdgeTimes(s, n - 1)
    requires Follows(s, f, r, times) && Foldable(f) && f.hsync.deltaCycles >= 0 && !WakesTheEe(f)
    requires ClockMask(f) == ClockMask(s) && Fit(s, EdgeTimes(s, n))
    ensures Follows(s, FoldEdges(s, n), UpdateEdges(s, n), EdgeTimes(s, n))
  {
    EdgeFollows(s, f, r, times);
  }

  // ----- the next update

  /** Fit for the edges, and in range up to the next update. */
  ghost predicate CounterFitTo(c: Counter, from: nat, times: seq<nat>, t: nat, h: HMode, v: VMode) {
    && CounterFit(c, from, times, h, v)
    && (External(c) || (InOrder(c, from, times + [t]) && (LevelFree(c.mode) || !Deadlines.CounterDue(c, t))))
  }

  /** No unnoticed counter overflows both before the last edge and again before `t`. */
  predicate WrapsAlike(c: Counter, times: seq<nat>, t: nat, counting: bool) {
    !counting || !Unnoticed(c.mode) || times == []
    || CountAt(c, times[|times| - 1]) <= 0xFFFF || CountAt(c, t) <= 0x1_FFFF
  }

  lemma StoppedAtEnd(c: Counter, from: nat, times: seq<nat>, t: nat)
    requires InOrder(c, from, times + [t])
    ensures UpdateCounter(Updates(c, times, false), t, false) == UpdateCounter(c, t, false)
  {
    var all := times + [t];
    assert all[..|all| - 1] == times;
    StoppedUpdates(c, from, all);
  }

  lemma IdleAtEnd(c: Counter, from: nat, times: seq<nat>, t: nat)
    requires InOrder(c, from, times + [t])
    requires forall j :: 0 <= j < |times| ==> !Deadlines.CounterDue(c, times[j])
    ensures Sync(Updates(c, times, true), t, true) == Sync(c, t, true)
  {
    var all := times + [t];
    if times != [] {
      assert all[..|all| - 1] == times && all[|all| - 2] == times[|times| - 1];
      PrefixInOrder(c, from, all);
      IdleUpdates(c, from, times);
      SyncTwice(c, Updates(c, times, true), times[|times| - 1], t, true);
    }
  }

  /** The next update of a calm counter, on both paths. */
  lemma CalmAtEnd(c: Counter, from: nat, times: seq<nat>, t: nat, counting: bool)
    requires !External(c) && Calm(c, from, times, counting) && InOrder(c, from, times + [t])
    ensures var x := Updates(c, times, counting);
            && UpdateIrqs(c, t, counting) == UpdateIrqs(x.(mode := c.mode), t, counting)
            && (UpdateCounter(c, t, counting) == UpdateCounter(x, t, counting) <==> WrapsAlike(c, times, t, counting))
  {
    if !counting {
      StoppedAtEnd(c, from, times, t);
    } else if Unnoticed(c.mode) {
      var all := times + [t];
      assert all[..|all| - 1] == times;
      UnnoticedUpdatesIff(c, from, times, t);
    } else {
      IdleAtEnd(c, from, times, t);
      if times != [] {
        IdleUpdates(c, from, times);
      }
    }
  }

  /** The next edge is due at cycle `t`, or overdue. */
  predicate EdgeDue(f: State, t: nat) {
    CpuTestCycle(t, f.hsync.startCycle, f.hsync.deltaCycles)
  }

  /** The horizontal level after an update at `t`. */
  function LevelAt(f: State, t: nat): HMode {
    if EdgeDue(f, t) then Flip(f.hsync.mode) else f.hsync.mode
  }

  /** `b` is `a` but for the IOP and the EE deadline. */
  predicate Alike(a: State, b: State) {
    b == a.(iop := b.iop, nextStart := b.nextStart, nextDelta := b.nextDelta)
  }

  lemma {:induction false} RcntSetIgnores(delta: s32, a: State, b: State, n: nat)
    requires n <= 4 && Alike(a, b) && a.nextStart == b.nextStart
    ensures RcntSetUpTo(delta, a, n) == RcntSetUpTo(delta, b, n)
  {
    if n > 0 {
      RcntSetIgnores(delta, a, b, n - 1);
    }
  }

  /** The new deadline depends on neither. */
  lemma CpuRcntSetIgnores(a: State, b: State)
    requires Alike(a, b)
    ensures CpuRcntSet(b) == CpuRcntSet(a).(iop := b.iop)
  {
    var a', b' := a.(nextStart := a.cycle), b.(nextStart := b.cycle);
    RcntSetIgnores(SyncDelta(a'), a', b', |a.counters|);
  }

  /** `u` is `s` after the counter loop. */
  predicate LoopOf(s: State, u: State) {
    && u == s.(counters := u.counters, irqs := u.irqs)
    && forall i :: 0 <= i < 4 ==> u.counters[i] == UpdateCounter(s.counters[i], s.cycle, Counting(s, i))
  }

  lemma WholeLoop(s: State)
    ensures LoopOf(s, UpdateUpTo(s, |s.counters|))
  {
    UpdateUpToAt(s, |s.counters|);
  }

  lemma ResultsAlikeIff(a: State, b: State, u: State, w: State)
    requires Alike(a.(counters := b.counters), b) && u.irqs == w.irqs
    requires LoopOf(a, u) && LoopOf(b, w)
    ensures Alike(u, w)
       <==> forall i :: 0 <= i < 4 ==>
              UpdateCounter(a.counters[i], a.cycle, Counting(a, i)) == UpdateCounter(b.counters[i], b.cycle, Counting(b, i))
  {
    assert Alike(u, w) <==> u.counters == w.counters;
    if forall i :: 0 <= i < 4 ==>
         UpdateCounter(a.counters[i], a.cycle, Counting(a, i)) == UpdateCounter(b.counters[i], b.cycle, Counting(b, i)) {
      forall i | 0 <= i < 4
        ensures u.counters[i] == w.counters[i]
      {
      }
      assert u.counters == w.counters;
    } else {
      var i :| 0 <= i < 4 &&
               UpdateCounter(a.counters[i], a.cycle, Counting(a, i)) != UpdateCounter(b.counters[i], b.cycle, Counting(b, i));
      assert u.counters[i] != w.counters[i];
    }
  }

  lemma DeadlineKeepsAlike(u: State, w: State)
    ensures Alike(u, w) <==> CpuRcntSet(w) == CpuRcntSet(u).(iop := w.iop)
  {
    if Alike(u, w) {
      CpuRcntSetIgnores(u, w);
    }
  }

  // ----- the horizon the caller uses

  /** Each counter that counts cycles is in range; one that follows the horizontal level, which the
      fold refuses itself unless sync interrupts are suppressed, reaches no threshold. */
  ghost predicate Ranges(s: State, times: seq<nat>, t: nat) {
    && Ascending(times + [t])
    && forall i :: 0 <= i < 4 && !External(s.counters[i]) ==>
         (LevelFree(s.counters[i].mode) || !Deadlines.CounterDue(s.counters[i], t)) && Steady(s.counters[i], s.cycle, s.cycle)
         && forall j :: 0 <= j <= |times| ==> Steady(s.counters[i], s.cycle, (times + [t])[j])
  }

  lemma {:induction false} WatchedDeadline(s: State, n: nat, i: nat)
    requires i < n <= 4 && IsWatched(s, i)
    ensures Deadlines.DeadlineUpTo(s, n) <= Deadlines.CounterDeadline(s.counters[i], s.cycle)
  {
    if i < n - 1 {
      WatchedDeadline(s, n - 1, i);
    }
  }

  lemma {:induction false} EdgesBefore(s: State, n: nat, horizon: nat, j: nat)
    requires j < n && EdgesWithin(s, n, s.cycle, horizon)
    ensures s.cycle < EdgeTimes(s, n)[j] < horizon
  {
    if j < n - 1 {
      EdgesBefore(s, n - 1, horizon, j);
    }
  }

  /** Before the horizon no watched counter is due. */
  lemma CounterFitsHorizon(s: State, n: nat, t: nat, i: nat)
    requires i < 4 && EdgesWithin(s, n, s.cycle, Deadlines.NonHsyncDeadline(s)) && Deadlines.NonePast(s, 4)
    requires Ranges(s, EdgeTimes(s, n), t)
    ensures CounterFitTo(s.counters[i], s.cycle, EdgeTimes(s, n), t, s.hsync.mode, s.vsync.mode)
  {
    var c, times := s.counters[i], EdgeTimes(s, n);
    if !External(c) {
      var all := times + [t];
      assert forall j :: 0 <= j < |all| ==> Steady(c, s.cycle, all[j]);
      assert forall j :: 0 <= j < |times| ==> times[j] == all[j];
      assert InOrder(c, s.cycle, all) && InOrder(c, s.cycle, times);
      if !LevelFree(c.mode) {
        NoneDueSooner(c, s.cycle, times, t);
      } else if Counting(s, i) && !Unnoticed(c.mode) {
        assert IsWatched(s, i) && !PastTarget(c);
        WatchedDeadline(s, 4, i);
        forall j | 0 <= j < |times|
          ensures !Deadlines.CounterDue(c, times[j])
        {
          EdgesBefore(s, n, Deadlines.NonHsyncDeadline(s), j);
          Deadlines.CounterDeadlineExact(c, s.cycle, times[j]);
        }
      }
    }
  }

  // ----- a vertical edge at the next update

  function GateActs(c: Counter, counting: bool, t: nat, at: nat, starts: bool): Counter {
    if starts then GateStarts(c, counting, t, at) else GateEnds(c, counting, t, at)
  }

  /** A closing gate sees a counter through its sync, an opening one its count, and a restart only its
      mode and the low word of its target. */
  lemma GateActsAlikeIff(c: Counter, x: Counter, counting: bool, t: nat, at: nat, starts: bool)
    requires !External(c) && x.mode == c.mode && x.rate == c.rate && x.interrupt == c.interrupt
    requires x.target % TWO_16 == c.target % TWO_16 && c.mode.gateMode != if starts then 2 else 1
    ensures GateActs(x, counting, t, at, starts) == GateActs(c, counting, t, at, starts)
       <==> c.mode.gateMode != 0
            || (x.target == c.target
                && if starts then Sync(x, t, counting).count == Sync(c, t, counting).count else x.count == c.count)
  {
  }

  lemma StoppedGate(c: Counter, from: nat, times: seq<nat>, t: nat, at: nat, starts: bool)
    requires !External(c) && times != [] && InOrder(c, from, times) && c.mode.gateMode != if starts then 2 else 1
    ensures GateActs(Updates(c, times, false), false, t, at, starts) == GateActs(c, false, t, at, starts)
  {
    StoppedUpdates(c, from, times);
    GateActsAlikeIff(c, Updates(c, times, false), false, t, at, starts);
  }

  lemma WatchedGate(c: Counter, from: nat, times: seq<nat>, t: nat, at: nat, starts: bool)
    requires !External(c) && times != [] && InOrder(c, from, times + [t]) && c.mode.gateMode != if starts then 2 else 1
    requires InOrder(c, from, times) && forall j :: 0 <= j < |times| ==> !Deadlines.CounterDue(c, times[j])
    requires c.mode.gateMode == 0 ==> starts
    ensures GateActs(Updates(c, times, true), true, t, at, starts) == GateActs(c, true, t, at, starts)
  {
    IdleAtEnd(c, from, times, t);
    IdleUpdates(c, from, times);
    GateActsAlikeIff(c, Updates(c, times, true), true, t, at, starts);
  }

  /** Neither wrapped nor postponed by the tests. */
  predicate Untested(c: Counter, times: seq<nat>) {
    times == []
    || (CountAt(c, times[|times| - 1]) <= 0xFFFF && (CountAt(c, times[|times| - 1]) < c.target || HasFutureTarget(c.target)))
  }

  lemma UnwatchedGateIff(c: Counter, from: nat, times: seq<nat>, t: nat, at: nat, starts: bool)
    requires !External(c) && times != [] && InOrder(c, from, times + [t]) && c.mode.gateMode != if starts then 2 else 1
    requires InOrder(c, from, times) && Unnoticed(c.mode) && (c.mode.gateMode == 0 ==> starts)
    ensures GateActs(Updates(c, times, true), true, t, at, starts) == GateActs(c, true, t, at, starts)
       <==> c.mode.gateMode != 0 || Untested(c, times)
  {
    var all := times + [t];
    assert all[..|all| - 1] == times && all[|all| - 2] == times[|times| - 1];
    PrefixInOrder(c, from, all);
    UpdatesWrap(c, from, times);
    GateThroughSync(c, Updates(c, times, true), times[|times| - 1], t, at, starts);
    SyncAfterUpdatesIff(c, from, times, t);
  }

  lemma GateThroughSync(c: Counter, x: Counter, last: nat, t: nat, at: nat, starts: bool)
    requires !External(c) && Steady(c, last, t) && Wrapped(x, Sync(c, last, true))
    requires c.mode.gateMode != (if starts then 2 else 1) && (c.mode.gateMode == 0 ==> starts)
    ensures GateActs(x, true, t, at, starts) == GateActs(c, true, t, at, starts)
       <==> c.mode.gateMode != 0 || Sync(x, t, true) == Sync(c, t, true)
  {
    SyncCounts(c, last);
    SyncsAlike(c, x, last, t);
    GateActsAlikeIff(c, x, true, t, at, starts);
  }

  lemma SyncsAlike(c: Counter, x: Counter, last: nat, t: nat)
    requires Steady(c, last, t)
    requires var d := Sync(c, last, true); x == d.(count := x.count, target := x.target)
    ensures Sync(x, t, true) == Sync(c, t, true) <==> Sync(x, t, true).count == Sync(c, t, true).count && x.target == c.target
  {
    var d := Sync(c, last, true);
    SyncTwice(c, d, last, t, true);
    SyncStart(x, d, t);
  }

  /** The gate of a counter at a vertical edge, on the folded and on the ordinary path: where the gate
      opens or restarts the counter both come to the same; where it closes a counter that nobody
      watches, exactly if no test at an edge has wrapped it or postponed its target. */
  lemma VerticalGateIff(c: Counter, from: nat, times: seq<nat>, t: nat, at: nat, counting: bool, starts: bool)
    requires !External(c) && Calm(c, from, times, counting) && InOrder(c, from, times + [t])
    requires c.mode.gateMode != if starts then 2 else 1
    requires c.mode.gateMode == 0 && counting ==> starts
    ensures GateActs(Updates(c, times, counting), counting, t, at, starts) == GateActs(c, counting, t, at, starts)
       <==> c.mode.gateMode != 0 || !counting || !Unnoticed(c.mode) || Untested(c, times)
  {
    if times == [] {
      assert Updates(c, times, counting) == c;
    } else if !counting {
      StoppedGate(c, from, times, t, at, starts);
    } else if Unnoticed(c.mode) {
      UnwatchedGateIff(c, from, times, t, at, starts);
    } else {
      WatchedGate(c, from, times, t, at, starts);
    }
  }

  /** The same with the sync and the tests that follow the gate in the same update: a closed counter
      is not tested, so that its difference stays. */
  lemma VerticalUpdateIff(c: Counter, from: nat, times: seq<nat>, t: nat, at: nat, counting: bool, starts: bool, after: bool)
    requires !External(c) && Calm(c, from, times, counting) && InOrder(c, from, times + [t])
    requires c.mode.gateMode != if starts then 2 else 1
    requires c.mode.gateMode == 0 && counting ==> starts
    requires c.mode.gateMode == 0 && starts ==> !after
    ensures UpdateCounter(GateActs(Updates(c, times, counting), counting, t, at, starts), t, after)
            == UpdateCounter(GateActs(c, counting, t, at, starts), t, after)
       <==> c.mode.gateMode != 0 || !counting || !Unnoticed(c.mode) || Untested(c, times)
  {
    VerticalGateIff(c, from, times, t, at, counting, starts);
    if c.mode.gateMode == 0 && starts && counting && Unnoticed(c.mode) {
      if times != [] {
        UpdatesWrap(c, from, times);
      } else {
        assert Updates(c, times, counting) == c;
      }
      ClosedStaysApart(GateStarts(Updates(c, times, true), true, t, at), GateStarts(c, true, t, at), t);
    }
  }

  lemma ClosedStaysApart(x: Counter, y: Counter, t: nat)
    requires x == y.(count := x.count, target := x.target)
    ensures UpdateCounter(x, t, false) == UpdateCounter(y, t, false) <==> x == y
  {
  }

  // ----- interrupts that the fold puts off

  /** The tests raise an interrupt at the count `n`: an enabled one that is not flagged yet. */
  predicate Raises(c: Counter, n: int) {
    || (n > 0xFFFF && c.mode.overflowInterrupt && !c.mode.overflowReached)
    || (c.mode.targetInterrupt && !c.mode.targetReached
        && if n > 0xFFFF then n - TWO_16 >= c.target % TWO_16 else n >= c.target)
  }

  lemma TestIrqsIff(c: Counter)
    ensures TestIrqs(c) == [] <==> !Raises(c, c.count)
  {
  }

  /** The loop appends to the list of interrupts. */
  lemma {:induction false} UpdateUpToIrqsIff(s: State, n: nat)
    requires n <= 4
    ensures |UpdateUpTo(s, n).irqs| >= |s.irqs|
    ensures UpdateUpTo(s, n).irqs == s.irqs <==> NoneRaised(s, n)
  {
    if n > 0 {
      UpdateUpToIrqsIff(s, n - 1);
      NextIrqs(s, n - 1);
      AppendIff(s.irqs, UpdateUpTo(s, n - 1).irqs, UpdateIrqs(s.counters[n - 1], s.cycle, Counting(s, n - 1)));
    }
  }

  lemma NextIrqs(s: State, n: nat)
    requires n < 4
    ensures UpdateUpTo(s, n + 1).irqs == UpdateUpTo(s, n).irqs + UpdateIrqs(s.counters[n], s.cycle, Counting(s, n))
  {
    UpdateUpToAt(s, n);
    UpdateNext(s, n, UpdateUpTo(s, n));
  }

  predicate NoneRaised(s: State, n: nat)
    requires n <= 4
  {
    n == 0 || (NoneRaised(s, n - 1) && UpdateIrqs(s.counters[n - 1], s.cycle, Counting(s, n - 1)) == [])
  }

  lemma AppendIff(base: seq<Irq>, middle: seq<Irq>, more: seq<Irq>)
    requires |middle| >= |base|
    ensures middle + more == base <==> middle == base && more == []
  {
    if middle + more == base {
      assert |more| == 0;
    }
  }

  /** Counter `i` would interrupt at the next edge, at the level it brings. */
  predicate DueAtEdge(s: State, i: nat)
    requires i < 4
  {
    && !External(s.counters[i]) && CanCount(s.counters[i].mode, Flip(s.hsync.mode), s.vsync.mode)
    && Raises(s.counters[i], CountAt(s.counters[i], Edge(s.hsync)))
  }

  lemma IrqsAtEdge(s: State, g: State, i: nat)
    requires i < 4 && g.counters[i] == AfterEdge(s, s.counters)[i] && g.cycle == Edge(s.hsync) && g.vsync == s.vsync
    requires Foldable(s) && g.hsync.mode == Flip(s.hsync.mode)
    requires !External(s.counters[i]) ==> Steady(s.counters[i], s.cycle, g.cycle)
    ensures UpdateIrqs(g.counters[i], g.cycle, Counting(g, i)) == [] <==> !DueAtEdge(s, i)
  {
    var c := s.counters[i];
    AfterEdgeAt(s, s.counters, i);
    if TickedBy(s, i) {
      assert Clocked(s, i) && CounterFoldable(s, i);
      assert External(TickOne(c));
    } else if !External(c) {
      SyncCounts(c, g.cycle);
      TestIrqsIff(Sync(c, g.cycle, true));
    }
  }

  /** The counters that count cycles are in range at the next edge. */
  ghost predicate Regular(s: State) {
    forall i :: 0 <= i < 4 && !External(s.counters[i]) ==> Steady(s.counters[i], s.cycle, Edge(s.hsync))
  }

  predicate NoneDueAtEdge(s: State) {
    forall i :: 0 <= i < 4 ==> !DueAtEdge(s, i)
  }

  /** The first edge that may be folded: the ordinary path has raised exactly the same interrupts
      afterwards if and only if no counter is due to interrupt at it.  A watched counter past its
      target is: the caller still folds, and its interrupt waits for the update that follows. */
  lemma FoldPostponesIff(s: State)
    requires MayFold(s, 1) && Regular(s)
    ensures UpdateEdges(s, 1).irqs == FoldEdges(s, 1).irqs <==> NoneDueAtEdge(s)
  {
    assert MayFold(s, 0) && FoldEdges(s, 0) == s && UpdateEdges(s, 0) == s;
    FirstEdge(s);
  }

  lemma FirstEdge(s: State)
    requires Foldable(s) && s.hsync.deltaCycles >= 0 && !WakesTheEe(s) && Regular(s)
    ensures RcntUpdate(s.(cycle := Edge(s.hsync))).irqs == s.irqs <==> NoneDueAtEdge(s)
  {
    assert Resembles(s, s, 0);
    HandlerResembles(s, s, 0);
    assert s.irqs + [] == s.irqs;
    AllIrqs(s, StepEdge(s));
  }

  lemma AllIrqs(s: State, g: State)
    requires Foldable(s) && g.counters == AfterEdge(s, s.counters) && g.cycle == Edge(s.hsync) && g.vsync == s.vsync
    requires g.irqs == s.irqs && Regular(s) && g.hsync.mode == Flip(s.hsync.mode)
    ensures CpuRcntSet(UpdateUpTo(g, |g.counters|)).irqs == s.irqs <==> NoneDueAtEdge(s)
  {
    UpdateUpToIrqsIff(g, |g.counters|);
    RaisedByEach(g);
    EachIrq(s, g);
    assert CpuRcntSet(UpdateUpTo(g, |g.counters|)).irqs == UpdateUpTo(g, |g.counters|).irqs;
  }

  lemma EachIrq(s: State, g: State)
    requires Foldable(s) && g.counters == AfterEdge(s, s.counters) && g.cycle == Edge(s.hsync) && g.vsync == s.vsync
    requires Regular(s) && g.hsync.mode == Flip(s.hsync.mode)
    ensures NoneDueAtEdge(s)
       <==> forall i :: 0 <= i < 4 ==> UpdateIrqs(g.counters[i], g.cycle, Counting(g, i)) == []
  {
    forall i | 0 <= i < 4
      ensures UpdateIrqs(g.counters[i], g.cycle, Counting(g, i)) == [] <==> !DueAtEdge(s, i)
    {
      IrqsAtEdge(s, g, i);
    }
  }

  lemma RaisedByEach(g: State)
    ensures NoneRaised(g, |g.counters|)
       <==> forall i :: 0 <= i < 4 ==> UpdateIrqs(g.counters[i], g.cycle, Counting(g, i)) == []
  {
    RaisedUpTo(g, |g.counters|);
  }

  lemma {:induction false} RaisedUpTo(g: State, n: nat)
    requires n <= 4
    ensures NoneRaised(g, n) <==> forall i :: 0 <= i < n ==> UpdateIrqs(g.counters[i], g.cycle, Counting(g, i)) == []
  {
    if n > 0 {
      RaisedUpTo(g, n - 1);
    }
  }
}
