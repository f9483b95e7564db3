/** Updating an EE counter early (pcsx2/Counters.cpp:1109-1148): when a run of rcntUpdate calls on one
    counter is as good as the last call alone. */
module CounterUpdates {

  import opened Words
  import opened EeTimers
  import opened Ticks
  import Deadlines

  /** The counter after updates at the given cycles. */
  function Updates(c: Counter, times: seq<nat>, counting: bool): Counter {
    if times == [] then c else UpdateCounter(Updates(c, times[..|times| - 1], counting), times[|times| - 1], counting)
  }

  /** Nobody notices the tests: no interrupt, and no return to zero. */
  predicate Unnoticed(m: Mode) {
    !m.targetInterrupt && !m.overflowInterrupt && !m.zeroReturn
  }

  /** The counter is in range for every update from `from` to `to`. */
  ghost predicate Steady(c: Counter, from: nat, to: nat) {
    Aligned(c) && c.startCycle <= from <= to < c.startCycle + TWO_31 && c.count < TWO_31 / 2
  }

  // ----- the tests

  /** The tests leave a counter alone that has reached neither threshold. */
  lemma IdleTests(c: Counter)
    requires !Deadlines.Fires(c)
    ensures Tested(c) == c && TestIrqs(c) == []
  {
  }

  function Plus(c: Counter, ticks: nat): Counter
    requires c.count + ticks < TWO_32
  {
    c.(count := c.count + ticks)
  }

  /** Testing an unnoticed counter early makes no difference unless the early tests already wrap
      it and it wraps again. */
  lemma TestedTwiceIff(c: Counter, ticks: nat)
    requires Unnoticed(c.mode) && c.count + ticks < TWO_32
    ensures Tested(c).count <= c.count && Tested(c).mode == c.mode
    ensures Tested(Plus(Tested(c), ticks)) == Tested(Plus(c, ticks))
       <==> c.count <= 0xFFFF || c.count + ticks <= 0x1_FFFF
  {
    FutureTargetKeepsLowWord(c.target);
    FutureTargetKeepsLowWord(c.target % TWO_16);
    if c.count <= 0xFFFF {
      NoEarlyWrap(c, ticks);
    } else {
      EarlyWrap(c, ticks);
    }
  }

  lemma FutureTargetKeepsLowWord(target: u32)
    ensures WithFutureTarget(target) % TWO_16 == target % TWO_16 && WithFutureTarget(target) >= FUTURE_TARGET
    ensures HasFutureTarget(WithFutureTarget(target)) && WithFutureTarget(WithFutureTarget(target)) == WithFutureTarget(target)
  {
  }

  lemma NoEarlyWrap(c: Counter, ticks: nat)
    requires Unnoticed(c.mode) && c.count <= 0xFFFF && c.count + ticks < TWO_32
    ensures Tested(Plus(Tested(c), ticks)) == Tested(Plus(c, ticks))
  {
    FutureTargetKeepsLowWord(c.target);
    assert TestOverflow(c) == c;
  }

  lemma EarlyWrap(c: Counter, ticks: nat)
    requires Unnoticed(c.mode) && c.count > 0xFFFF && c.count + ticks < TWO_32
    ensures Tested(Plus(Tested(c), ticks)) == Tested(Plus(c, ticks)) <==> c.count + ticks <= 0x1_FFFF
  {
    FutureTargetKeepsLowWord(c.target % TWO_16);
    var low := c.target % TWO_16;
    assert TestOverflow(Plus(c, ticks)) == Plus(c, ticks).(count := c.count + ticks - TWO_16, target := low);
  }

  // ----- two updates

  /** The count at cycle `t` if the tests took nothing out of it. */
  function CountAt(c: Counter, t: nat): int {
    c.count + Elapsed(c, t)
  }

  /** A second sync adds the rest of the ticks, to whatever the tests have left. */
  lemma SyncFrom(c: Counter, x: Counter, t: nat, u: nat) returns (ticks: nat)
    requires Steady(c, t, u)
    requires var d := Sync(c, t, true); x == d.(count := x.count, target := x.target) && x.count <= d.count
    ensures CountAt(c, u) == CountAt(c, t) + ticks && CountAt(c, u) < TWO_31 && x.count + ticks < TWO_32
    ensures Sync(c, t, true).count == CountAt(c, t) && Sync(c, u, true).count == CountAt(c, u)
    ensures Sync(x, u, true) == Plus(x, ticks).(startCycle := Sync(c, u, true).startCycle)
  {
    var d := Sync(c, t, true);
    SyncCounts(c, t);
    SyncCounts(c, u);
    SyncTwice(c, d, t, u, true);
    SyncCounts(d, u);
    SyncCounts(x, u);
    SyncStart(x, d, u);
    ticks := Elapsed(d, u);
  }

  /** A sync, with the products left aside. */
  lemma SyncCounts(c: Counter, t: nat)
    requires Aligned(c) && Recent(c, t) && c.count < TWO_31
    ensures var d := Sync(c, t, true);
            && d == c.(startCycle := d.startCycle, count := d.count) && d.count == CountAt(c, t)
            && Aligned(d) && c.startCycle <= d.startCycle <= t
            && c.count <= CountAt(c, t) <= c.count + TWO_31 / 2
  {
    SyncMovesWholeTicks(c, t, true);
    WholeTicks(c.startCycle, c.rate, t);
  }

  /** Where a sync leaves the start cycle has nothing to do with the count. */
  lemma SyncStart(x: Counter, d: Counter, u: nat)
    requires x == d.(count := x.count, target := x.target)
    ensures Sync(x, u, true).startCycle == Sync(d, u, true).startCycle && Elapsed(x, u) == Elapsed(d, u)
  {
  }

  // ----- any number of updates

  /** Updates in order, all of them in range. */
  ghost predicate InOrder(c: Counter, from: nat, times: seq<nat>) {
    Ascending(times) && forall i :: 0 <= i < |times| ==> Steady(c, from, times[i])
  }

  lemma PrefixInOrder(c: Counter, from: nat, times: seq<nat>)
    requires InOrder(c, from, times) && |times| > 1
    ensures InOrder(c, from, times[..|times| - 1])
    ensures Steady(c, times[|times| - 2], times[|times| - 1])
  {
    var before := times[..|times| - 1];
    assert forall i :: 0 <= i < |before| ==> before[i] == times[i];
  }

  /** A counter that does not count: only its start cycle moves. */
  lemma {:induction false} StoppedUpdates(c: Counter, from: nat, times: seq<nat>)
    requires times != [] && InOrder(c, from, times)
    ensures Updates(c, times, false) == Sync(c, times[|times| - 1], false)
  {
    var before, last := times[..|times| - 1], times[|times| - 1];
    if before != [] {
      PrefixInOrder(c, from, times);
      StoppedUpdates(c, from, before);
      SyncTwice(c, Updates(c, before, false), times[|times| - 2], last, false);
    } else {
      assert Updates(c, before, false) == c;
    }
  }

  /** A counter that reaches no threshold: the tests stay idle. */
  lemma {:induction false} IdleUpdates(c: Counter, from: nat, times: seq<nat>)
    requires times != [] && InOrder(c, from, times)
    requires forall i :: 0 <= i < |times| ==> !Deadlines.CounterDue(c, times[i])
    ensures Updates(c, times, true) == Sync(c, times[|times| - 1], true)
  {
    var before, last := times[..|times| - 1], times[|times| - 1];
    assert !Deadlines.CounterDue(c, last);
    if before != [] {
      PrefixInOrder(c, from, times);
      assert forall i :: 0 <= i < |before| ==> before[i] == times[i];
      IdleUpdates(c, from, before);
      SyncTwice(c, Updates(c, before, true), times[|times| - 2], last, true);
    } else {
      assert Updates(c, before, true) == c;
    }
    IdleTests(Sync(c, last, true));
  }

  /** `x` is `y` after some overflow wraps, at least one if there was an overflow at all. */
  predicate Wrapped(x: Counter, y: Counter) {
    && x == y.(count := x.count, target := x.target)
    && x.count <= y.count && x.count % TWO_16 == y.count % TWO_16
    && (y.count > 0xFFFF ==> x.count <= y.count - TWO_16)
    && x.target % TWO_16 == y.target % TWO_16
  }

  lemma TestsWrap(x: Counter, y: Counter)
    requires Unnoticed(x.mode) && x == y.(count := x.count, target := x.target)
    requires x.count <= y.count && x.count % TWO_16 == y.count % TWO_16 && x.target % TWO_16 == y.target % TWO_16
    ensures Wrapped(Tested(x), y)
  {
    FutureTargetKeepsLowWord(x.target);
    FutureTargetKeepsLowWord(x.target % TWO_16);
  }

  lemma {:induction false} UpdatesWrap(c: Counter, from: nat, times: seq<nat>)
    requires times != [] && InOrder(c, from, times) && Unnoticed(c.mode)
    ensures Wrapped(Updates(c, times, true), Sync(c, times[|times| - 1], true))
  {
    var before, last := times[..|times| - 1], times[|times| - 1];
    var y := Sync(c, last, true);
    if before == [] {
      assert Updates(c, before, true) == c;
      TestsWrap(y, y);
    } else {
      PrefixInOrder(c, from, times);
      UpdatesWrap(c, from, before);
      var x := Updates(c, before, true);
      var ticks := SyncFrom(c, x, times[|times| - 2], last);
      SameRemainder(x.count, Sync(c, times[|times| - 2], true).count, ticks);
      TestsWrap(Sync(x, last, true), y);
    }
  }

  lemma SameRemainder(a: nat, b: nat, ticks: nat)
    requires a % TWO_16 == b % TWO_16
    ensures (a + ticks) % TWO_16 == (b + ticks) % TWO_16
  {
  }

  /** Updating an unnoticed counter along the way gives what the last update alone gives exactly
      when there is no overflow before the last update, or only one in all: two overflows with an
      update in between are wrapped one by one, and only once without it. */
  lemma {:induction false} UnnoticedUpdatesIff(c: Counter, from: nat, times: seq<nat>, t: nat)
    requires InOrder(c, from, times + [t]) && Unnoticed(c.mode)
    ensures Updates(c, times + [t], true) == UpdateCounter(c, t, true)
       <==> times == [] || CountAt(c, times[|times| - 1]) <= 0xFFFF || CountAt(c, t) <= 0x1_FFFF
    decreases |times|
  {
    var all := times + [t];
    assert all[..|all| - 1] == times;
    if times == [] {
      assert Updates(c, times, true) == c;
    } else {
      var last := times[|times| - 1];
      assert all[|all| - 2] == last;
      PrefixInOrder(c, from, all);
      UpdatesWrap(c, from, times);
      var x, d := Updates(c, times, true), Sync(c, last, true);
      var ticks := SyncFrom(c, x, last, t);
      var ticks' := SyncFrom(c, d, last, t);
      assert ticks == ticks';
      var start := Sync(c, t, true).startCycle;
      TestedElsewhere(Plus(x, ticks), start);
      TestedElsewhere(Plus(d, ticks), start);
      SyncTwice(c, d, last, t, true);
      if CountAt(c, last) <= 0xFFFF || CountAt(c, t) <= 0x1_FFFF {
        var before := times[..|times| - 1];
        assert before + [last] == times;
        if before != [] {
          PrefixInOrder(c, from, times);
          var sooner := SyncFrom(c, Sync(c, before[|before| - 1], true), before[|before| - 1], last);
        }
        UnnoticedUpdatesIff(c, from, before, last);
        assert x == Tested(d);
        TestedTwiceIff(d, ticks);
      } else {
        assert Tested(Plus(x, ticks)).count < Tested(Plus(d, ticks)).count;
      }
    }
  }

  // ----- gates after updates

  /** The tests leave a counter nobody watches alone exactly when they stay idle. */
  lemma UnnoticedTestsIdleIff(c: Counter)
    requires Unnoticed(c.mode)
    ensures Tested(c) == c <==> c.count <= 0xFFFF && (c.count < c.target || HasFutureTarget(c.target))
  {
    FutureTargetKeepsLowWord(c.target);
    if HasFutureTarget(c.target) {
      assert c.target >= FUTURE_TARGET;
    }
  }

  /** A sync without tests after updates with tests: as good as the sync alone exactly when no test
      has taken or marked anything before. */
  lemma SyncAfterUpdatesIff(c: Counter, from: nat, times: seq<nat>, t: nat)
    requires InOrder(c, from, times + [t]) && Unnoticed(c.mode)
    ensures Sync(Updates(c, times, true), t, true) == Sync(c, t, true)
       <==> times == []
            || (CountAt(c, times[|times| - 1]) <= 0xFFFF
                && (CountAt(c, times[|times| - 1]) < c.target || HasFutureTarget(c.target)))
  {
    var all := times + [t];
    assert all[..|all| - 1] == times;
    if times != [] {
      var last := times[|times| - 1];
      assert all[|all| - 2] == last;
      PrefixInOrder(c, from, all);
      UpdatesWrap(c, from, times);
      var x, d := Updates(c, times, true), Sync(c, last, true);
      var ticks := SyncFrom(c, x, last, t);
      var ticks' := SyncFrom(c, d, last, t);
      SyncTwice(c, d, last, t, true);
      assert Sync(x, t, true) == Sync(d, t, true) <==> x.count == d.count && x.target == d.target;
      if CountAt(c, last) <= 0xFFFF {
        var before := times[..|times| - 1];
        assert before + [last] == times;
        if before != [] {
          PrefixInOrder(c, from, times);
          var sooner := SyncFrom(c, Sync(c, before[|before| - 1], true), before[|before| - 1], last);
        }
        UnnoticedUpdatesIff(c, from, before, last);
        assert x == Tested(d);
        UnnoticedTestsIdleIff(d);
      }
    }
  }

  // ----- counters that follow the horizontal level

  function Flip(h: HMode): HMode {
    if h == HRender then HBlank else HRender
  }

  /** The horizontal level after `k` edges. */
  function LevelAfter(h: HMode, k: nat): HMode {
    if k % 2 == 0 then h else Flip(h)
  }

  /** The counter after updates at the given edges, each with the level that its edge brings. */
  function LevelUpdates(c: Counter, times: seq<nat>, h: HMode, v: VMode): Counter {
    if times == [] then c
    else
      UpdateCounter(LevelUpdates(c, times[..|times| - 1], h, v), times[|times| - 1],
                    CanCount(c.mode, LevelAfter(h, |times|), v))
  }

  /** The horizontal level has no say in whether the counter counts. */
  predicate LevelFree(m: Mode) {
    !(m.isCounting && Gated(m, false) && m.gateMode == 0)
  }

  lemma LevelFreeCounts(m: Mode, h: HMode, h': HMode, v: VMode)
    requires LevelFree(m)
    ensures CanCount(m, h, v) == CanCount(m, h', v)
  {
  }

  lemma {:induction false} LevelFreeUpdates(c: Counter, times: seq<nat>, h: HMode, v: VMode)
    requires LevelFree(c.mode)
    ensures LevelUpdates(c, times, h, v) == Updates(c, times, CanCount(c.mode, h, v))
  {
    if times != [] {
      LevelFreeUpdates(c, times[..|times| - 1], h, v);
      LevelFreeCounts(c.mode, h, LevelAfter(h, |times|), v);
    }
  }

  /** Ticks between edge `j` and the one before it. */
  function TicksBefore(c: Counter, times: seq<nat>, j: nat): int
    requires j < |times|
  {
    Elapsed(c, times[j]) - if j == 0 then 0 else Elapsed(c, times[j - 1])
  }

  /** Ticks before edges that bring a level at which the counter counts, or does not. */
  function TicksAt(c: Counter, times: seq<nat>, h: HMode, v: VMode, counting: bool): int {
    if times == [] then 0
    else
      TicksAt(c, times[..|times| - 1], h, v, counting)
      + if CanCount(c.mode, LevelAfter(h, |times|), v) == counting then TicksBefore(c, times, |times| - 1) else 0
  }

  lemma TicksAreNonnegative(c: Counter, from: nat, times: seq<nat>, j: nat)
    requires InOrder(c, from, times) && j < |times|
    ensures TicksBefore(c, times, j) >= 0
  {
    if j == 0 {
      SyncCounts(c, times[0]);
    } else {
      assert Steady(c, from, times[j - 1]) && Steady(c, from, times[j]) && times[j - 1] <= times[j];
      var ticks := SyncFrom(c, Sync(c, times[j - 1], true), times[j - 1], times[j]);
    }
  }

  lemma PrefixTicks(c: Counter, times: seq<nat>, j: nat)
    requires j < |times| - 1
    ensures TicksBefore(c, times[..|times| - 1], j) == TicksBefore(c, times, j)
  {
  }

  lemma InOrderBefore(c: Counter, from: nat, times: seq<nat>)
    requires times != [] && InOrder(c, from, times)
    ensures InOrder(c, from, times[..|times| - 1])
  {
    var before := times[..|times| - 1];
    assert forall i :: 0 <= i < |before| ==> before[i] == times[i];
  }

  /** The two kinds of ticks are all there are. */
  lemma {:induction false} TicksAddUp(c: Counter, from: nat, times: seq<nat>, h: HMode, v: VMode)
    requires InOrder(c, from, times)
    ensures TicksAt(c, times, h, v, true) >= 0 && TicksAt(c, times, h, v, false) >= 0
    ensures times != [] ==>
              TicksAt(c, times, h, v, true) + TicksAt(c, times, h, v, false) == Elapsed(c, times[|times| - 1])
  {
    if times != [] {
      InOrderBefore(c, from, times);
      TicksAddUp(c, from, times[..|times| - 1], h, v);
      TicksAreNonnegative(c, from, times, |times| - 1);
    }
  }

  /** Ticks of a kind are none exactly if none elapses before any edge of that kind. */
  predicate NoTickAt(c: Counter, times: seq<nat>, h: HMode, v: VMode, counting: bool) {
    forall j :: 0 <= j < |times| && CanCount(c.mode, LevelAfter(h, j + 1), v) == counting ==> TicksBefore(c, times, j) == 0
  }

  lemma {:induction false} NoTickIff(c: Counter, from: nat, times: seq<nat>, h: HMode, v: VMode, counting: bool)
    requires InOrder(c, from, times)
    ensures TicksAt(c, times, h, v, counting) >= 0
    ensures TicksAt(c, times, h, v, counting) == 0 <==> NoTickAt(c, times, h, v, counting)
  {
    if times != [] {
      var before := times[..|times| - 1];
      InOrderBefore(c, from, times);
      NoTickIff(c, from, before, h, v, counting);
      TicksAreNonnegative(c, from, times, |times| - 1);
      forall j: nat | j < |before|
        ensures TicksBefore(c, before, j) == TicksBefore(c, times, j)
      {
        PrefixTicks(c, times, j);
      }
    }
  }

  /** A counter that would not be due even if it counted all along is not due before. */
  lemma NotDueSooner(c: Counter, t: nat, u: nat)
    requires Steady(c, t, u) && !Deadlines.CounterDue(c, u)
    ensures !Deadlines.CounterDue(c, t)
  {
    var ticks := SyncFrom(c, Sync(c, t, true), t, u);
  }

  /** One more sync of a counter that lags behind by ticks it did not count, at either level. */
  lemma LaggingSync(c: Counter, x: Counter, t: nat, u: nat, counting: bool)
    requires Steady(c, t, u)
    requires var d := Sync(c, t, true); x == d.(count := x.count) && c.count <= x.count <= d.count
    ensures var ticks := Elapsed(c, u) - Elapsed(c, t);
            && ticks >= 0 && x.count + ticks < TWO_32
            && Sync(x, u, counting)
               == Sync(c, u, true).(count := if counting then x.count + ticks else x.count)
            && Sync(c, u, true).count == CountAt(c, u)
  {
    var ticks := SyncFrom(c, x, t, u);
    SyncCounts(c, u);
  }

  lemma FirstSync(c: Counter, u: nat, counting: bool)
    requires Steady(c, u, u)
    ensures Sync(c, u, true).count == CountAt(c, u) && CountAt(c, u) >= c.count
    ensures Sync(c, u, counting) == Sync(c, u, true).(count := if counting then CountAt(c, u) else c.count)
  {
    SyncCounts(c, u);
  }

  /** Neither threshold is reached below a count that reaches neither. */
  lemma IdleBelow(x: Counter, n: nat)
    requires x.count <= n && n <= 0xFFFF && n < x.target
    ensures Tested(x) == x && TestIrqs(x) == []
  {
    IdleTests(x);
  }

  /** With no test acting, a counter that follows the level has counted the ticks before edges that
      brought its level. */
  lemma {:induction false} LevelQuiet(c: Counter, from: nat, times: seq<nat>, h: HMode, v: VMode)
    requires !External(c) && times != [] && InOrder(c, from, times)
    requires forall j :: 0 <= j < |times| ==> !Deadlines.CounterDue(c, times[j])
    ensures var x, d := LevelUpdates(c, times, h, v), Sync(c, times[|times| - 1], true);
            && x == d.(count := x.count) && c.count <= x.count <= d.count
            && x.count == c.count + TicksAt(c, times, h, v, true)
  {
    var before, last := times[..|times| - 1], times[|times| - 1];
    var level := CanCount(c.mode, LevelAfter(h, |times|), v);
    assert !Deadlines.CounterDue(c, last);
    TicksAddUp(c, from, times, h, v);
    SyncCounts(c, last);
    if before == [] {
      assert LevelUpdates(c, before, h, v) == c && Steady(c, from, last);
      FirstSync(c, last, level);
      IdleBelow(Sync(c, last, level), CountAt(c, last));
    } else {
      PrefixInOrder(c, from, times);
      assert forall j :: 0 <= j < |before| ==> before[j] == times[j];
      LevelQuiet(c, from, before, h, v);
      var x := LevelUpdates(c, before, h, v);
      LaggingSync(c, x, times[|times| - 2], last, level);
      IdleBelow(Sync(x, last, level), CountAt(c, last));
    }
  }

  /** The next update of a counter that follows the level, on its own and after updates at the edges:
      with no test acting, the same exactly when no tick elapses before an edge that brings a level
      other than the one at the update. */
  lemma LevelAtEndIff(c: Counter, from: nat, times: seq<nat>, t: nat, h: HMode, v: VMode, counting: bool)
    requires !External(c) && InOrder(c, from, times + [t]) && !Deadlines.CounterDue(c, t)
    ensures var x := LevelUpdates(c, times, h, v);
            && x.mode == c.mode
            && (UpdateCounter(x, t, counting) == UpdateCounter(c, t, counting) <==> NoTickAt(c, times, h, v, !counting))
            && (counting ==> TestIrqs(Sync(x, t, true)) == [] && TestIrqs(Sync(c, t, true)) == [])
  {
    var all := times + [t];
    assert all[..|all| - 1] == times && all[|all| - 1] == t && Steady(c, from, t);
    if times == [] {
      FirstSync(c, t, counting);
      IdleBelow(Sync(c, t, counting), CountAt(c, t));
    } else {
      var last := times[|times| - 1];
      assert all[|all| - 2] == last;
      PrefixInOrder(c, from, all);
      NoneDueSooner(c, from, times, t);
      LevelQuiet(c, from, times, h, v);
      LagAtEnd(c, LevelUpdates(c, times, h, v), last, t, counting);
      TicksAddUp(c, from, times, h, v);
      NoTickIff(c, from, times, h, v, !counting);
    }
  }

  lemma LagAtEnd(c: Counter, x: Counter, last: nat, t: nat, counting: bool)
    requires !External(c) && Steady(c, last, t) && !Deadlines.CounterDue(c, t)
    requires var d := Sync(c, last, true); x == d.(count := x.count) && c.count <= x.count <= d.count
    ensures x.mode == c.mode
    ensures UpdateCounter(x, t, counting) == UpdateCounter(c, t, counting)
       <==> x.count == if counting then CountAt(c, last) else c.count
    ensures counting ==> TestIrqs(Sync(x, t, true)) == [] && TestIrqs(Sync(c, t, true)) == []
  {
    SyncCounts(c, last);
    FirstSync(c, t, counting);
    IdleBelow(Sync(c, t, counting), CountAt(c, t));
    LaggingSync(c, x, last, t, counting);
    IdleBelow(Sync(x, t, counting), CountAt(c, t));
  }

  lemma NoneDueSooner(c: Counter, from: nat, times: seq<nat>, t: nat)
    requires InOrder(c, from, times + [t]) && !Deadlines.CounterDue(c, t)
    ensures InOrder(c, from, times) && forall j :: 0 <= j < |times| ==> !Deadlines.CounterDue(c, times[j])
  {
    var all := times + [t];
    InOrderBefore(c, from, all);
    assert all[..|all| - 1] == times;
    forall j | 0 <= j < |times|
      ensures !Deadlines.CounterDue(c, times[j])
    {
      assert all[j] == times[j] && all[j] <= all[|all| - 1] && Steady(c, from, all[j]) && Steady(c, from, t);
      NotDueSooner(c, times[j], t);
    }
  }
}
