/** Lazy counting in pcsx2/Counters.cpp: how rcntSyncCounter, the register reads and rcntUpdate
    turn elapsed cycles into ticks, over any run of calls. */
module Ticks {

  import opened Words
  import opened EeTimers
  import Arithmetic
  import Deadlines

  ghost predicate IsPowerOfTwo(n: nat)
  {
    n == 1 || (n > 1 && n % 2 == 0 && IsPowerOfTwo(n / 2))
  }

  /** Masking with a power of two minus one rounds down to a multiple of it. */
  lemma {:induction false} MaskRoundsDown(x: nat, n: nat)
    requires n > 0 && IsPowerOfTwo(n)
    ensures AndNot(x, n - 1) == n * (x / n)
  {
    if n > 1 {
      var h := n / 2;
      MaskRoundsDown(x / 2, h);
      Arithmetic.HalfThenDiv(x, h);
      assert n == 2 * h && (n - 1) / 2 == h - 1 && (n - 1) % 2 == 1;
      var q := x / 2 / h;
      assert x / n == q && AndNot(x / 2, h - 1) == h * q;
      Arithmetic.DoubleProduct(h, q);
    }
  }

  /** An internally clocked counter whose start cycle lies on a tick. */
  ghost predicate Aligned(c: Counter) {
    && c.mode.clockSource != EXTERNAL_CLOCK
    && 2 <= c.rate <= 512 && IsPowerOfTwo(c.rate)
    && c.startCycle % c.rate == 0
  }

  /** The three rates rcntWmode can select for an internal clock are powers of two. */
  lemma InternalRates()
    ensures IsPowerOfTwo(2) && IsPowerOfTwo(32) && IsPowerOfTwo(512)
  {
    assert IsPowerOfTwo(2) && IsPowerOfTwo(4) && IsPowerOfTwo(8) && IsPowerOfTwo(16) && IsPowerOfTwo(32);
    assert IsPowerOfTwo(64) && IsPowerOfTwo(128) && IsPowerOfTwo(256) && IsPowerOfTwo(512);
  }

  predicate Recent(c: Counter, t: nat) {
    c.startCycle <= t < c.startCycle + TWO_31
  }

  /** Ticks that have elapsed by `t` and are not yet counted. */
  function Elapsed(c: Counter, t: nat): int {
    (t - c.startCycle) / c.rate
  }

  lemma WholeTicks(start: nat, rate: nat, t: nat)
    requires rate >= 2 && start % rate == 0 && start <= t < start + TWO_31
    ensures var ticks := (t - start) / rate;
            && 0 <= ticks <= (t - start) / 2
            && 0 <= ticks * rate <= t - start < ticks * rate + rate
            && (start + ticks * rate) % rate == 0
            && rate * ((start + ticks * rate) / rate) == start + ticks * rate
  {
    var x := t - start;
    Arithmetic.DivShrinks(x, rate);
    Arithmetic.LastMultiple(x, rate);
    OnTick(start, rate, start / rate, x / rate, x / rate * rate);
  }

  lemma OnTick(start: nat, rate: nat, q: int, ticks: int, moved: int)
    requires rate > 0 && start == rate * q && moved == ticks * rate
    ensures (start + moved) % rate == 0 && rate * ((start + moved) / rate) == start + moved
  {
    Arithmetic.MulDistributes(q, ticks, rate);
    Arithmetic.Unique(start + moved, rate, q + ticks, 0);
  }

  /** A sync moves whole ticks from the elapsed time into the count and loses nothing. */
  lemma SyncMovesWholeTicks(c: Counter, t: nat, counting: bool)
    requires Aligned(c) && Recent(c, t) && c.count < TWO_31
    ensures var d := Sync(c, t, counting);
            && d == c.(startCycle := d.startCycle, count := d.count)
            && d.startCycle == c.startCycle + Elapsed(c, t) * c.rate
            && d.count == (if counting then c.count + Elapsed(c, t) else c.count)
            && c.startCycle <= d.startCycle <= t < d.startCycle + c.rate
            && d.count <= c.count + (t - c.startCycle) / 2
            && Aligned(d)
  {
    WholeTicks(c.startCycle, c.rate, t);
    var ticks := Elapsed(c, t);
    MaskRoundsDown(c.startCycle + ticks * c.rate, c.rate);
    SyncBy(c, t, counting, ticks, ticks * c.rate);
  }

  lemma SyncBy(c: Counter, t: nat, counting: bool, ticks: nat, advance: nat)
    requires c.mode.clockSource != EXTERNAL_CLOCK && Recent(c, t) && c.count < TWO_31
    requires (t - c.startCycle) / c.rate == ticks < TWO_31 && ticks * c.rate == advance < TWO_32
    requires AndNot(c.startCycle + advance, c.rate - 1) == c.startCycle + advance
    ensures Sync(c, t, counting)
            == c.(startCycle := c.startCycle + advance, count := if counting then c.count + ticks else c.count)
  {
    assert U64(t - c.startCycle) == t - c.startCycle;
    assert U32(ticks) == ticks;
    assert U32(advance) == advance;
  }

  // ----- syncing early changes nothing

  lemma TwoStepTicks(start: nat, rate: nat, t: nat, u: nat)
    requires rate >= 2 && start % rate == 0 && start <= t <= u < start + TWO_31
    ensures var e := (t - start) / rate;
            var mid := start + e * rate;
            var f := (u - mid) / rate;
            && mid <= t && e <= TWO_31 / 2
            && (u - start) / rate == e + f
            && mid + f * rate == start + (e + f) * rate
  {
    var e := (t - start) / rate;
    var moved := e * rate;
    assert 0 <= moved <= t - start && e <= TWO_31 / 2 by {
      WholeTicks(start, rate, t);
    }
    var f := (u - (start + moved)) / rate;
    assert (u - start) / rate == e + f by {
      Arithmetic.DivInTwoSteps(t - start, u - start, rate);
      assert u - start - moved == u - (start + moved);
    }
    Arithmetic.MulDistributes(e, f, rate);
  }

  /** Syncing on the way gives the same count and start cycle as syncing once at the end. */
  lemma SyncTwice(c: Counter, d: Counter, t: nat, u: nat, counting: bool)
    requires d == Sync(c, t, counting)
    requires Aligned(c) && t <= u && Recent(c, t) && Recent(c, u) && c.count < TWO_31 / 2
    ensures Sync(d, u, counting) == Sync(c, u, counting)
  {
    SyncMovesWholeTicks(c, t, counting);
    assert d.count < TWO_31 && Recent(d, u);
    SyncOnward(c, d, t, u, counting);
  }

  lemma SyncOnward(c: Counter, d: Counter, t: nat, u: nat, counting: bool)
    requires Aligned(c) && Aligned(d) && c.startCycle <= t <= u && Recent(c, u) && Recent(d, u)
    requires d == c.(startCycle := d.startCycle, count := d.count) && c.count < TWO_31 && d.count < TWO_31
    requires d.startCycle == c.startCycle + Elapsed(c, t) * c.rate
    requires d.count == (if counting then c.count + Elapsed(c, t) else c.count)
    ensures Sync(d, u, counting) == Sync(c, u, counting)
  {
    var e, f := Elapsed(c, t), Elapsed(d, u);
    assert Elapsed(c, u) == e + f && d.startCycle + f * c.rate == c.startCycle + (e + f) * c.rate by {
      TwoStepTicks(c.startCycle, c.rate, t, u);
    }
    var x, y := Sync(c, u, counting), Sync(d, u, counting);
    assert x.startCycle == c.startCycle + (e + f) * c.rate && x == c.(startCycle := x.startCycle, count := x.count)
           && x.count == (if counting then c.count + (e + f) else c.count) by {
      SyncMovesWholeTicks(c, u, counting);
    }
    assert y.startCycle == d.startCycle + f * c.rate && y == d.(startCycle := y.startCycle, count := y.count)
           && y.count == (if counting then d.count + f else d.count) by {
      SyncMovesWholeTicks(d, u, counting);
    }
  }

  function SyncAll(c: Counter, times: seq<nat>, counting: bool): Counter
    decreases |times|
  {
    if times == [] then c else SyncAll(Sync(c, times[0], counting), times[1..], counting)
  }

  predicate Ascending(times: seq<nat>) {
    forall i, j :: 0 <= i < j < |times| ==> times[i] <= times[j]
  }

  /** Any number of intermediate syncs, for instance register reads, is as good as the last. */
  lemma {:induction false} SyncingEarlyChangesNothing(c: Counter, times: seq<nat>, counting: bool)
    requires times != [] && Ascending(times)
    requires Aligned(c) && c.count < TWO_31 / 2
    requires c.startCycle <= times[0] && times[|times| - 1] < c.startCycle + TWO_31
    ensures SyncAll(c, times, counting) == Sync(c, times[|times| - 1], counting)
    decreases |times|
  {
    var rest := times[1..];
    if rest != [] {
      var d := Sync(c, times[0], counting);
      assert times[1] == rest[0];
      SyncTwice(c, d, times[0], times[1], counting);
      assert SyncAll(d, rest, counting) == SyncAll(Sync(d, rest[0], counting), rest[1..], counting);
      assert SyncAll(c, rest, counting) == SyncAll(Sync(c, rest[0], counting), rest[1..], counting);
      SyncingEarlyChangesNothing(c, rest, counting);
    }
  }

  // ----- conservation of ticks

  datatype Event = Read(t: nat) | Update(t: nat)

  /** A counter with what its tests have taken out of it: overflow wraps, and the sum of the
      targets at which it returned to zero. */
  datatype Ledger = Ledger(c: Counter, wraps: nat, returned: nat)

  function Post(l: Ledger, e: Event): Ledger {
    var c := Sync(l.c, e.t, true);
    if e.Read? then l.(c := c)
    else
      var wrapped := TestOverflow(c);
      Ledger(Tested(c),
             l.wraps + (if c.count > 0xFFFF then 1 else 0),
             l.returned + (if wrapped.count >= wrapped.target && c.mode.zeroReturn then wrapped.target else 0))
  }

  function Run(l: Ledger, events: seq<Event>): Ledger {
    if events == [] then l else Post(Run(l, events[..|events| - 1]), events[|events| - 1])
  }

  /** Calls come in time order, none of them 2^31 cycles after the previous one. */
  ghost predicate Timely(l: Ledger, events: seq<Event>) {
    events == [] ||
    (var prior := Run(l, events[..|events| - 1]);
     && Timely(l, events[..|events| - 1])
     && Recent(prior.c, events[|events| - 1].t) && prior.c.count < TWO_31)
  }

  /** The tick number of the start cycle. */
  function Position(c: Counter): nat {
    c.startCycle / c.rate
  }

  lemma SyncAdvancesPosition(c: Counter, t: nat)
    requires Aligned(c) && Recent(c, t) && c.count < TWO_31
    ensures var d := Sync(c, t, true);
            Aligned(d) && d.rate == c.rate && Position(d) - Position(c) == d.count - c.count
  {
    SyncMovesWholeTicks(c, t, true);
    PositionMoves(c.startCycle, c.rate, Elapsed(c, t), Sync(c, t, true).startCycle);
  }

  lemma PositionMoves(start: nat, rate: nat, ticks: int, end: nat)
    requires rate > 0 && end == start + ticks * rate
    ensures end / rate == start / rate + ticks
  {
    Arithmetic.AddMultiple(start, rate, ticks);
  }

  /** What the two tests take out of a counter. */
  lemma TestsBalance(c: Counter)
    ensures var wrapped := TestOverflow(c);
            Tested(c).count
            == c.count - (if c.count > 0xFFFF then TWO_16 else 0)
               - (if wrapped.count >= wrapped.target && c.mode.zeroReturn then wrapped.target else 0)
    ensures Tested(c).startCycle == c.startCycle && Tested(c).rate == c.rate
    ensures Tested(c).mode.clockSource == c.mode.clockSource
  {
  }

  lemma PostConserves(l: Ledger, e: Event)
    requires Aligned(l.c) && Recent(l.c, e.t) && l.c.count < TWO_31
    ensures var m := Post(l, e);
            && Aligned(m.c) && m.c.rate == l.c.rate
            && Position(m.c) - Position(l.c)
               == m.c.count - l.c.count + TWO_16 * (m.wraps - l.wraps) + (m.returned - l.returned)
  {
    SyncAdvancesPosition(l.c, e.t);
    var c := Sync(l.c, e.t, true);
    PostAfterSync(l, e, c);
  }

  lemma PostAfterSync(l: Ledger, e: Event, c: Counter)
    requires c == Sync(l.c, e.t, true) && Aligned(c)
    ensures var m := Post(l, e);
            && Aligned(m.c) && m.c.rate == c.rate && Position(m.c) == Position(c)
            && c.count == m.c.count + TWO_16 * (m.wraps - l.wraps) + (m.returned - l.returned)
  {
    TestsBalance(c);
  }

  /** Over any run of register reads and updates, the ticks that elapsed are the change in the
      count plus 0x10000 for every overflow wrap plus the target for every return to zero. */
  lemma {:induction false} TicksAreConserved(l: Ledger, events: seq<Event>)
    requires Aligned(l.c) && Timely(l, events)
    ensures var m := Run(l, events);
            && Aligned(m.c) && m.c.rate == l.c.rate
            && Position(m.c) - Position(l.c)
               == m.c.count - l.c.count + TWO_16 * (m.wraps - l.wraps) + (m.returned - l.returned)
  {
    if events != [] {
      TicksAreConserved(l, events[..|events| - 1]);
      PostConserves(Run(l, events[..|events| - 1]), events[|events| - 1]);
    }
  }

  // ----- by the deadline

  /** Synced at `now` and not past its target. */
  ghost predicate UpToDate(c: Counter, now: nat) {
    && Aligned(c)
    && c.startCycle <= now < c.startCycle + c.rate
    && !PastTarget(c)
  }

  /** How far a counter may advance before a threshold is reached; negative if it is past one. */
  function Headroom(c: Counter): int {
    if HasFutureTarget(c.target) then TWO_16 - c.count else Min(TWO_16 - c.count, c.target - c.count)
  }

  lemma CycleAfterIs(c: Counter, ticks: nat, now: nat)
    requires c.startCycle <= now
    ensures Deadlines.CycleAfter(c, ticks, now) == Max(now, c.startCycle + ticks * c.rate)
  {
    var product := ticks * c.rate;
    assert Deadlines.CycleAfter(c, ticks, now) == now + Max(0, product - (now - c.startCycle));
  }

  lemma DeadlineFromHeadroom(c: Counter, now: nat)
    requires !PastTarget(c) && c.startCycle <= now
    ensures Deadlines.CounterDeadline(c, now) == Max(now, c.startCycle + Headroom(c) * c.rate)
  {
    var a, b := TWO_16 - c.count, c.target - c.count;
    CycleAfterIs(c, a, now);
    CycleAfterIs(c, b, now);
    if a <= b {
      Arithmetic.MulMonotone(a, b, c.rate);
    } else {
      Arithmetic.MulMonotone(b, a, c.rate);
    }
  }

  lemma PunctualElapsed(c: Counter, now: nat, t: nat)
    requires UpToDate(c, now) && now <= t <= Deadlines.CounterDeadline(c, now)
    ensures 0 <= Elapsed(c, t) <= Headroom(c) && Recent(c, t)
  {
    var limit := Headroom(c);
    var room := limit * c.rate;
    var deadline := Deadlines.CounterDeadline(c, now);
    assert deadline == Max(now, c.startCycle + room) by {
      DeadlineFromHeadroom(c, now);
    }
    Within(c.startCycle, c.rate, now, t, limit, room, deadline, Elapsed(c, t));
  }

  /** The same in numbers alone. */
  lemma Within(start: nat, rate: nat, now: nat, t: nat, limit: nat, room: nat, deadline: nat, elapsed: int)
    requires 2 <= rate <= 512 && limit <= TWO_16 && room == limit * rate && elapsed == (t - start) / rate
    requires start <= now < start + rate && now <= t <= deadline && deadline == Max(now, start + room)
    ensures 0 <= elapsed <= limit && t < start + TWO_31
  {
    FewTicks(t - start, rate, limit, room);
  }

  lemma FewTicks(x: nat, rate: nat, limit: nat, room: nat)
    requires 2 <= rate <= 512 && limit <= TWO_16 && room == limit * rate && (x < rate || x <= room)
    ensures 0 <= x / rate <= limit && x < TWO_31
  {
    Arithmetic.MulBound(limit, rate, TWO_16, 512);
    if x / rate >= limit + 1 {
      Arithmetic.DivAtLeast(x, rate, limit + 1);
      Arithmetic.MulDistributes(limit, 1, rate);
    }
  }

  /** The tests do not look at the start cycle. */
  lemma TestedElsewhere(c: Counter, start: nat)
    ensures Tested(c.(startCycle := start)) == Tested(c).(startCycle := start)
  {
  }
}
