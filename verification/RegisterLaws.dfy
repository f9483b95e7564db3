/** What the guest gets from the timer registers (pcsx2/Counters.cpp:1260-1335): the bits of the mode register
    as pcsx2/Counters.h:8-51 lays them out, counts and targets read back after a write, and how many ticks a
    freshly written target is away. */
module RegisterLaws {

  import opened Words
  import opened EeTimers
  import opened Ticks
  import opened TimerRegisters
  import Arithmetic

  // ----- the mode register

  function Bit(b: bool): nat {
    if b then 1 else 0
  }

  predicate IsSet(v: nat) {
    v % 2 == 1
  }

  /** The ten bits that a write sets. */
  function ModeBits(m: Mode): nat {
    m.clockSource + 4 * (Bit(m.enableGate) + 2 * (Bit(m.vblankGate) + 2 * (m.gateMode
    + 4 * (Bit(m.zeroReturn) + 2 * (Bit(m.isCounting) + 2 * (Bit(m.targetInterrupt) + 2 * Bit(m.overflowInterrupt)))))))
  }

  /** The mode register as the guest reads it. */
  function ModeValue(m: Mode): nat {
    ModeBits(m) + 0x400 * (Bit(m.targetReached) + 2 * Bit(m.overflowReached))
  }

  /** And the mode that a value stands for. */
  function ModeOf(v: nat): Mode {
    Mode(v % 4, IsSet(v / 4), IsSet(v / 8), v / 16 % 4, IsSet(v / 64), IsSet(v / 128), IsSet(v / 256), IsSet(v / 512),
         IsSet(v / 0x400), IsSet(v / 0x800))
  }

  /** A write of `value`: ten mode bits, and a one in either of the next two clears that flag. */
  function WriteOf(value: u32): ModeWrite {
    ModeWrite(ModeOf(value), IsSet(value / 0x400), IsSet(value / 0x800))
  }

  lemma ModeBitsFit(m: Mode)
    ensures ModeBits(m) < 0x400 && ModeValue(m) < 0x1000
    ensures ModeValue(m) % 0x400 == ModeBits(m) && ModeValue(m) / 0x400 == Bit(m.targetReached) + 2 * Bit(m.overflowReached)
    ensures IsSet(ModeValue(m) / 0x400) == m.targetReached && IsSet(ModeValue(m) / 0x800) == m.overflowReached
  {
    var flags := Bit(m.targetReached) + 2 * Bit(m.overflowReached);
    Arithmetic.Unique(ModeValue(m), 0x400, flags, ModeBits(m));
    Arithmetic.Unique(ModeValue(m), 0x800, Bit(m.overflowReached), ModeBits(m) + 0x400 * Bit(m.targetReached));
  }

  /** The ten bits of the mode that a value stands for are its low ten bits. */
  lemma BitsOfValue(v: nat)
    ensures ModeBits(ModeOf(v)) == v % 0x400
  {
    assert v == ModeBits(ModeOf(v)) + 0x400 * (v / 0x400) by {
      LowFields(v);
      HighFields(v);
    }
    ModeBitsFit(ModeOf(v));
    Arithmetic.Unique(v, 0x400, v / 0x400, ModeBits(ModeOf(v)));
  }

  lemma LowFields(v: nat)
    ensures var m := ModeOf(v);
            v == m.clockSource + 4 * (Bit(m.enableGate) + 2 * (Bit(m.vblankGate) + 2 * (m.gateMode + 4 * (v / 64))))
  {
    Halves(v, 4, 2);
    Halves(v, 8, 2);
    Halves(v, 16, 4);
  }

  lemma HighFields(v: nat)
    ensures var m := ModeOf(v);
            v / 64 == Bit(m.zeroReturn) + 2 * (Bit(m.isCounting) + 2 * (Bit(m.targetInterrupt)
                      + 2 * (Bit(m.overflowInterrupt) + 2 * (v / 0x400))))
  {
    Halves(v, 64, 2);
    Halves(v, 128, 2);
    Halves(v, 256, 2);
    Halves(v, 512, 2);
  }

  /** One more field taken off. */
  lemma Halves(v: nat, n: nat, k: nat)
    requires n > 0 && k > 0
    ensures n * k > 0 && v / n == v / n % k + k * (v / (n * k))
  {
    var q, r := v / n / k, v / n % k;
    assert v == n * (k * q + r) + v % n;
    assert n * (k * q + r) == (n * k) * q + n * r;
    Arithmetic.MulMonotone(r, k - 1, n);
    assert n * r + v % n < n * k by {
      assert (k - 1) * n == n * k - n;
    }
    Arithmetic.MulGrows(n, k);
    Arithmetic.Unique(v, n * k, q, n * r + v % n);
  }

  /** The register holds what was written in its ten mode bits; each reached flag is kept unless a one was
      written to it, and never set by a write. */
  lemma ModeReadsBack(c: Counter, t: nat, counting: bool, value: u32, line: rate32)
    ensures var was, now := ModeValue(c.mode), ModeValue(WriteMode(c, t, counting, WriteOf(value), line).mode);
            && now < 0x1000 && now % 0x400 == value % 0x400
            && (IsSet(now / 0x400) <==> IsSet(was / 0x400) && !IsSet(value / 0x400))
            && (IsSet(now / 0x800) <==> IsSet(was / 0x800) && !IsSet(value / 0x800))
  {
    var m := WriteMode(c, t, counting, WriteOf(value), line).mode;
    BitsOfValue(value);
    assert ModeBits(m) == ModeBits(ModeOf(value));
    ModeBitsFit(m);
    ModeBitsFit(c.mode);
  }

  /** Two modes with the same register value are the same. */
  lemma ModeRoundTrip(m: Mode)
    ensures ModeOf(ModeValue(m)) == m
  {
    var v := ModeValue(m);
    ModeBitsFit(m);
    BitsOfValue(v);
    SameBits(m, ModeOf(v));
  }

  /** Equal numbers have equal digits. */
  lemma SameDigit(n: nat, a: nat, x: nat, b: nat, y: nat)
    requires a < n && b < n && a + n * x == b + n * y
    ensures a == b && x == y
  {
    Arithmetic.Unique(a + n * x, n, x, a);
    Arithmetic.Unique(a + n * x, n, y, b);
  }

  /** The fields from the return to zero on. */
  function HighBits(m: Mode): nat {
    Bit(m.zeroReturn) + 2 * (Bit(m.isCounting) + 2 * (Bit(m.targetInterrupt) + 2 * Bit(m.overflowInterrupt)))
  }

  lemma SameBits(m: Mode, n: Mode)
    requires ModeBits(m) == ModeBits(n) && m.targetReached == n.targetReached && m.overflowReached == n.overflowReached
    ensures m == n
  {
    var x3, y3 := m.gateMode + 4 * HighBits(m), n.gateMode + 4 * HighBits(n);
    var x2, y2 := Bit(m.vblankGate) + 2 * x3, Bit(n.vblankGate) + 2 * y3;
    var x1, y1 := Bit(m.enableGate) + 2 * x2, Bit(n.enableGate) + 2 * y2;
    SameDigit(4, m.clockSource, x1, n.clockSource, y1);
    SameDigit(2, Bit(m.enableGate), x2, Bit(n.enableGate), y2);
    SameDigit(2, Bit(m.vblankGate), x3, Bit(n.vblankGate), y3);
    SameDigit(4, m.gateMode, HighBits(m), n.gateMode, HighBits(n));
  }

  // ----- the count register

  /** What a read finds after the count was written at `t`: the ticks since then have been added, the grid of
      ticks being that of the clock, or none if the counter does not count cycles. */
  lemma CountReadsBack(s: Timer, t: nat, value: u32, u: nat)
    requires InRange(s, t) && s.c.count < TWO_31 && t <= u < t + TWO_31 - 512
    ensures var written := After(s, t, SetCount(value));
            After(written, u, ReadCount).c.count
            == value % TWO_16 + if !External(s.c) && IsCounting(s) then u / s.c.rate - t / s.c.rate else 0
  {
    var written := After(s, t, SetCount(value));
    if !External(s.c) {
      SyncLeaves(s.c, t, IsCounting(s));
      TicksBetween(written.c, t, u);
      SyncLeaves(written.c, u, IsCounting(s));
    }
  }

  /** A counter synced at `t` begins on the last tick; the ticks up to `u` are those of the clock. */
  lemma TicksBetween(c: Counter, t: nat, u: nat)
    requires Aligned(c) && c.startCycle <= t < c.startCycle + c.rate && t <= u < t + TWO_31 - 512
    ensures Elapsed(c, u) == u / c.rate - t / c.rate && Recent(c, u)
  {
    var q := c.startCycle / c.rate;
    assert c.startCycle == c.rate * q;
    Arithmetic.Unique(t, c.rate, q, t - c.startCycle);
    Arithmetic.DivInTwoSteps(t, u, c.rate);
    assert q * c.rate == c.rate * q;
  }

  // ----- the target register

  /** The counter after `n` ticks, tested at each. */
  function Ticked(c: Counter, n: nat): Counter {
    if n == 0 then c else var d := Ticked(c, n - 1); Tested(d.(count := U32(d.count + 1)))
  }

  /** The next tick reaches the target. */
  predicate HitsNext(c: Counter) {
    var w := TestOverflow(c.(count := U32(c.count + 1)));
    w.count >= w.target
  }

  /** How many ticks away a target is on a 16-bit counter; a target equal to the count is a whole turn away. */
  function TicksTo(count: nat, target: nat): nat {
    (target - count - 1) % TWO_16 + 1
  }

  /** The target is the nearest one: ahead of the count, or postponed until after the overflow. */
  predicate Ahead(c: Counter, target: nat) {
    c.count < TWO_16 && target < TWO_16 && c.target == if c.count < target then target else target + FUTURE_TARGET
  }

  lemma TicksToOf(count: nat, target: nat)
    requires count < TWO_16 && target < TWO_16
    ensures TicksTo(count, target) == if count < target then target - count else target - count + TWO_16
  {
  }

  /** Such a counter after `n` ticks that have not hit its target. */
  predicate Before(c: Counter, target: nat, n: nat, d: Counter) {
    if c.count + n < TWO_16 then d.count == c.count + n && d.target == c.target
    else d.count == c.count + n - TWO_16 && d.target == target
  }

  lemma {:induction false} TickedBefore(c: Counter, target: nat, n: nat)
    requires Ahead(c, target) && n < TicksTo(c.count, target)
    ensures Before(c, target, n, Ticked(c, n))
  {
    if n > 0 {
      TickedBefore(c, target, n - 1);
      NextBefore(c, target, n - 1, Ticked(c, n - 1));
    }
  }

  lemma NextBefore(c: Counter, target: nat, n: nat, d: Counter)
    requires Ahead(c, target) && n + 1 < TicksTo(c.count, target) && Before(c, target, n, d)
    ensures Before(c, target, n + 1, Tested(d.(count := U32(d.count + 1))))
  {
    TicksToOf(c.count, target);
    NextHits(c, target, n, d);
    assert U32(d.count + 1) == d.count + 1;
  }

  lemma NextHits(c: Counter, target: nat, n: nat, d: Counter)
    requires Ahead(c, target) && n < TicksTo(c.count, target) && Before(c, target, n, d)
    ensures HitsNext(d) <==> n + 1 == TicksTo(c.count, target)
    ensures d.count < TWO_16 && d.target % TWO_16 == target
  {
    TicksToOf(c.count, target);
    assert U32(d.count + 1) == d.count + 1;
  }

  /** The target is hit at the tick that it is away, and not before. */
  lemma HitsAfter(c: Counter, target: nat, n: nat)
    requires Ahead(c, target) && n < TicksTo(c.count, target)
    ensures HitsNext(Ticked(c, n)) <==> n + 1 == TicksTo(c.count, target)
  {
    TickedBefore(c, target, n);
    NextHits(c, target, n, Ticked(c, n));
  }

  /** After a count write the target is as many ticks away as the written count is behind it, a whole turn
      if they are equal: it neither fires at once nor is it lost. */
  lemma TargetAfterCountWrite(s: Timer, t: nat, value: u32, n: nat)
    requires n < TicksTo(value % TWO_16, s.c.target % TWO_16)
    ensures HitsNext(Ticked(After(s, t, SetCount(value)).c, n)) <==> n + 1 == TicksTo(value % TWO_16, s.c.target % TWO_16)
  {
    HitsAfter(After(s, t, SetCount(value)).c, s.c.target % TWO_16, n);
  }

  /** After a target write likewise, for the count that the counter has reached by then, unless that is
      past an overflow. */
  lemma TargetAfterTargetWrite(s: Timer, t: nat, value: u32, n: nat)
    requires Sync(s.c, t, IsCounting(s)).count < TWO_16
    requires n < TicksTo(Sync(s.c, t, IsCounting(s)).count, value % TWO_16)
    ensures HitsNext(Ticked(After(s, t, SetTarget(value)).c, n))
       <==> n + 1 == TicksTo(Sync(s.c, t, IsCounting(s)).count, value % TWO_16)
  {
    SyncIgnoresTarget(s.c, t, IsCounting(s), value % TWO_16);
    HitsAfter(After(s, t, SetTarget(value)).c, value % TWO_16, n);
  }
}
