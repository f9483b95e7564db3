/** The horizontal blank on the IOP (pcsx2/IopCounters.cpp:427-648): counters 1 and 3 counting scanlines, in
    closed form over any number of them, and what the gate modes do to counter 0. */
module IopBlanks {

  import opened Words
  import opened IopCounters
  import Arithmetic
  import T = Ticks

  /** A counter after `n` starts of the blank, and the interrupts it has raised. */
  function Ticked(c: Counter, n: nat, limit: nat): Fired {
    if n == 0 then Fired(c, []) else var f := Ticked(c, n - 1, limit); Tick(f.c, f.irqs, limit)
  }

  // ----- firings and positions come apart

  function FireAll(f: Fired, kinds: seq<bool>): Fired {
    if kinds == [] then f else FireOnce(FireAll(f, kinds[..|kinds| - 1]), kinds[|kinds| - 1])
  }

  datatype Position = Position(count: nat, target: nat)

  function At(f: Fired, p: Position): Fired {
    Fired(f.c.(count := p.count, target := p.target), f.irqs)
  }

  /** Where a counter goes: the overflow, then the target, and whether it fires there. */
  function PastOverflow(p: Position, limit: nat): Position {
    if p.count < limit then p else Position(p.count - limit, if limit > 0 then p.target % limit else p.target)
  }

  function PastTarget(p: Position, zeroReturn: bool): Position {
    if p.count < p.target then p
    else if zeroReturn then Position(p.count - p.target, p.target)
    else Position(p.count, if (p.target / FUTURE_TARGET) % 2 == 1 then p.target else p.target + FUTURE_TARGET)
  }

  function Advanced(p: Position): Position {
    p.(count := p.count + 1)
  }

  function NextPosition(p: Position, zeroReturn: bool, limit: nat): Position {
    PastTarget(PastOverflow(Advanced(p), limit), zeroReturn)
  }

  function OverflowFirings(p: Position, limit: nat): seq<bool> {
    if p.count < limit then [] else [true]
  }

  function TargetFirings(p: Position): seq<bool> {
    if p.count < p.target then [] else [false]
  }

  function NextFirings(p: Position, limit: nat): seq<bool> {
    OverflowFirings(Advanced(p), limit) + TargetFirings(PastOverflow(Advanced(p), limit))
  }

  /** Both over `n` ticks. */
  function Positions(p: Position, zeroReturn: bool, limit: nat, n: nat): Position {
    if n == 0 then p else NextPosition(Positions(p, zeroReturn, limit, n - 1), zeroReturn, limit)
  }

  function Firings(p: Position, zeroReturn: bool, limit: nat, n: nat): seq<bool> {
    if n == 0 then []
    else Firings(p, zeroReturn, limit, n - 1) + NextFirings(Positions(p, zeroReturn, limit, n - 1), limit)
  }

  lemma FireOnceAnywhere(f: Fired, p: Position, overflow: bool)
    ensures FireOnce(At(f, p), overflow) == At(FireOnce(f, overflow), p)
    ensures FireOnce(f, overflow).c.mode.zeroReturn == f.c.mode.zeroReturn
  {
  }

  lemma OverflowComesApart(f: Fired, p: Position, limit: nat)
    ensures TestOverflow(At(f, p), limit) == At(FireAll(f, OverflowFirings(p, limit)), PastOverflow(p, limit))
  {
    FireOnceAnywhere(f, p, true);
    assert FireAll(f, []) == f && [true][..0] == [];
  }

  lemma TargetComesApart(f: Fired, p: Position)
    ensures TestTarget(At(f, p)) == At(FireAll(f, TargetFirings(p)), PastTarget(p, f.c.mode.zeroReturn))
  {
    FireOnceAnywhere(f, p, false);
    assert FireAll(f, []) == f && [false][..0] == [];
  }

  lemma {:induction false} FireAllOf(f: Fired, a: seq<bool>, b: seq<bool>)
    ensures FireAll(f, a + b) == FireAll(FireAll(f, a), b)
    ensures FireAll(f, b).c.mode.zeroReturn == f.c.mode.zeroReturn
    decreases |b|
  {
    if b == [] {
      assert a + b == a;
    } else {
      var rest, last := b[..|b| - 1], b[|b| - 1];
      FireAllOf(f, a, rest);
      assert (a + b)[..|a + b| - 1] == a + rest;
      FireOnceAnywhere(FireAll(f, rest), Position(0, 0), last);
    }
  }

  /** So a run of ticks is its firings, and the position it has come to. */
  lemma {:induction false} TicksComeApart(c: Counter, n: nat, limit: nat)
    ensures var p := Position(c.count, c.target);
            Ticked(c, n, limit)
            == At(FireAll(Fired(c, []), Firings(p, c.mode.zeroReturn, limit, n)), Positions(p, c.mode.zeroReturn, limit, n))
  {
    if n > 0 {
      TicksComeApart(c, n - 1, limit);
      var p := Position(c.count, c.target);
      NextComesApart(Fired(c, []), Firings(p, c.mode.zeroReturn, limit, n - 1),
                     Positions(p, c.mode.zeroReturn, limit, n - 1), limit, Ticked(c, n - 1, limit));
    }
  }

  lemma NextComesApart(f: Fired, before: seq<bool>, at: Position, limit: nat, g: Fired)
    requires g == At(FireAll(f, before), at)
    ensures Tick(g.c, g.irqs, limit)
         == At(FireAll(f, before + NextFirings(at, limit)), NextPosition(at, f.c.mode.zeroReturn, limit))
  {
    FireAllOf(f, [], before);
    FireAllOf(f, before, NextFirings(at, limit));
    TickComesApart(FireAll(f, before), at, limit, g);
  }

  lemma TickComesApart(f: Fired, p: Position, limit: nat, g: Fired)
    requires g == At(f, p)
    ensures Tick(g.c, g.irqs, limit) == At(FireAll(f, NextFirings(p, limit)), NextPosition(p, f.c.mode.zeroReturn, limit))
  {
    var a, first := Advanced(p), OverflowFirings(Advanced(p), limit);
    var b, over := PastOverflow(a, limit), FireAll(f, first);
    FireAllOf(f, [], first);
    FireAllOf(f, first, TargetFirings(b));
    TickTests(f, p, limit, g);
    assert Tests(At(f, a), limit) == TestTarget(At(over, b)) by {
      OverflowComesApart(f, a, limit);
    }
    TargetComesApart(over, b);
  }

  lemma TickTests(f: Fired, p: Position, limit: nat, g: Fired)
    requires g == At(f, p)
    ensures Tick(g.c, g.irqs, limit) == Tests(At(f, Advanced(p)), limit)
  {
    assert Fired(Counted(g.c), g.irqs) == At(f, Advanced(p));
  }

  // ----- what a number of firings raises

  function Unit(b: bool): nat {
    if b then 1 else 0
  }

  function Copies(x: nat, n: nat): seq<nat> {
    if n == 0 then [] else Copies(x, n - 1) + [x]
  }

  /** How many of the firings are of this kind. */
  function Number(kinds: seq<bool>, overflow: bool): nat {
    if kinds == [] then 0 else Number(kinds[..|kinds| - 1], overflow) + Unit(kinds[|kinds| - 1] == overflow)
  }

  /** The interrupts raised by firing `target` times at the target and `overflow` times at the overflow, as far as
      they are asked for; `first` says that the target came first.  In repeat mode with toggling every other firing
      interrupts; in repeat mode without it the first one; in one-shot mode the first of each kind, or with toggling
      the first of all, and only if the flag of its kind was not up. */
  function Interrupts(c: Counter, target: nat, overflow: nat, first: bool): nat {
    if c.mode.repeatInterrupt then
      if c.mode.toggleInterrupt then (target + overflow + Unit(c.mode.intrEnable)) / 2
      else Unit(c.mode.intrEnable && target + overflow > 0)
    else if !c.mode.intrEnable then 0
    else if !c.mode.toggleInterrupt then Unit(target > 0 && !c.mode.targetFlag) + Unit(overflow > 0 && !c.mode.overflowFlag)
    else if target > 0 && (first || overflow == 0) then Unit(!c.mode.targetFlag)
    else Unit(overflow > 0 && !c.mode.overflowFlag)
  }

  function StillEnabled(c: Counter, firings: nat): bool {
    if c.mode.repeatInterrupt && c.mode.toggleInterrupt then c.mode.intrEnable == (firings % 2 == 0)
    else c.mode.intrEnable && (firings == 0 || (!c.mode.repeatInterrupt && !c.mode.toggleInterrupt))
  }

  predicate Raises(c: Counter, enabled: bool, up: bool) {
    enabled && (c.mode.repeatInterrupt || !up)
  }

  /** What one more firing adds. */
  lemma NextAtTarget(c: Counter, t: nat, o: nat, first: bool, up: bool)
    requires up == (c.mode.targetFlag || t > 0) && (t == 0 && o > 0 ==> !first)
    ensures Interrupts(c, t + 1, o, first) == Interrupts(c, t, o, first) + Unit(Raises(c, StillEnabled(c, t + o), up))
  {
  }

  lemma NextAtOverflow(c: Counter, t: nat, o: nat, first: bool, up: bool)
    requires up == (c.mode.overflowFlag || o > 0) && (o == 0 && t > 0 ==> first)
    ensures Interrupts(c, t, o + 1, first) == Interrupts(c, t, o, first) + Unit(Raises(c, StillEnabled(c, t + o), up))
  {
  }

  /** The counter after firings of either kind, `heard` of them heard. */
  function After(c: Counter, target: bool, overflow: bool, heard: nat): Counter {
    c.(mode := c.mode.(targetFlag := c.mode.targetFlag || target, overflowFlag := c.mode.overflowFlag || overflow,
                       intrEnable := StillEnabled(c, heard)))
  }

  /** The counter with `t` and `o` firings behind it, of which it hears those it asks for. */
  function Fires(c: Counter, t: nat, o: nat, first: bool): Fired {
    var t', o' := if c.mode.targetIntr then t else 0, if c.mode.overflIntr then o else 0;
    Fired(After(c, t > 0, o > 0, t' + o'), Copies(c.interrupt, Interrupts(c, t', o', first)))
  }

  /** How the mode takes a firing. */
  lemma Fire(c: Counter, heard: nat, f: Fired, overflow: bool)
    requires f.c.mode.intrEnable == StillEnabled(c, heard)
    requires f.c.mode.repeatInterrupt == c.mode.repeatInterrupt && f.c.mode.toggleInterrupt == c.mode.toggleInterrupt
    ensures var up, g := (if overflow then f.c.mode.overflowFlag else f.c.mode.targetFlag), FireInterrupt(f.c, f.irqs, overflow);
            && g.c == f.c.(mode := f.c.mode.(intrEnable := StillEnabled(c, heard + 1)))
            && g.irqs == if Raises(c, f.c.mode.intrEnable, up) then f.irqs + [f.c.interrupt] else f.irqs
  {
  }

  lemma TargetHeard(c: Counter, f: Fired, t: nat, o: nat, overflow: bool, first: bool)
    requires c.mode.targetIntr && (t == 0 && o > 0 ==> !first)
    requires f == Fired(After(c, t > 0, overflow, t + o), Copies(c.interrupt, Interrupts(c, t, o, first)))
    ensures FireOnce(f, false)
         == Fired(After(c, true, overflow, t + o + 1), Copies(c.interrupt, Interrupts(c, t + 1, o, first)))
  {
    NextAtTarget(c, t, o, first, f.c.mode.targetFlag);
    Fire(c, t + o, f, false);
  }

  lemma OverflowHeard(c: Counter, f: Fired, t: nat, o: nat, target: bool, first: bool)
    requires c.mode.overflIntr && (o == 0 && t > 0 ==> first)
    requires f == Fired(After(c, target, o > 0, t + o), Copies(c.interrupt, Interrupts(c, t, o, first)))
    ensures FireOnce(f, true)
         == Fired(After(c, target, true, t + o + 1), Copies(c.interrupt, Interrupts(c, t, o + 1, first)))
  {
    NextAtOverflow(c, t, o, first, f.c.mode.overflowFlag);
    Fire(c, t + o, f, true);
  }

  lemma FiresAtTarget(c: Counter, f: Fired, t: nat, o: nat, first: bool)
    requires f == Fires(c, t, o, first) && (t == 0 ==> (first <==> o == 0))
    ensures FireOnce(f, false) == Fires(c, t + 1, o, first)
  {
    if c.mode.targetIntr {
      TargetHeard(c, f, t, if c.mode.overflIntr then o else 0, o > 0, first);
    }
  }

  lemma FiresAtOverflow(c: Counter, f: Fired, t: nat, o: nat, first: bool)
    requires f == Fires(c, t, o, first) && (o == 0 ==> (first <==> t > 0))
    ensures FireOnce(f, true) == Fires(c, t, o + 1, first)
  {
    if c.mode.overflIntr {
      OverflowHeard(c, f, if c.mode.targetIntr then t else 0, o, t > 0, first);
    }
  }

  lemma FiresNext(c: Counter, f: Fired, rest: seq<bool>, last: bool, first: bool, t: nat, o: nat)
    requires f == Fires(c, t, o, first) && t == Number(rest, false) && o == Number(rest, true)
    requires if rest == [] then first == !last else first == !rest[0]
    ensures FireOnce(f, last) == Fires(c, t + Unit(!last), o + Unit(last), first)
  {
    FirstKind(rest);
    if last {
      FiresAtOverflow(c, f, t, o, first);
    } else {
      FiresAtTarget(c, f, t, o, first);
    }
  }

  /** Only how many of each kind there were matters, and which came first. */
  lemma {:induction false} FiringsRaise(c: Counter, kinds: seq<bool>, first: bool, t: nat, o: nat)
    requires (kinds != [] ==> first == !kinds[0]) && t == Number(kinds, false) && o == Number(kinds, true)
    ensures FireAll(Fired(c, []), kinds) == Fires(c, t, o, first)
  {
    if kinds != [] {
      var rest, last := kinds[..|kinds| - 1], kinds[|kinds| - 1];
      FiringsRaise(c, rest, first, Number(rest, false), Number(rest, true));
      FiresNext(c, FireAll(Fired(c, []), rest), rest, last, first, Number(rest, false), Number(rest, true));
    }
  }

  lemma {:induction false} FirstKind(kinds: seq<bool>)
    ensures Number(kinds, false) + Number(kinds, true) == |kinds|
    ensures kinds != [] ==> Number(kinds, kinds[0]) > 0
  {
    if kinds != [] {
      FirstKind(kinds[..|kinds| - 1]);
    }
  }

  lemma {:induction false} NumberOf(a: seq<bool>, b: seq<bool>, overflow: bool)
    ensures Number(a + b, overflow) == Number(a, overflow) + Number(b, overflow)
    decreases |b|
  {
    if b == [] {
      assert a + b == a;
    } else {
      NumberOf(a, b[..|b| - 1], overflow);
      assert (a + b)[..|a + b| - 1] == a + b[..|b| - 1];
    }
  }

  lemma NumberOfFew()
    ensures Number([], true) == 0 && Number([], false) == 0
    ensures Number([true], true) == 1 && Number([true], false) == 0
    ensures Number([false], true) == 0 && Number([false], false) == 1
    ensures Number([true, false], true) == 1 && Number([true, false], false) == 1
  {
    assert [true][..0] == [] && [false][..0] == [] && [true, false][..1] == [true];
  }

  lemma OneFurther(m: nat, n: nat)
    requires n > 0
    ensures if m % n + 1 == n then (m + 1) / n == m / n + 1 && (m + 1) % n == 0
            else (m + 1) / n == m / n && (m + 1) % n == m % n + 1
  {
    if m % n + 1 == n {
      assert n * (m / n + 1) == n * (m / n) + n;
      Arithmetic.Unique(m + 1, n, m / n + 1, 0);
    } else {
      Arithmetic.Unique(m + 1, n, m / n, m % n + 1);
    }
  }

  // ----- a counter that returns to zero

  /** The firings `kinds` number `t` at the target and `o` at the overflow, the first at the target or not. */
  predicate Tallied(kinds: seq<bool>, t: nat, o: nat, first: bool) {
    Number(kinds, false) == t && Number(kinds, true) == o && (kinds != [] ==> kinds[0] == !first)
  }

  lemma TalliedNext(kinds: seq<bool>, t: nat, o: nat, first: bool, next: seq<bool>)
    requires Tallied(kinds, t, o, first) && next in [[], [true], [false], [true, false]]
    requires kinds == [] && next != [] ==> next[0] == !first
    ensures Tallied(kinds + next, t + Unit(next in [[false], [true, false]]), o + Unit(next in [[true], [true, false]]), first)
  {
    NumberOf(kinds, next, true);
    NumberOf(kinds, next, false);
    NumberOfFew();
  }

  lemma {:induction false} ReturningPositions(count: nat, target: nat, limit: nat, n: nat)
    requires count < target < limit
    ensures Positions(Position(count, target), true, limit, n) == Position((count + n) % target, target)
    ensures Tallied(Firings(Position(count, target), true, limit, n), (count + n) / target, 0, true)
  {
    if n == 0 {
      Arithmetic.Unique(count, target, 0, count);
    } else {
      ReturningPositions(count, target, limit, n - 1);
      var p, m := Position(count, target), count + n - 1;
      OneFurther(m, target);
      var at := Position(m % target, target);
      assert NextFirings(at, limit) == if m % target + 1 == target then [false] else [];
      TalliedNext(Firings(p, true, limit, n - 1), m / target, 0, true, NextFirings(at, limit));
    }
  }

  /** A counter that returns to zero at its target, after any number of scanlines: it counts modulo the target and
      fires each time it gets there. */
  lemma ReturningCounter(c: Counter, n: nat, limit: nat)
    requires c.mode.zeroReturn && c.count < c.target < limit
    ensures Ticked(c, n, limit)
         == At(Fires(c, (c.count + n) / c.target, 0, true), Position((c.count + n) % c.target, c.target))
  {
    var p := Position(c.count, c.target);
    TicksComeApart(c, n, limit);
    ReturningPositions(c.count, c.target, limit, n);
    FiringsRaise(c, Firings(p, true, limit, n), true, (c.count + n) / c.target, 0);
  }

  // ----- a counter that runs through

  predicate IsLimit(limit: nat) {
    limit == TWO_16 || limit == TWO_32
  }

  /** A target the count has reached is put off until after the overflow. */
  function PutOff(count: nat, low: nat): nat {
    if count < low then low else low + FUTURE_TARGET
  }

  lemma PutOffParts(count: nat, low: nat, limit: nat)
    requires IsLimit(limit) && count < limit && low < limit
    ensures PutOff(count, low) % limit == low
    ensures (low / FUTURE_TARGET) % 2 == 0 && (PutOff(count, low) / FUTURE_TARGET) % 2 == if count < low then 0 else 1
  {
    Arithmetic.Unique(low, limit, 0, low);
    if limit == TWO_16 {
      Arithmetic.Unique(low + FUTURE_TARGET, limit, FUTURE_TARGET / TWO_16, low);
    } else {
      Arithmetic.Unique(low + FUTURE_TARGET, limit, FUTURE_TARGET / TWO_32, low);
    }
    Arithmetic.Unique(low, FUTURE_TARGET, 0, low);
    Arithmetic.Unique(low + FUTURE_TARGET, FUTURE_TARGET, 1, low);
  }

  /** How often a counter that started at `count` has come past `low`, at `r` after `q` turns. */
  function Passed(count: nat, low: nat, q: nat, r: nat): int {
    q + Unit(r >= low) - Unit(count >= low)
  }

  /** Turns and position, tick by tick. */
  datatype Turn = Turn(q: nat, r: nat)

  function TurnAfter(count: nat, limit: nat, n: nat): Turn {
    if n == 0 then Turn(0, count)
    else
      var u := TurnAfter(count, limit, n - 1);
      if u.r + 1 == limit then Turn(u.q + 1, 0) else Turn(u.q, u.r + 1)
  }

  lemma {:induction false} TurnIs(count: nat, limit: nat, n: nat)
    requires count < limit
    ensures TurnAfter(count, limit, n) == Turn((count + n) / limit, (count + n) % limit)
  {
    if n == 0 {
      Arithmetic.Unique(count, limit, 0, count);
    } else {
      TurnIs(count, limit, n - 1);
      OneFurther(count + n - 1, limit);
    }
  }

  lemma {:induction false} WrappingPositions(count: nat, low: nat, limit: nat, n: nat)
    requires IsLimit(limit) && count < limit && low < limit
    ensures var p, u := Position(count, PutOff(count, low)), TurnAfter(count, limit, n);
            && u.r < limit && (u.q == 0 ==> u.r >= count) && Passed(count, low, u.q, u.r) >= 0
            && Positions(p, false, limit, n) == Position(u.r, PutOff(u.r, low))
            && Tallied(Firings(p, false, limit, n), Passed(count, low, u.q, u.r), u.q, count < low)
  {
    if n > 0 {
      WrappingPositions(count, low, limit, n - 1);
      var u := TurnAfter(count, limit, n - 1);
      WrapsOnce(count, low, limit, u.q, u.r, Firings(Position(count, PutOff(count, low)), false, limit, n - 1));
    }
  }

  lemma WrapsOnce(count: nat, low: nat, limit: nat, q: nat, r: nat, kinds: seq<bool>)
    requires IsLimit(limit) && count < limit && low < limit && r < limit && (q == 0 ==> r >= count)
    requires Passed(count, low, q, r) >= 0 && Tallied(kinds, Passed(count, low, q, r), q, count < low)
    ensures var p := Position(r, PutOff(r, low));
            var q', r' := if r + 1 == limit then q + 1 else q, if r + 1 == limit then 0 else r + 1;
            && NextPosition(p, false, limit) == Position(r', PutOff(r', low)) && Passed(count, low, q', r') >= 0
            && Tallied(kinds + NextFirings(p, limit), Passed(count, low, q', r'), q', count < low)
  {
    var next := TurnFirings(r, low, limit);
    TurnOf(r, low, limit);
    FirstKind(kinds);
    TalliedNext(kinds, Passed(count, low, q, r), q, count < low, next);
  }

  /** What the next tick fires. */
  function TurnFirings(r: nat, low: nat, limit: nat): seq<bool> {
    if r + 1 == limit then (if low == 0 then [true, false] else [true]) else if r + 1 == low then [false] else []
  }

  lemma TurnOf(r: nat, low: nat, limit: nat)
    requires IsLimit(limit) && low < limit && r < limit
    ensures var p, r' := Position(r, PutOff(r, low)), if r + 1 == limit then 0 else r + 1;
            NextFirings(p, limit) == TurnFirings(r, low, limit) && NextPosition(p, false, limit) == Position(r', PutOff(r', low))
  {
    PutOffParts(r, low, limit);
    var p := Position(r, PutOff(r, low));
    assert PastOverflow(Advanced(p), limit) == if r + 1 == limit then Position(0, low) else Advanced(p);
  }

  /** A counter that runs through, after any number of scanlines: it counts modulo the limit, fires at each overflow
      and each time it comes past its target, and the target is put off exactly while it is behind. */
  lemma WrappingCounter(c: Counter, low: nat, n: nat, limit: nat)
    requires IsLimit(limit) && !c.mode.zeroReturn && c.count < limit && low < limit && c.target == PutOff(c.count, low)
    ensures var q, r := (c.count + n) / limit, (c.count + n) % limit;
            && Passed(c.count, low, q, r) >= 0
            && Ticked(c, n, limit) == At(Fires(c, Passed(c.count, low, q, r), q, c.count < low), Position(r, PutOff(r, low)))
  {
    var q, r := (c.count + n) / limit, (c.count + n) % limit;
    TurnIs(c.count, limit, n);
    WrappingBy(c, low, n, limit, q, r);
  }

  lemma WrappingBy(c: Counter, low: nat, n: nat, limit: nat, q: nat, r: nat)
    requires IsLimit(limit) && !c.mode.zeroReturn && c.count < limit && low < limit && c.target == PutOff(c.count, low)
    requires TurnAfter(c.count, limit, n) == Turn(q, r)
    ensures Passed(c.count, low, q, r) >= 0
    ensures Ticked(c, n, limit) == At(Fires(c, Passed(c.count, low, q, r), q, c.count < low), Position(r, PutOff(r, low)))
  {
    var p := Position(c.count, c.target);
    TicksComeApart(c, n, limit);
    WrappingPositions(c.count, low, limit, n);
    FiringsRaise(c, Firings(p, false, limit, n), c.count < low, Passed(c.count, low, q, r), q);
  }

  // ----- whole scanlines

  /** A scanline: the blank starts and ends, at any cycles. */
  datatype Scanline = Scanline(start: nat, end: nat)

  function AfterLine(s: State, line: Scanline): State {
    HBlankEnd(HBlankStart(s.(cycle := line.start)).(cycle := line.end))
  }

  function AfterLines(s: State, lines: seq<Scanline>): State {
    if lines == [] then s else AfterLine(AfterLines(s, lines[..|lines| - 1]), lines[|lines| - 1])
  }

  /** Counts scanlines now. */
  predicate CountsLines(s: State, c: Counter) {
    c.rate == HBLANK_RATE && CanCount(c, s.vBlanking)
  }

  function Lines(s: State, c: Counter, n: nat, limit: nat): Fired {
    if CountsLines(s, c) then Ticked(c, n, limit) else Fired(c, [])
  }

  lemma FireInterruptAdds(c: Counter, irqs: seq<nat>, overflow: bool)
    ensures FireInterrupt(c, irqs, overflow)
         == Fired(FireInterrupt(c, [], overflow).c, irqs + FireInterrupt(c, [], overflow).irqs)
  {
  }

  lemma OverflowAdds(c: Counter, irqs: seq<nat>, limit: nat)
    ensures var g := TestOverflow(Fired(c, []), limit); TestOverflow(Fired(c, irqs), limit) == Fired(g.c, irqs + g.irqs)
  {
    FireInterruptAdds(c, irqs, true);
    assert irqs + [] == irqs;
  }

  lemma TargetAdds(c: Counter, irqs: seq<nat>)
    ensures var g := TestTarget(Fired(c, [])); TestTarget(Fired(c, irqs)) == Fired(g.c, irqs + g.irqs)
  {
    FireInterruptAdds(c, irqs, false);
    assert irqs + [] == irqs;
  }

  lemma TargetAddsTo(o: Fired, irqs: seq<nat>)
    ensures TestTarget(Fired(o.c, irqs + o.irqs)) == Fired(TestTarget(o).c, irqs + TestTarget(o).irqs)
  {
    var more := TestTarget(Fired(o.c, [])).irqs;
    TargetAdds(o.c, irqs + o.irqs);
    TargetAdds(o.c, o.irqs);
    assert (irqs + o.irqs) + more == irqs + (o.irqs + more);
  }

  /** What a tick raises does not depend on what was raised before. */
  lemma TickAdds(c: Counter, irqs: seq<nat>, limit: nat, g: Fired, h: Fired)
    requires g == Tick(c, [], limit) && h == Tick(c, irqs, limit)
    ensures h == Fired(g.c, irqs + g.irqs)
  {
    TestsAdd(Counted(c), irqs, limit, g, h);
  }

  lemma TestsAdd(d: Counter, irqs: seq<nat>, limit: nat, g: Fired, h: Fired)
    requires g == Tests(Fired(d, []), limit) && h == Tests(Fired(d, irqs), limit)
    ensures h == Fired(g.c, irqs + g.irqs)
  {
    OverflowAdds(d, irqs, limit);
    TargetAddsTo(TestOverflow(Fired(d, []), limit), irqs);
  }

  /** One more line of a counter, from what `n` lines have made of it; `more` is what it raises. */
  lemma OneLine(s: State, c: Counter, n: nat, limit: nat, irqs: seq<nat>) returns (more: seq<nat>)
    requires CountsLines(s, Lines(s, c, n, limit).c) == CountsLines(s, c)
    ensures var f, g := Lines(s, c, n, limit), Lines(s, c, n + 1, limit);
            && CountsLines(s, g.c) == CountsLines(s, c) && g.irqs == f.irqs + more
            && Fired(g.c, irqs + more) == if CountsLines(s, f.c) then Tick(f.c, irqs, limit) else Fired(f.c, irqs)
  {
    var f := Lines(s, c, n, limit);
    more := [];
    if CountsLines(s, c) {
      var g := Tick(f.c, [], limit);
      TickAdds(f.c, irqs, limit, g, Tick(f.c, irqs, limit));
      TickAdds(f.c, f.irqs, limit, g, Tick(f.c, f.irqs, limit));
      more := g.irqs;
    } else {
      assert irqs + [] == irqs && f.irqs + [] == f.irqs;
    }
  }

  lemma {:induction false} StillCountsLines(s: State, c: Counter, n: nat, limit: nat)
    ensures CountsLines(s, Lines(s, c, n, limit).c) == CountsLines(s, c)
  {
    if n > 0 {
      StillCountsLines(s, c, n - 1, limit);
      var _ := OneLine(s, c, n - 1, limit, []);
    }
  }

  /** Any number of scanlines, at any cycles: counters 1 and 3 count them if they count scanlines at all, each for
      itself, and between them they raise what each raises alone. */
  lemma {:induction false} LinesAreCounted(s: State, lines: seq<Scanline>)
    ensures var r, f1, f3 := AfterLines(s, lines), Lines(s, s.c1, |lines|, TWO_16), Lines(s, s.c3, |lines|, TWO_32);
            && r.vBlanking == s.vBlanking && r.c1 == f1.c && r.c3 == f3.c
            && multiset(r.irqs) == multiset(s.irqs) + multiset(f1.irqs) + multiset(f3.irqs)
  {
    if lines != [] {
      var before, n := lines[..|lines| - 1], |lines| - 1;
      LinesAreCounted(s, before);
      LineIsCounted(s, AfterLines(s, before), lines[n], n, Lines(s, s.c1, n, TWO_16), Lines(s, s.c3, n, TWO_32));
    }
  }

  lemma LineIsCounted(s: State, r: State, line: Scanline, n: nat, f1: Fired, f3: Fired)
    requires f1 == Lines(s, s.c1, n, TWO_16) && f3 == Lines(s, s.c3, n, TWO_32)
    requires r.vBlanking == s.vBlanking && r.c1 == f1.c && r.c3 == f3.c
    requires multiset(r.irqs) == multiset(s.irqs) + multiset(f1.irqs) + multiset(f3.irqs)
    ensures var u, g1, g3 := AfterLine(r, line), Lines(s, s.c1, n + 1, TWO_16), Lines(s, s.c3, n + 1, TWO_32);
            && u.vBlanking == s.vBlanking && u.c1 == g1.c && u.c3 == g3.c
            && multiset(u.irqs) == multiset(s.irqs) + multiset(g1.irqs) + multiset(g3.irqs)
  {
    StillCountsLines(s, s.c1, n, TWO_16);
    StillCountsLines(s, s.c3, n, TWO_32);
    var more1 := OneLine(s, s.c1, n, TWO_16, r.irqs);
    var g1 := Lines(s, s.c1, n + 1, TWO_16);
    var more3 := OneLine(s, s.c3, n, TWO_32, r.irqs + more1);
    LineTicks(r, line, Fired(g1.c, r.irqs + more1));
    Together(s.irqs, r.irqs, f1.irqs, more1, f3.irqs, more3);
  }

  lemma Together(a: seq<nat>, b: seq<nat>, x: seq<nat>, more1: seq<nat>, y: seq<nat>, more3: seq<nat>)
    requires multiset(b) == multiset(a) + multiset(x) + multiset(y)
    ensures multiset(b + more1 + more3) == multiset(a) + multiset(x + more1) + multiset(y + more3)
  {
  }

  lemma LineTicks(r: State, line: Scanline, h1: Fired)
    requires h1 == if CountsLines(r, r.c1) then Tick(r.c1, r.irqs, TWO_16) else Fired(r.c1, r.irqs)
    ensures var u := AfterLine(r, line);
            var h3 := if CountsLines(r, r.c3) then Tick(r.c3, h1.irqs, TWO_32) else Fired(r.c3, h1.irqs);
            u.vBlanking == r.vBlanking && u.c1 == h1.c && u.c3 == h3.c && u.irqs == h3.irqs
  {
  }
}
