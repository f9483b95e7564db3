/** The two-way write-back data cache of pcsx2/Cache.cpp.

    A line is named by the host page its tag holds and by its set, which is bits 6 to 11 of the
    address; the virtual-to-host mapping keeps the low 12 bits, so an access is given by host
    page, set and offset.  Memory is a map of 64-byte blocks.  `good` are the pages that exist;
    whether a tag's page exists is a property of the page. */
module DataCache {

  import opened Words

  type Data = d: seq<byte> | |d| == 64 witness seq(64, _ => 0)

  function Zeros(): Data {
    seq(64, _ => 0)
  }

  datatype Key = Key(page: nat, set_: nat)

  datatype Line = Line(page: nat, valid: bool, dirty: bool, lrf: bool, lock: bool, validPfn: bool, data: Data)

  const BLANK: Line := Line(0, false, false, false, false, false, Zeros())

  type Pair = p: seq<Line> | |p| == 2 witness [BLANK, BLANK]
  type Sets = s: seq<Pair> | |s| == 64 witness seq(64, _ => [BLANK, BLANK])

  type History = h: seq<nat> | |h| == 64 witness seq(64, _ => 2)

  type Memory = map<Key, Data>

  /** `lastFill` is history: per set, the way filled most recently, or 2 before the first fill. */
  datatype State = State(sets: Sets, mem: Memory, good: set<nat>, lastFill: History)

  function MemAt(m: Memory, k: Key): Data {
    if k in m then m[k] else Zeros()
  }

  predicate Matches(l: Line, page: nat) {
    l.valid && l.page == page
  }

  /** findInCache: the matching way, way 0 first, or 2. */
  function Find(p: Pair, page: nat): nat {
    if Matches(p[0], page) then 0 else if Matches(p[1], page) then 1 else 2
  }

  /** The way the least-recently-filled flags choose. */
  function Victim(p: Pair): nat {
    if p[0].lrf != p[1].lrf then 1 else 0
  }

  // ----- operations on one line

  /** Memory after writeBackIfNeeded. */
  function MemAfterWriteBack(l: Line, i: nat, m: Memory): Memory {
    if l.dirty && l.valid && l.validPfn then m[Key(l.page, i) := l.data] else m
  }

  function Cleaned(l: Line): Line {
    if l.dirty && l.valid then l.(dirty := false) else l
  }

  /** The line after load and toggleLRF. */
  function Loaded(l: Line, page: nat, i: nat, validPfn: bool, m: Memory): Line {
    Line(page, true, false, !l.lrf, l.lock, validPfn, if validPfn then MemAt(m, Key(page, i)) else Zeros())
  }

  /** The tag keeps only its LRF flag. */
  function Cleared(l: Line): Line {
    Line(0, false, false, l.lrf, false, false, Zeros())
  }

  function SetLine(s: State, i: nat, way: nat, l: Line): State
    requires i < 64 && way < 2
  {
    State(s.sets[i := s.sets[i][way := l]], s.mem, s.good, s.lastFill)
  }

  /** writeBackIfNeeded on the line at set `i`, way `way`. */
  function WriteBack(s: State, i: nat, way: nat): State
    requires i < 64 && way < 2
  {
    var l := s.sets[i][way];
    SetLine(s.(mem := MemAfterWriteBack(l, i, s.mem)), i, way, Cleaned(l))
  }

  function Clear(s: State, i: nat, way: nat): State
    requires i < 64 && way < 2
  {
    SetLine(s, i, way, Cleared(s.sets[i][way]))
  }

  // ----- finding or filling a line

  /** The way getFreeCache ends up on. */
  function ChosenWay(p: Pair, page: nat): nat
    ensures ChosenWay(p, page) < 2
  {
    var hit := Find(p, page);
    if hit < 2 then
      if p[hit].lock && !p[1 - hit].lock then 1 - hit else hit
    else
      if p[Victim(p)].lock then 1 - Victim(p) else Victim(p)
  }

  /** The line after a miss: written back by the caller, loaded, LRF toggled. */
  function Fill(s: State, i: nat, way: nat, page: nat): State
    requires i < 64 && way < 2
  {
    var clean := WriteBack(s, i, way);
    var line := Loaded(clean.sets[i][way], page, i, page in s.good, clean.mem);
    SetLine(clean.(lastFill := s.lastFill[i := way]), i, way, line)
  }

  /** getFreeCache. */
  function Prepare(s: State, page: nat, i: nat): State
    requires i < 64
  {
    if Find(s.sets[i], page) < 2 then s else Fill(s, i, ChosenWay(s.sets[i], page), page)
  }

  /** Replace the bytes of a block from `at` on. */
  function Patch(d: Data, at: nat, bytes: seq<byte>): Data
    requires at + |bytes| <= 64
  {
    d[..at] + bytes + d[at + |bytes|..]
  }

  // ----- the coherent view

  /** What a processor sees of a block: the cached copy if there is one, else memory. */
  function View(s: State, k: Key): Data
    requires k.set_ < 64
  {
    PairView(s.sets[k.set_], s.mem, k)
  }

  function PairView(p: Pair, m: Memory, k: Key): Data {
    if Matches(p[0], k.page) then p[0].data
    else if Matches(p[1], k.page) then p[1].data
    else MemAt(m, k)
  }

  // ----- the invariant of lock-free operation

  predicate LineInv(l: Line, i: nat, m: Memory, good: set<nat>) {
    && !l.lock
    && (l.dirty ==> l.valid)
    && (l.valid ==> (l.validPfn <==> l.page in good))
    && (l.valid && !l.dirty && l.validPfn ==> l.data == MemAt(m, Key(l.page, i)))
  }

  /** The ways of a set take turns, way 0 first. */
  function NextVictim(last: nat): int {
    if last == 0 then 1 else 0
  }

  predicate PairInv(p: Pair, i: nat, m: Memory, good: set<nat>, last: nat) {
    && LineInv(p[0], i, m, good)
    && LineInv(p[1], i, m, good)
    && !(p[0].valid && p[1].valid && p[0].page == p[1].page)
    && Victim(p) == NextVictim(last)
  }

  ghost predicate Inv(s: State) {
    forall i :: 0 <= i < 64 ==> PairInv(s.sets[i], i, s.mem, s.good, s.lastFill[i])
  }

  /** resetCache. */
  function Reset(mem: Memory, good: set<nat>): State {
    State(seq(64, _ => [BLANK, BLANK]), mem, good, seq(64, _ => 2))
  }

  lemma ResetHasInv(mem: Memory, good: set<nat>)
    ensures Inv(Reset(mem, good))
    ensures forall k: Key :: k.set_ < 64 ==> View(Reset(mem, good), k) == MemAt(mem, k)
  {
  }

  /** Two states agree on the view of every existing block, and on memory that does not exist. */
  ghost predicate SameView(s: State, t: State) {
    && s.good == t.good
    && forall k: Key :: k.set_ < 64 ==>
         if k.page in s.good then View(s, k) == View(t, k) else MemAt(s.mem, k) == MemAt(t.mem, k)
  }

  // ----- reasoning set by set

  /** `t` differs from `s` only in set `i` and in memory blocks of that set. */
  ghost predicate OnlySet(s: State, t: State, i: nat)
    requires i < 64
  {
    && t.good == s.good
    && (forall j :: 0 <= j < 64 && j != i ==> t.sets[j] == s.sets[j] && t.lastFill[j] == s.lastFill[j])
    && (forall k: Key :: k.set_ != i ==> MemAt(t.mem, k) == MemAt(s.mem, k))
  }

  lemma LocalInv(s: State, t: State, i: nat)
    requires Inv(s) && i < 64 && OnlySet(s, t, i)
    requires PairInv(t.sets[i], i, t.mem, t.good, t.lastFill[i])
    ensures Inv(t)
  {
    forall j | 0 <= j < 64
      ensures PairInv(t.sets[j], j, t.mem, t.good, t.lastFill[j])
    {
      assert PairInv(s.sets[j], j, s.mem, s.good, s.lastFill[j]);
    }
  }

  /** Block `page` of set `i` looks the same before and after. */
  predicate SameBlock(s: State, t: State, page: nat, i: nat)
    requires i < 64
  {
    var k := Key(page, i);
    if page in s.good then View(s, k) == View(t, k) else MemAt(s.mem, k) == MemAt(t.mem, k)
  }

  lemma LocalView(s: State, t: State, i: nat)
    requires i < 64 && OnlySet(s, t, i) && forall page :: SameBlock(s, t, page, i)
    ensures SameView(s, t)
  {
    forall k: Key | k.set_ < 64
      ensures if k.page in s.good then View(s, k) == View(t, k) else MemAt(s.mem, k) == MemAt(t.mem, k)
    {
      if k.set_ == i {
        assert SameBlock(s, t, k.page, i);
      }
    }
  }

  lemma PairWriteBack(p: Pair, i: nat, m: Memory, good: set<nat>, last: nat, way: nat, page: nat)
    requires PairInv(p, i, m, good, last) && way < 2
    ensures var p', m' := p[way := Cleaned(p[way])], MemAfterWriteBack(p[way], i, m);
            && PairInv(p', i, m', good, last)
            && (if page in good then PairView(p', m', Key(page, i)) == PairView(p, m, Key(page, i))
                else MemAt(m', Key(page, i)) == MemAt(m, Key(page, i)))
  {
  }

  /** Writing a line back changes neither the view nor memory that does not exist. */
  lemma WriteBackKeepsView(s: State, i: nat, way: nat)
    requires Inv(s) && i < 64 && way < 2
    ensures Inv(WriteBack(s, i, way)) && SameView(s, WriteBack(s, i, way))
    ensures OnlySet(s, WriteBack(s, i, way), i)
    ensures !WriteBack(s, i, way).sets[i][way].dirty
  {
    var t := WriteBack(s, i, way);
    assert PairInv(s.sets[i], i, s.mem, s.good, s.lastFill[i]);
    forall page
      ensures SameBlock(s, t, page, i)
    {
      PairWriteBack(s.sets[i], i, s.mem, s.good, s.lastFill[i], way, page);
    }
    PairWriteBack(s.sets[i], i, s.mem, s.good, s.lastFill[i], way, 0);
    LocalInv(s, t, i);
    LocalView(s, t, i);
  }

  lemma PairFill(p: Pair, i: nat, m: Memory, good: set<nat>, last: nat, page: nat, q: nat)
    requires PairInv(p, i, m, good, last) && !p[Victim(p)].dirty && Find(p, page) == 2
    ensures var way := Victim(p);
            var p' := p[way := Loaded(p[way], page, i, page in good, m)];
            && PairInv(p', i, m, good, way)
            && (q in good ==> PairView(p', m, Key(q, i)) == PairView(p, m, Key(q, i)))
  {
  }

  /** On a miss the victim is written back and replaced, and nothing changes to the eye. */
  lemma FillKeepsView(s: State, i: nat, page: nat)
    requires Inv(s) && i < 64 && Find(s.sets[i], page) == 2
    ensures var t := Fill(s, i, Victim(s.sets[i]), page);
            Inv(t) && SameView(s, t) && OnlySet(s, t, i)
  {
    var way := Victim(s.sets[i]);
    WriteBackKeepsView(s, i, way);
    var u := WriteBack(s, i, way);
    var t := Fill(s, i, way, page);
    assert PairInv(u.sets[i], i, u.mem, u.good, u.lastFill[i]);
    forall q
      ensures SameBlock(u, t, q, i)
    {
      PairFill(u.sets[i], i, u.mem, u.good, u.lastFill[i], page, q);
    }
    PairFill(u.sets[i], i, u.mem, u.good, u.lastFill[i], page, 0);
    LocalInv(u, t, i);
    LocalView(u, t, i);
  }

  /** getFreeCache in lock-free operation: the chosen line holds the page, with the data the
      processor should see, and the view is unchanged. */
  lemma PrepareIsTransparent(s: State, page: nat, i: nat)
    requires Inv(s) && i < 64
    ensures var t := Prepare(s, page, i);
            var l := t.sets[i][ChosenWay(s.sets[i], page)];
            && Inv(t) && SameView(s, t) && OnlySet(s, t, i)
            && Matches(l, page)
            && (page in s.good ==> l.data == View(s, Key(page, i)))
  {
    assert PairInv(s.sets[i], i, s.mem, s.good, s.lastFill[i]);
    if Find(s.sets[i], page) == 2 {
      FillKeepsView(s, i, page);
      var t := Prepare(s, page, i);
      assert PairInv(t.sets[i], i, t.mem, t.good, t.lastFill[i]);
      if page in s.good {
        assert View(t, Key(page, i)) == View(s, Key(page, i));
      }
    }
  }

  /** A fill never evicts the line filled most recently in its set: the ways take turns, way 0 first. */
  lemma FillSparesLatest(s: State, page: nat, i: nat)
    requires Inv(s) && i < 64 && Find(s.sets[i], page) == 2
    ensures ChosenWay(s.sets[i], page) != s.lastFill[i]
    ensures ChosenWay(s.sets[i], page) == NextVictim(s.lastFill[i])
    ensures Prepare(s, page, i).lastFill[i] == ChosenWay(s.sets[i], page)
  {
    assert PairInv(s.sets[i], i, s.mem, s.good, s.lastFill[i]);
  }

  // ----- with locked lines

  /** A hit on a locked line whose neighbour is not locked. */
  predicate LockedHit(p: Pair, page: nat) {
    var hit := Find(p, page);
    hit < 2 && p[hit].lock && !p[1 - hit].lock
  }

  /** In any state at all in which at most one way matches, the access lands on a line of the
      requested page iff it is not such a locked hit: a locked hit is diverted to the other way
      without loading it. */
  lemma LandsOnPageIff(s: State, page: nat, i: nat)
    requires i < 64
    requires !(Matches(s.sets[i][0], page) && Matches(s.sets[i][1], page))
    ensures Matches(Prepare(s, page, i).sets[i][ChosenWay(s.sets[i], page)], page) <==> !LockedHit(s.sets[i], page)
  {
  }

  // ----- writes

  function Written(s: State, page: nat, i: nat, at: nat, bytes: seq<byte>): State
    requires i < 64 && at + |bytes| <= 64
  {
    var t := Prepare(s, page, i);
    var way := ChosenWay(s.sets[i], page);
    var l := t.sets[i][way];
    SetLine(t, i, way, Line(l.page, l.valid, true, l.lrf, l.lock, l.validPfn, Patch(l.data, at, bytes)))
  }

  lemma PairStore(p: Pair, i: nat, m: Memory, good: set<nat>, last: nat, way: nat, data: Data, q: nat)
    requires PairInv(p, i, m, good, last) && way < 2 && p[way].valid
    ensures var l := p[way];
            var p' := p[way := Line(l.page, l.valid, true, l.lrf, l.lock, l.validPfn, data)];
            && PairInv(p', i, m, good, last)
            && PairView(p', m, Key(q, i)) == if q == l.page then data else PairView(p, m, Key(q, i))
  {
  }

  /** A write changes the view at its own bytes and nowhere else. */
  lemma WriteChangesOwnBytes(s: State, page: nat, i: nat, at: nat, bytes: seq<byte>)
    requires Inv(s) && i < 64 && at + |bytes| <= 64
    ensures var t := Written(s, page, i, at, bytes);
            && Inv(t) && t.good == s.good
            && (page in s.good ==> View(t, Key(page, i)) == Patch(View(s, Key(page, i)), at, bytes))
            && (forall k: Key :: k.set_ < 64 && k != Key(page, i) && k.page in s.good ==> View(t, k) == View(s, k))
            && (forall k: Key :: k.set_ < 64 && k.page !in s.good ==> MemAt(t.mem, k) == MemAt(s.mem, k))
  {
    PrepareIsTransparent(s, page, i);
    var u := Prepare(s, page, i);
    var way := ChosenWay(s.sets[i], page);
    var t := Written(s, page, i, at, bytes);
    var data := Patch(u.sets[i][way].data, at, bytes);
    assert PairInv(u.sets[i], i, u.mem, u.good, u.lastFill[i]);
    PairStore(u.sets[i], i, u.mem, u.good, u.lastFill[i], way, data, page);
    LocalInv(u, t, i);
    forall k: Key | k.set_ < 64 && k != Key(page, i) && k.page in s.good
      ensures View(t, k) == View(s, k)
    {
      assert View(u, k) == View(s, k);
      if k.set_ == i {
        PairStore(u.sets[i], i, u.mem, u.good, u.lastFill[i], way, data, k.page);
      }
    }
  }

  // ----- invalidation

  lemma PairClear(p: Pair, i: nat, m: Memory, good: set<nat>, last: nat, way: nat, q: nat)
    requires PairInv(p, i, m, good, last) && way < 2
    ensures var p' := p[way := Cleared(p[way])];
            && PairInv(p', i, m, good, last)
            && PairView(p', m, Key(q, i))
               == if Matches(p[way], q) then MemAt(m, Key(q, i)) else PairView(p, m, Key(q, i))
  {
  }

  /** DHIN on a hit and DXIN: the view of exactly the cleared line's block reverts to memory. */
  lemma InvalidateRevertsOneLine(s: State, i: nat, way: nat)
    requires Inv(s) && i < 64 && way < 2
    ensures var t, l := Clear(s, i, way), s.sets[i][way];
            && Inv(t) && t.mem == s.mem
            && forall k: Key :: k.set_ < 64 ==>
                 View(t, k) == if k.set_ == i && Matches(l, k.page) then MemAt(s.mem, k) else View(s, k)
  {
    var t := Clear(s, i, way);
    assert PairInv(s.sets[i], i, s.mem, s.good, s.lastFill[i]);
    PairClear(s.sets[i], i, s.mem, s.good, s.lastFill[i], way, 0);
    LocalInv(s, t, i);
    forall k: Key | k.set_ < 64
      ensures View(t, k) == if k.set_ == i && Matches(s.sets[i][way], k.page) then MemAt(s.mem, k) else View(s, k)
    {
      if k.set_ == i {
        PairClear(s.sets[i], i, s.mem, s.good, s.lastFill[i], way, k.page);
      }
    }
  }

  /** DHWBIN and DXWBIN: writing back first makes invalidation invisible. */
  lemma WriteBackInvalidateKeepsView(s: State, i: nat, way: nat)
    requires Inv(s) && i < 64 && way < 2
    ensures var t := Clear(WriteBack(s, i, way), i, way);
            Inv(t) && SameView(s, t)
  {
    WriteBackKeepsView(s, i, way);
    var u := WriteBack(s, i, way);
    InvalidateRevertsOneLine(u, i, way);
    assert PairInv(u.sets[i], i, u.mem, u.good, u.lastFill[i]);
    var t := Clear(u, i, way);
    forall k: Key | k.set_ < 64
      ensures if k.page in s.good then View(s, k) == View(t, k) else MemAt(s.mem, k) == MemAt(t.mem, k)
    {
      assert if k.page in s.good then View(s, k) == View(u, k) else MemAt(s.mem, k) == MemAt(u.mem, k);
    }
  }
}
