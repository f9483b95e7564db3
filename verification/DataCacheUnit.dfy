/** The cache of pcsx2/Cache.cpp as the code keeps it: an array of sets and main memory, both
    updated in place, with the loops of writebackCache. */
module DataCacheUnit {

  import opened Words
  import opened DataCache
  import opened CacheRuns

  lemma WriteBackNext(s: State, i: nat, j: nat, t: State)
    requires i < 64 && j < 2 && t == WriteBackLines(s, 2 * i + j)
    ensures WriteBackLines(s, 2 * i + j + 1) == WriteBack(t, i, j)
  {
    assert (2 * i + j) / 2 == i && (2 * i + j) % 2 == j;
  }

  /** The flag bits of a tag, as DXLTG puts them into TagLo. */
  function FlagBits(l: Line): nat {
    (if l.dirty then 0x40 else 0) + (if l.valid then 0x20 else 0) + (if l.lrf then 0x10 else 0) + (if l.lock then 0x8 else 0)
  }

  /** Bit 6 is dirty, bit 5 valid, bit 4 least recently filled, bit 3 locked; no other bit is set. */
  predicate HasFlags(tagLo: nat, l: Line) {
    && tagLo < 0x80 && tagLo % 0x8 == 0
    && (tagLo / 0x40 == 1 <==> l.dirty) && (tagLo / 0x20 % 2 == 1 <==> l.valid)
    && (tagLo / 0x10 % 2 == 1 <==> l.lrf) && (tagLo / 0x8 % 2 == 1 <==> l.lock)
  }

  class Cache {
    const sets: array<Pair>
    var mem: Memory
    ghost var good: set<nat>
    ghost var lastFill: History

    ghost predicate Valid()
      reads this
    {
      sets.Length == 64
    }

    ghost function Contents(): State
      requires Valid()
      reads this, sets
    {
      State(sets[..], mem, good, lastFill)
    }

    /** writeBackIfNeeded. */
    method WriteBackIfNeeded(i: nat, way: nat)
      requires Valid() && i < 64 && way < 2
      modifies this`mem, sets
      ensures Contents() == WriteBack(old(Contents()), i, way)
    {
      var l := sets[i][way];
      if l.dirty && l.valid {
        if l.validPfn {
          mem := mem[Key(l.page, i) := l.data];
        }
        l := Line(l.page, l.valid, false, l.lrf, l.lock, l.validPfn, l.data);
      }
      sets[i] := sets[i][way := l];
    }

    /** The body of both loops of writebackCache: the line after the first `n`. */
    method WriteBackLine(i: nat, j: nat, ghost s: State, ghost n: nat)
      requires Valid() && i < 64 && j < 2 && n == 2 * i + j && Contents() == WriteBackLines(s, n)
      modifies this`mem, sets
      ensures Contents() == WriteBackLines(s, n + 1)
    {
      WriteBackNext(s, i, j, Contents());
      WriteBackIfNeeded(i, j);
    }

    /** The inner loop of writebackCache: both ways of set `i`. */
    method WriteBackSet(i: nat, ghost s: State)
      requires Valid() && i < 64 && Contents() == WriteBackLines(s, 2 * i)
      modifies this`mem, sets
      ensures Contents() == WriteBackLines(s, 2 * (i + 1))
    {
      var j := 0;
      ghost var n := 2 * i;
      while j < 2
        invariant 0 <= j <= 2 && n == 2 * i + j
        invariant Contents() == WriteBackLines(s, n)
      {
        WriteBackLine(i, j, s, n);
        j, n := j + 1, n + 1;
      }
    }

    /** The outer loop of writebackCache. */
    method WriteBackEveryLine()
      requires Valid()
      modifies this`mem, sets
      ensures Contents() == WriteBackLines(old(Contents()), 2 * sets.Length)
    {
      ghost var s := Contents();
      var i := 0;
      while i < 64
        invariant 0 <= i <= 64
        invariant Contents() == WriteBackLines(s, 2 * i)
      {
        WriteBackSet(i, s);
        i := i + 1;
      }
    }

    /** writebackCache: the view stays, and memory becomes equal to it on every existing page. */
    method WriteBackCache()
      requires Valid() && Inv(Contents())
      modifies this`mem, sets
      ensures Inv(Contents()) && SameView(old(Contents()), Contents())
      ensures forall k: Key :: k.set_ < 64 && k.page in good ==> MemAt(mem, k) == View(old(Contents()), k)
    {
      ghost var s := Contents();
      WriteBackEveryLine();
      WriteBackLinesKeepView(s, 2 * |s.sets|);
      forall k: Key | k.set_ < 64 && k.page in good
        ensures MemAt(mem, k) == View(s, k)
      {
        WriteBackAllMakesMemoryCurrent(s, k);
      }
    }

    /** getFreeCache; `validPfn` is the caller's knowledge of whether the page exists. */
    method GetFreeCache(page: nat, i: nat, validPfn: bool) returns (way: nat)
      requires Valid() && i < 64 && (validPfn <==> page in good)
      modifies this, sets
      ensures Valid() && Contents() == Prepare(old(Contents()), page, i)
      ensures way == ChosenWay(old(sets[i]), page)
    {
      var p := sets[i];
      if Matches(p[0], page) || Matches(p[1], page) {
        way := if Matches(p[0], page) then 0 else 1;
        if p[way].lock && !p[1 - way].lock {
          way := 1 - way;
        }
      } else {
        way := if p[0].lrf != p[1].lrf then 1 else 0;
        if p[way].lock {
          way := 1 - way;
        }
        WriteBackIfNeeded(i, way);
        var l := sets[i][way];
        var data := if validPfn then MemAt(mem, Key(page, i)) else Zeros();
        sets[i] := sets[i][way := Line(page, true, false, !l.lrf, l.lock, validPfn, data)];
        lastFill := lastFill[i := way];
      }
    }

    /** readCache at any width: in lock-free operation, the bytes seen at the addresses of the access. */
    method ReadCache(page: nat, offset: nat, width: nat, validPfn: bool) returns (bytes: seq<byte>)
      requires Valid() && WellFormed(Read(page, offset, width)) && (validPfn <==> page in good)
      modifies this, sets
      ensures Valid() && Contents() == Exec(old(Contents()), Read(page, offset, width))
      ensures bytes == Output(old(Contents()), Read(page, offset, width))
      ensures Inv(old(Contents())) && page in old(good) ==>
                Inv(Contents()) && SameBytes(old(Contents()), Contents())
                && bytes == FlatRead((a: nat) => Seen(old(Contents()), a), Address(page, offset), width)
    {
      var i := SetOf(offset);
      ghost var s := Contents();
      var way := GetFreeCache(page, i, validPfn);
      var at := At(offset, width);
      bytes := sets[i][way].data[at..at + width];
      if Inv(s) && page in s.good {
        QuietOpKeepsView(s, Read(page, offset, width));
        SameViewIsSameBytes(s, Contents());
        ReadRefinesFlat(s, (a: nat) => Seen(s, a), page, offset, width);
      }
    }

    /** writeCache at any width: in lock-free operation, exactly the bytes at the addresses of the access
        change, as far as they exist. */
    method WriteCache(page: nat, offset: nat, bytes: seq<byte>, validPfn: bool)
      requires Valid() && WellFormed(Write(page, offset, bytes)) && (validPfn <==> page in good)
      modifies this, sets
      ensures Valid() && Contents() == Exec(old(Contents()), Write(page, offset, bytes))
      ensures Inv(old(Contents())) ==> Inv(Contents()) && forall a: nat ::
                if Exists(old(Contents()), a)
                then Seen(Contents(), a) == FlatWrite((b: nat) => Seen(old(Contents()), b), Address(page, offset), bytes)(a)
                else InMemory(mem, a) == InMemory(old(mem), a)
    {
      var i := SetOf(offset);
      ghost var s := Contents();
      var way := GetFreeCache(page, i, validPfn);
      var l := sets[i][way];
      var at := At(offset, |bytes|);
      sets[i] := sets[i][way := Line(l.page, l.valid, true, l.lrf, l.lock, l.validPfn, Patch(l.data, at, bytes))];
      if Inv(s) {
        WriteChangesSeen(s, page, offset, bytes, 0);
        forall a: nat
          ensures if Exists(s, a) then Seen(Contents(), a) == FlatWrite((b: nat) => Seen(s, b), Address(page, offset), bytes)(a)
                  else InMemory(mem, a) == InMemory(s.mem, a)
        {
          WriteChangesSeen(s, page, offset, bytes, a);
        }
      }
    }

    /** CacheLine::clear, as DHIN and DXIN use it. */
    method ClearLine(i: nat, way: nat)
      requires Valid() && i < 64 && way < 2
      modifies sets
      ensures Contents() == Clear(old(Contents()), i, way)
    {
      sets[i] := sets[i][way := Line(0, false, false, sets[i][way].lrf, false, false, Zeros())];
    }

    /** findInCache; 2 stands for a miss. */
    method FindInCache(i: nat, page: nat) returns (way: nat)
      requires Valid() && i < 64
      ensures way == Find(sets[i], page)
      ensures way < 2 ==> Matches(sets[i][way], page)
      ensures way == 2 ==> !Matches(sets[i][0], page) && !Matches(sets[i][1], page)
    {
      if Matches(sets[i][0], page) {
        return 0;
      }
      way := if Matches(sets[i][1], page) then 1 else 2;
    }

    /** executeCacheOp for the modes that write back: DHWBIN, DHWOIN, DXWBIN and DXLTG.  None of
        them changes what a program can read, and memory receives what was seen at the addresses they
        are about and keeps the rest.  DXLTG returns the flags it leaves, never dirty. */
    method ExecuteWriteBackOp(op: Op) returns (tagLo: nat)
      requires Valid() && WellFormed(op) && !op.Read? && !op.Write? && !op.WriteBackAll?
      modifies this`mem, sets
      ensures Contents() == Exec(old(Contents()), op)
      ensures Inv(old(Contents())) ==> Inv(Contents()) && SameView(old(Contents()), Contents())
      ensures Inv(old(Contents())) ==> forall a: nat ::
                InMemory(mem, a)
                == if Addresses(old(Contents()), op, a) && Exists(old(Contents()), a) then Seen(old(Contents()), a)
                   else InMemory(old(mem), a)
      ensures op.LoadTag? ==> HasFlags(tagLo, sets[op.set_][op.way])
    {
      ghost var s := Contents();
      tagLo := 0;
      match op {
        case HitWriteBackInvalidate(page, offset) =>
          var way := FindInCache(SetOf(offset), page);
          if way < 2 {
            WriteBackIfNeeded(SetOf(offset), way);
            ClearLine(SetOf(offset), way);
          }
        case HitWriteBack(page, offset) =>
          var way := FindInCache(SetOf(offset), page);
          if way < 2 {
            WriteBackIfNeeded(SetOf(offset), way);
          }
        case IndexWriteBackInvalidate(i, way) =>
          WriteBackIfNeeded(i, way);
          ClearLine(i, way);
        case LoadTag(i, way) =>
          WriteBackIfNeeded(i, way);
          tagLo := FlagBits(sets[i][way]);
      }
      if Inv(s) {
        QuietOpKeepsView(s, op);
        forall a: nat
          ensures InMemory(mem, a) == if Addresses(s, op, a) && Exists(s, a) then Seen(s, a) else InMemory(s.mem, a)
        {
          MemoryAfterWriteBack(s, op, a);
        }
      }
    }

    /** DHIN: the block of the address reverts to memory, cached or not; every other byte is seen as
        before. */
    method HitInvalidate(page: nat, offset: nat)
      requires Valid() && offset < 4096
      modifies sets
      ensures mem == old(mem)
      ensures Inv(old(Contents())) ==> Inv(Contents()) && forall a: nat ::
                Seen(Contents(), a)
                == if a / 64 == Address(page, offset) / 64 then InMemory(mem, a) else Seen(old(Contents()), a)
    {
      ghost var s := Contents();
      var i := SetOf(offset);
      var way := FindInCache(i, page);
      if way < 2 {
        ClearLine(i, way);
      }
      if Inv(s) {
        HitDropsOneBlock(s, page, offset, 0);
        forall a: nat
          ensures Seen(Contents(), a) == if a / 64 == Address(page, offset) / 64 then InMemory(mem, a) else Seen(s, a)
        {
          HitDropsOneBlock(s, page, offset, a);
        }
      }
    }
  }
}
