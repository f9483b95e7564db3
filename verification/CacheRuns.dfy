/** Whole runs of the data cache of pcsx2/Cache.cpp against flat memory. */
module CacheRuns {

  import opened Words
  import opened DataCache
  import Arithmetic

  /** The operations that a program can issue without asking for stale data.  An access names the
      host page, the 12-bit offset in it, and a width of 1, 2, 4, 8 or 16 bytes. */
  datatype Op =
    | Read(page: nat, offset: nat, width: nat)
    | Write(page: nat, offset: nat, bytes: seq<byte>)
    | HitWriteBackInvalidate(page: nat, offset: nat)
    | HitWriteBack(page: nat, offset: nat)
    | IndexWriteBackInvalidate(set_: nat, way: nat)
    | LoadTag(set_: nat, way: nat)
    | WriteBackAll

  predicate IsWidth(w: nat) {
    w == 1 || w == 2 || w == 4 || w == 8 || w == 16
  }

  predicate WellFormed(op: Op) {
    match op
    case Read(_, offset, width) => offset < 4096 && IsWidth(width)
    case Write(_, offset, bytes) => offset < 4096 && IsWidth(|bytes|)
    case HitWriteBackInvalidate(_, offset) => offset < 4096
    case HitWriteBack(_, offset) => offset < 4096
    case IndexWriteBackInvalidate(i, way) => i < 64 && way < 2
    case LoadTag(i, way) => i < 64 && way < 2
    case WriteBackAll => true
  }

  /** Bits 6 to 11. */
  function SetOf(offset: nat): nat {
    offset / 64 % 64
  }

  /** `(mem & ~(width - 1)) & 0x3f`. */
  function At(offset: nat, width: nat): nat
    requires IsWidth(width)
    ensures At(offset, width) + width <= 64
  {
    (offset - offset % width) % 64
  }

  /** writebackCache, up to line `n` in the order of its two loops. */
  function WriteBackLines(s: State, n: nat): State
    requires n <= 128
  {
    if n == 0 then s else WriteBack(WriteBackLines(s, n - 1), (n - 1) / 2, (n - 1) % 2)
  }

  function Exec(s: State, op: Op): State
    requires WellFormed(op)
  {
    match op
    case Read(page, offset, _) => Prepare(s, page, SetOf(offset))
    case Write(page, offset, bytes) => Written(s, page, SetOf(offset), At(offset, |bytes|), bytes)
    case HitWriteBackInvalidate(page, offset) =>
      var i, way := SetOf(offset), Find(s.sets[SetOf(offset)], page);
      if way == 2 then s else Clear(WriteBack(s, i, way), i, way)
    case HitWriteBack(page, offset) =>
      var way := Find(s.sets[SetOf(offset)], page);
      if way == 2 then s else WriteBack(s, SetOf(offset), way)
    case IndexWriteBackInvalidate(i, way) => Clear(WriteBack(s, i, way), i, way)
    case LoadTag(i, way) => WriteBack(s, i, way)
    case WriteBackAll => WriteBackLines(s, 2 * |s.sets|)
  }

  /** The bytes a read returns; empty for every other operation. */
  function Output(s: State, op: Op): seq<byte>
    requires WellFormed(op)
  {
    if op.Read? then
      var i := SetOf(op.offset);
      var data := Prepare(s, op.page, i).sets[i][ChosenWay(s.sets[i], op.page)].data;
      data[At(op.offset, op.width)..At(op.offset, op.width) + op.width]
    else []
  }

  // ----- flat memory

  /** Flat memory has a byte at every address; an address is the host page and the offset in it. */
  type Flat = nat -> byte

  function Address(page: nat, offset: nat): nat {
    4096 * page + offset
  }

  /** Accesses are aligned to their width. */
  function Aligned(a: nat, width: nat): nat
    requires width > 0
  {
    a - a % width
  }

  function FlatRead(flat: Flat, a: nat, width: nat): (bytes: seq<byte>)
    requires width > 0
    ensures |bytes| == width
  {
    seq<byte>(width, n requires 0 <= n < width => flat(Aligned(a, width) + n))
  }

  function FlatWrite(flat: Flat, a: nat, bytes: seq<byte>): Flat
    requires bytes != []
  {
    (b: nat) => if Aligned(a, |bytes|) <= b < Aligned(a, |bytes|) + |bytes| then bytes[b - Aligned(a, |bytes|)] else flat(b)
  }

  function FlatExec(flat: Flat, op: Op): Flat
    requires WellFormed(op)
  {
    if op.Write? then FlatWrite(flat, Address(op.page, op.offset), op.bytes) else flat
  }

  function FlatOutput(flat: Flat, op: Op): seq<byte>
    requires WellFormed(op)
  {
    if op.Read? then FlatRead(flat, Address(op.page, op.offset), op.width) else []
  }

  /** The 64-byte block that holds an address. */
  function BlockOf(a: nat): Key {
    Key(a / 4096, a / 64 % 64)
  }

  /** The byte that a program sees at an address. */
  function Seen(s: State, a: nat): byte {
    View(s, BlockOf(a))[a % 64]
  }

  /** The byte that memory holds there. */
  function InMemory(m: Memory, a: nat): byte {
    MemAt(m, BlockOf(a))[a % 64]
  }

  predicate Exists(s: State, a: nat) {
    a / 4096 in s.good
  }

  ghost predicate Agrees(s: State, flat: Flat) {
    forall a: nat :: Exists(s, a) ==> Seen(s, a) == flat(a)
  }

  /** Page, set and byte of an address. */
  lemma AddressParts(page: nat, i: nat, j: nat)
    requires i < 64 && j < 64
    ensures var a := 4096 * page + 64 * i + j;
            a / 4096 == page && a / 64 == 64 * page + i && a / 64 % 64 == i && a % 64 == j && BlockOf(a) == Key(page, i)
  {
    var a := 4096 * page + 64 * i + j;
    Arithmetic.Unique(a, 4096, page, 64 * i + j);
    Arithmetic.Unique(a, 64, 64 * page + i, j);
    Arithmetic.Unique(64 * page + i, 64, page, i);
  }

  /** Pages and blocks are multiples of every width. */
  lemma WidthDivides(x: nat, j: nat, w: nat)
    requires IsWidth(w)
    ensures (64 * x + j) % w == j % w
  {
    if w == 1 {
      Arithmetic.Unique(64 * x + j, 1, 64 * x + j, 0);
    } else if w == 2 {
      Arithmetic.AddMultiple(j, 2, 32 * x);
    } else if w == 4 {
      Arithmetic.AddMultiple(j, 4, 16 * x);
    } else if w == 8 {
      Arithmetic.AddMultiple(j, 8, 8 * x);
    } else {
      Arithmetic.AddMultiple(j, 16, 4 * x);
    }
  }

  /** The aligned access begins in the same block, at the byte the cache computes. */
  lemma AlignedParts(page: nat, i: nat, j: nat, w: nat)
    requires i < 64 && j < 64 && IsWidth(w)
    ensures var offset, at := 64 * i + j, j - j % w;
            && at + w <= 64 && SetOf(offset) == i && At(offset, w) == at
            && Aligned(Address(page, offset), w) == 4096 * page + 64 * i + at
  {
    var offset, at := 64 * i + j, j - j % w;
    WidthDivides(64 * page + i, j, w);
    WidthDivides(i, j, w);
    Arithmetic.Unique(offset, 64, i, j);
    Arithmetic.Unique(64 * i + at, 64, i, at);
    Arithmetic.Unique(i, 64, 0, i);
    assert 64 * (64 * page + i) + j == Address(page, offset);
    FitsBlock(j, w);
  }

  lemma FitsBlock(j: nat, w: nat)
    requires j < 64 && IsWidth(w)
    ensures 0 <= j - j % w && j - j % w + w <= 64
  {
  }

  /** The same for any offset within a page. */
  lemma AccessParts(page: nat, offset: nat, width: nat)
    requires offset < 4096 && IsWidth(width)
    ensures At(offset, width) + width <= 64
    ensures Aligned(Address(page, offset), width) == 4096 * page + 64 * SetOf(offset) + At(offset, width)
  {
    AlignedParts(page, offset / 64, offset % 64, width);
  }

  /** An access of any width stays within one block. */
  lemma WithinBlock(page: nat, offset: nat, width: nat, n: nat)
    requires offset < 4096 && IsWidth(width) && n < width
    ensures var b := Aligned(Address(page, offset), width) + n;
            && b / 4096 == page && BlockOf(b) == Key(page, SetOf(offset)) && b % 64 == At(offset, width) + n
  {
    var i, j := offset / 64, offset % 64;
    AlignedParts(page, i, j, width);
    AddressParts(page, i, j - j % width + n);
  }

  /** An address is made of its page, its set and its byte. */
  lemma Recomposed(a: nat)
    ensures a == 4096 * (a / 4096) + 64 * (a / 64 % 64) + a % 64
  {
    var x, j := a / 64, a % 64;
    var page, i := x / 64, x % 64;
    assert a == 4096 * page + 64 * i + j;
    AddressParts(page, i, j);
  }

  /** A block holds the bytes of flat memory at its 64 addresses. */
  ghost predicate HoldsBlock(data: Data, flat: Flat, page: nat, i: nat) {
    forall j :: 0 <= j < 64 ==> data[j] == flat(4096 * page + 64 * i + j)
  }

  /** The read of a block, byte by byte. */
  lemma ReadOfBlock(data: Data, flat: Flat, page: nat, offset: nat, width: nat)
    requires offset < 4096 && IsWidth(width) && HoldsBlock(data, flat, page, SetOf(offset))
    ensures data[At(offset, width)..At(offset, width) + width] == FlatRead(flat, Address(page, offset), width)
  {
    AccessParts(page, offset, width);
    ReadFrom(data, flat, page, SetOf(offset), At(offset, width), Address(page, offset), width);
  }

  lemma ReadFrom(data: Data, flat: Flat, page: nat, i: nat, at: nat, a: nat, width: nat)
    requires HoldsBlock(data, flat, page, i) && 0 < width && at + width <= 64
    requires Aligned(a, width) == 4096 * page + 64 * i + at
    ensures data[at..at + width] == FlatRead(flat, a, width)
  {
    ReadAtBytes(data, flat, page, i, at, FlatRead(flat, a, width), Aligned(a, width));
  }

  lemma ReadAtBytes(data: Data, flat: Flat, page: nat, i: nat, at: nat, bytes: seq<byte>, base: nat)
    requires HoldsBlock(data, flat, page, i) && at + |bytes| <= 64 && base == 4096 * page + 64 * i + at
    requires forall n :: 0 <= n < |bytes| ==> bytes[n] == flat(base + n)
    ensures data[at..at + |bytes|] == bytes
  {
    forall n | 0 <= n < |bytes|
      ensures data[at + n] == bytes[n]
    {
      assert data[at + n] == flat(4096 * page + 64 * i + (at + n));
    }
    SliceIs(data, at, bytes);
  }

  lemma SliceIs(data: Data, at: nat, bytes: seq<byte>)
    requires at + |bytes| <= 64 && forall n :: 0 <= n < |bytes| ==> data[at + n] == bytes[n]
    ensures data[at..at + |bytes|] == bytes
  {
  }

  // ----- one operation

  /** The lines before `n`, in the order of the loops, are clean. */
  ghost predicate CleanBefore(s: State, n: nat)
    requires n <= 128
  {
    forall m: nat :: m < n ==> !s.sets[m / 2][m % 2].dirty
  }

  lemma OneMoreClean(s: State, n: nat)
    requires Inv(s) && n < 128 && CleanBefore(s, n)
    ensures CleanBefore(WriteBack(s, n / 2, n % 2), n + 1)
  {
    var t := WriteBack(s, n / 2, n % 2);
    forall m: nat | m < n + 1
      ensures !t.sets[m / 2][m % 2].dirty
    {
      if m < n {
        assert !s.sets[m / 2][m % 2].dirty;
      }
    }
  }

  lemma {:induction false} WriteBackLinesKeepView(s: State, n: nat)
    requires Inv(s) && n <= 128
    ensures Inv(WriteBackLines(s, n)) && SameView(s, WriteBackLines(s, n))
    ensures CleanBefore(WriteBackLines(s, n), n)
  {
    if n > 0 {
      WriteBackLinesKeepView(s, n - 1);
      var u := WriteBackLines(s, n - 1);
      WriteBackKeepsView(u, (n - 1) / 2, (n - 1) % 2);
      SameViewTrans(s, u, WriteBackLines(s, n));
      OneMoreClean(u, n - 1);
    }
  }

  lemma SameViewTrans(s: State, t: State, u: State)
    requires SameView(s, t) && SameView(t, u)
    ensures SameView(s, u)
  {
    forall k: Key | k.set_ < 64
      ensures if k.page in s.good then View(s, k) == View(u, k) else MemAt(s.mem, k) == MemAt(u.mem, k)
    {
      assert if k.page in s.good then View(s, k) == View(t, k) else MemAt(s.mem, k) == MemAt(t.mem, k);
    }
  }

  /** writebackCache makes memory equal to the view on every existing page. */
  lemma WriteBackAllMakesMemoryCurrent(s: State, k: Key)
    requires Inv(s) && k.set_ < 64 && k.page in s.good
    ensures MemAt(WriteBackLines(s, 2 * |s.sets|).mem, k) == View(s, k)
  {
    WriteBackLinesKeepView(s, 2 * |s.sets|);
    var t := WriteBackLines(s, 2 * |s.sets|);
    assert PairInv(t.sets[k.set_], k.set_, t.mem, t.good, t.lastFill[k.set_]);
    var a, b := 2 * k.set_, 2 * k.set_ + 1;
    assert a / 2 == k.set_ && a % 2 == 0 && b / 2 == k.set_ && b % 2 == 1;
    assert !t.sets[a / 2][a % 2].dirty && !t.sets[b / 2][b % 2].dirty;
    assert View(s, k) == View(t, k);
  }

  /** Everything but a write leaves the view as it is. */
  lemma QuietOpKeepsView(s: State, op: Op)
    requires Inv(s) && WellFormed(op) && !op.Write?
    ensures Inv(Exec(s, op)) && SameView(s, Exec(s, op))
  {
    match op
    case Read(page, offset, _) => PrepareIsTransparent(s, page, SetOf(offset));
    case HitWriteBackInvalidate(page, offset) =>
      var way := Find(s.sets[SetOf(offset)], page);
      if way < 2 {
        WriteBackInvalidateKeepsView(s, SetOf(offset), way);
      }
    case HitWriteBack(page, offset) =>
      var way := Find(s.sets[SetOf(offset)], page);
      if way < 2 {
        WriteBackKeepsView(s, SetOf(offset), way);
      }
    case IndexWriteBackInvalidate(i, way) => WriteBackInvalidateKeepsView(s, i, way);
    case LoadTag(i, way) => WriteBackKeepsView(s, i, way);
    case WriteBackAll => WriteBackLinesKeepView(s, 2 * |s.sets|);
  }

  /** What a program sees, in bytes. */
  ghost predicate SameBytes(s: State, t: State) {
    && t.good == s.good
    && forall a: nat :: if Exists(s, a) then Seen(t, a) == Seen(s, a) else InMemory(t.mem, a) == InMemory(s.mem, a)
  }

  lemma SameViewIsSameBytes(s: State, t: State)
    requires SameView(s, t)
    ensures SameBytes(s, t)
  {
    forall a: nat
      ensures if Exists(s, a) then Seen(t, a) == Seen(s, a) else InMemory(t.mem, a) == InMemory(s.mem, a)
    {
      var k := BlockOf(a);
      assert k.set_ < 64;
      assert if k.page in s.good then View(s, k) == View(t, k) else MemAt(s.mem, k) == MemAt(t.mem, k);
    }
  }

  lemma SeenInBlock(s: State, page: nat, i: nat, j: nat)
    requires i < 64 && j < 64
    ensures var a := 4096 * page + 64 * i + j; a / 4096 == page && Seen(s, a) == View(s, Key(page, i))[j]
  {
    AddressParts(page, i, j);
  }

  lemma BlockAgrees(s: State, flat: Flat, page: nat, i: nat)
    requires Agrees(s, flat) && i < 64 && page in s.good
    ensures HoldsBlock(View(s, Key(page, i)), flat, page, i)
  {
    forall j | 0 <= j < 64
      ensures View(s, Key(page, i))[j] == flat(4096 * page + 64 * i + j)
    {
      SeenInBlock(s, page, i, j);
      assert Exists(s, 4096 * page + 64 * i + j);
    }
  }

  /** A read of an existing page returns the bytes of flat memory. */
  lemma ReadRefinesFlat(s: State, flat: Flat, page: nat, offset: nat, width: nat)
    requires Inv(s) && Agrees(s, flat) && WellFormed(Read(page, offset, width)) && page in s.good
    ensures Output(s, Read(page, offset, width)) == FlatRead(flat, Address(page, offset), width)
  {
    PrepareIsTransparent(s, page, SetOf(offset));
    BlockAgrees(s, flat, page, SetOf(offset));
    ReadOfBlock(View(s, Key(page, SetOf(offset))), flat, page, offset, width);
  }

  lemma PatchedByte(d: Data, at: nat, bytes: seq<byte>, j: nat)
    requires at + |bytes| <= 64 && j < 64
    ensures Patch(d, at, bytes)[j] == if at <= j < at + |bytes| then bytes[j - at] else d[j]
  {
  }

  /** A write changes exactly the bytes at its addresses, as far as they exist. */
  lemma WriteChangesSeen(s: State, page: nat, offset: nat, bytes: seq<byte>, a: nat)
    requires Inv(s) && WellFormed(Write(page, offset, bytes))
    ensures var t := Exec(s, Write(page, offset, bytes));
            && Inv(t) && t.good == s.good
            && if Exists(s, a) then Seen(t, a) == FlatWrite((b: nat) => Seen(s, b), Address(page, offset), bytes)(a)
               else InMemory(t.mem, a) == InMemory(s.mem, a)
  {
    var at, k := At(offset, |bytes|), Key(page, SetOf(offset));
    WriteChangesOwnBytes(s, page, SetOf(offset), at, bytes);
    var t := Exec(s, Write(page, offset, bytes));
    if BlockOf(a) == k {
      AccessParts(page, offset, |bytes|);
      Recomposed(a);
      if page in s.good {
        PatchedIsWritten(s, View(t, k), View(s, k), at, bytes, Address(page, offset), a);
      }
    } else {
      NotWritten(page, offset, |bytes|, a);
      assert BlockOf(a).set_ < 64;
    }
  }

  lemma PatchedIsWritten(s: State, d: Data, was: Data, at: nat, bytes: seq<byte>, start: nat, a: nat)
    requires 0 < |bytes| && at + |bytes| <= 64 && d == Patch(was, at, bytes) && was == View(s, BlockOf(a))
    requires a - Aligned(start, |bytes|) == a % 64 - at
    ensures d[a % 64] == FlatWrite((b: nat) => Seen(s, b), start, bytes)(a)
  {
    PatchedByte(was, at, bytes, a % 64);
  }

  /** A write touches no other block than its own. */
  lemma NotWritten(page: nat, offset: nat, width: nat, a: nat)
    requires offset < 4096 && IsWidth(width) && BlockOf(a) != Key(page, SetOf(offset))
    ensures var base := Aligned(Address(page, offset), width); !(base <= a < base + width)
  {
    var base := Aligned(Address(page, offset), width);
    if base <= a < base + width {
      WithinBlock(page, offset, width, a - base);
    }
  }

  /** One operation: a read of an existing page returns what flat memory returns, what is seen stays
      in agreement with it, and memory that does not exist is not written. */
  lemma OpRefinesFlat(s: State, flat: Flat, op: Op)
    requires Inv(s) && Agrees(s, flat) && WellFormed(op)
    ensures Inv(Exec(s, op)) && Exec(s, op).good == s.good
    ensures Agrees(Exec(s, op), FlatExec(flat, op))
    ensures op.Read? && op.page in s.good ==> Output(s, op) == FlatOutput(flat, op)
    ensures SameNowhere(s, Exec(s, op))
  {
    if op.Write? {
      WriteRefinesFlat(s, flat, op.page, op.offset, op.bytes);
    } else {
      QuietOpKeepsView(s, op);
      SameViewIsSameBytes(s, Exec(s, op));
      if op.Read? && op.page in s.good {
        ReadRefinesFlat(s, flat, op.page, op.offset, op.width);
      }
    }
  }

  lemma WriteRefinesFlat(s: State, flat: Flat, page: nat, offset: nat, bytes: seq<byte>)
    requires Inv(s) && Agrees(s, flat) && WellFormed(Write(page, offset, bytes))
    ensures var op := Write(page, offset, bytes);
            && Inv(Exec(s, op)) && Exec(s, op).good == s.good
            && Agrees(Exec(s, op), FlatExec(flat, op)) && SameNowhere(s, Exec(s, op))
  {
    var t := Exec(s, Write(page, offset, bytes));
    WriteChangesSeen(s, page, offset, bytes, 0);
    forall a: nat
      ensures if Exists(s, a) then Seen(t, a) == FlatWrite(flat, Address(page, offset), bytes)(a)
              else InMemory(t.mem, a) == InMemory(s.mem, a)
    {
      WriteChangesSeen(s, page, offset, bytes, a);
    }
  }

  /** Memory that does not exist. */
  ghost predicate SameNowhere(s: State, t: State) {
    forall a: nat :: !Exists(s, a) ==> InMemory(t.mem, a) == InMemory(s.mem, a)
  }

  // ----- whole runs

  function Run(s: State, ops: seq<Op>): State
    requires forall op :: op in ops ==> WellFormed(op)
  {
    if ops == [] then s else Exec(Run(s, ops[..|ops| - 1]), ops[|ops| - 1])
  }

  function FlatRun(flat: Flat, ops: seq<Op>): Flat
    requires forall op :: op in ops ==> WellFormed(op)
  {
    if ops == [] then flat else FlatExec(FlatRun(flat, ops[..|ops| - 1]), ops[|ops| - 1])
  }

  /** For every run of cached reads, writes and write-back operations, of any widths and in any
      order, the cache is flat memory: what is seen agrees at every point and address, at most one way
      per set matches a page and every clean line equals memory (the invariant), and memory that does
      not exist keeps its contents. */
  lemma {:induction false} RunRefinesFlat(s: State, flat: Flat, ops: seq<Op>)
    requires Inv(s) && Agrees(s, flat) && forall op :: op in ops ==> WellFormed(op)
    ensures Inv(Run(s, ops)) && Run(s, ops).good == s.good
    ensures Agrees(Run(s, ops), FlatRun(flat, ops))
    ensures SameNowhere(s, Run(s, ops))
  {
    if ops != [] {
      var prior := ops[..|ops| - 1];
      RunRefinesFlat(s, flat, prior);
      OpRefinesFlat(Run(s, prior), FlatRun(flat, prior), ops[|ops| - 1]);
    }
  }

  /** In particular, after any run from a reset cache a read returns what flat memory returns. */
  lemma ReadAfterRun(mem: Memory, good: set<nat>, ops: seq<Op>, page: nat, offset: nat, width: nat)
    requires forall op :: op in ops ==> WellFormed(op)
    requires WellFormed(Read(page, offset, width)) && page in good
    ensures Output(Run(Reset(mem, good), ops), Read(page, offset, width))
            == FlatRead(FlatRun((a: nat) => InMemory(mem, a), ops), Address(page, offset), width)
  {
    var flat := (a: nat) => InMemory(mem, a);
    ResetHasInv(mem, good);
    RunRefinesFlat(Reset(mem, good), flat, ops);
    OpRefinesFlat(Run(Reset(mem, good), ops), FlatRun(flat, ops), Read(page, offset, width));
  }

  // ----- what the write-back operations write back

  predicate IsWriteBack(op: Op) {
    !op.Read? && !op.Write?
  }

  predicate Invalidates(op: Op) {
    op.HitWriteBackInvalidate? || op.IndexWriteBackInvalidate?
  }

  /** The operation is about the cached copy of this address. */
  predicate Addresses(s: State, op: Op, a: nat)
    requires WellFormed(op) && IsWriteBack(op)
  {
    match op
    case HitWriteBackInvalidate(page, offset) => a / 64 == Address(page, offset) / 64
    case HitWriteBack(page, offset) => a / 64 == Address(page, offset) / 64
    case IndexWriteBackInvalidate(i, way) => a / 64 % 64 == i && Matches(s.sets[i][way], a / 4096)
    case LoadTag(i, way) => a / 64 % 64 == i && Matches(s.sets[i][way], a / 4096)
    case WriteBackAll => true
  }

  /** An address is in the block of an access iff they are the same 64 bytes. */
  lemma SameBlockIff(page: nat, offset: nat, a: nat)
    requires offset < 4096
    ensures a / 64 == Address(page, offset) / 64 <==> BlockOf(a) == Key(page, SetOf(offset))
    ensures Address(page, offset) / 64 % 64 == SetOf(offset)
  {
    var i, j := offset / 64, offset % 64;
    AddressParts(page, i, j);
    Arithmetic.Unique(i, 64, 0, i);
    assert Address(page, offset) == 4096 * page + 64 * i + j;
    Recomposed(a);
    AddressParts(a / 4096, a / 64 % 64, a % 64);
  }

  /** The blocks of set `i`, for each page, after the line at `way` is written back. */
  lemma PairMemory(p: Pair, i: nat, m: Memory, good: set<nat>, last: nat, way: nat, k: Key)
    requires PairInv(p, i, m, good, last) && way < 2
    ensures MemAt(MemAfterWriteBack(p[way], i, m), k)
         == if k.set_ == i && Matches(p[way], k.page) && k.page in good then PairView(p, m, k) else MemAt(m, k)
  {
  }

  lemma LineMemory(s: State, i: nat, way: nat, a: nat)
    requires Inv(s) && i < 64 && way < 2
    ensures InMemory(WriteBack(s, i, way).mem, a)
         == if a / 64 % 64 == i && Matches(s.sets[i][way], a / 4096) && Exists(s, a) then Seen(s, a) else InMemory(s.mem, a)
  {
    assert PairInv(s.sets[i], i, s.mem, s.good, s.lastFill[i]);
    PairMemory(s.sets[i], i, s.mem, s.good, s.lastFill[i], way, BlockOf(a));
  }

  /** A hit operation finds the one line of its address, or memory is what is seen there already. */
  lemma HitMemory(s: State, page: nat, offset: nat, a: nat)
    requires Inv(s) && offset < 4096
    ensures var i, way := SetOf(offset), Find(s.sets[SetOf(offset)], page);
            InMemory(if way == 2 then s.mem else WriteBack(s, i, way).mem, a)
            == if a / 64 == Address(page, offset) / 64 && Exists(s, a) then Seen(s, a) else InMemory(s.mem, a)
  {
    var i, way := SetOf(offset), Find(s.sets[SetOf(offset)], page);
    SameBlockIff(page, offset, a);
    if way < 2 {
      LineMemory(s, i, way, a);
    }
  }

  /** Memory after any write-back operation: at the addresses it is about, if they exist, what was seen
      before; everywhere else, what it held before. */
  lemma MemoryAfterWriteBack(s: State, op: Op, a: nat)
    requires Inv(s) && WellFormed(op) && IsWriteBack(op)
    ensures InMemory(Exec(s, op).mem, a) == if Addresses(s, op, a) && Exists(s, a) then Seen(s, a) else InMemory(s.mem, a)
  {
    match op
    case HitWriteBackInvalidate(page, offset) => HitMemory(s, page, offset, a);
    case HitWriteBack(page, offset) => HitMemory(s, page, offset, a);
    case IndexWriteBackInvalidate(i, way) => LineMemory(s, i, way, a);
    case LoadTag(i, way) => LineMemory(s, i, way, a);
    case WriteBackAll =>
      if Exists(s, a) {
        WriteBackAllMakesMemoryCurrent(s, BlockOf(a));
      } else {
        WriteBackLinesKeepView(s, 2 * |s.sets|);
        SameViewIsSameBytes(s, Exec(s, op));
      }
  }

  /** The operation is about this line. */
  predicate Selects(s: State, op: Op, i: nat, way: nat)
    requires WellFormed(op) && IsWriteBack(op) && i < 64 && way < 2
  {
    match op
    case HitWriteBackInvalidate(page, offset) => i == Address(page, offset) / 64 % 64 && Matches(s.sets[i][way], page)
    case HitWriteBack(page, offset) => i == Address(page, offset) / 64 % 64 && Matches(s.sets[i][way], page)
    case IndexWriteBackInvalidate(j, w) => i == j && way == w
    case LoadTag(j, w) => i == j && way == w
    case WriteBackAll => true
  }

  /** The line that a write-back operation leaves: gone, but for its LRF flag, or as it was and clean. */
  predicate LineAfter(before: Line, after: Line, op: Op) {
    && after.lrf == before.lrf
    && if Invalidates(op) then !after.valid && !after.dirty && !after.lock && after.data == Zeros()
       else !after.dirty && before == Line(after.page, after.valid, before.dirty, after.lrf, after.lock, after.validPfn, after.data)
  }

  lemma OneLineAfter(s: State, op: Op, i: nat, way: nat, t: State)
    requires Inv(s) && i < 64 && way < 2
    requires t == if Invalidates(op) then Clear(WriteBack(s, i, way), i, way) else WriteBack(s, i, way)
    ensures LineAfter(s.sets[i][way], t.sets[i][way], op)
    ensures forall j, w :: 0 <= j < 64 && 0 <= w < 2 && (j != i || w != way) ==> t.sets[j][w] == s.sets[j][w]
  {
    assert PairInv(s.sets[i], i, s.mem, s.good, s.lastFill[i]);
  }

  lemma HitSelects(s: State, page: nat, offset: nat, i: nat, way: nat)
    requires Inv(s) && offset < 4096 && i < 64 && way < 2
    ensures i == Address(page, offset) / 64 % 64 && Matches(s.sets[i][way], page)
       <==> i == SetOf(offset) && way == Find(s.sets[i], page)
  {
    assert PairInv(s.sets[i], i, s.mem, s.good, s.lastFill[i]);
    SameBlockIff(page, offset, 0);
  }

  /** Every line after a write-back operation: the lines it is about are clean or gone, the others stay. */
  lemma LinesAfterWriteBack(s: State, op: Op, i: nat, way: nat)
    requires Inv(s) && WellFormed(op) && IsWriteBack(op) && i < 64 && way < 2
    ensures var before, after := s.sets[i][way], Exec(s, op).sets[i][way];
            if Selects(s, op, i, way) then LineAfter(before, after, op) else after == before
  {
    match op
    case HitWriteBackInvalidate(page, offset) => HitLineAfter(s, op, page, offset, i, way);
    case HitWriteBack(page, offset) => HitLineAfter(s, op, page, offset, i, way);
    case IndexWriteBackInvalidate(j, w) => OneLineAfter(s, op, j, w, Exec(s, op));
    case LoadTag(j, w) => OneLineAfter(s, op, j, w, Exec(s, op));
    case WriteBackAll => AllLinesAfter(s, i, way);
  }

  lemma AllLinesAfter(s: State, i: nat, way: nat)
    requires Inv(s) && i < 64 && way < 2
    ensures LineAfter(s.sets[i][way], Exec(s, WriteBackAll).sets[i][way], WriteBackAll)
  {
    var n := 2 * i + way;
    EveryLineAfter(s, 2 * |s.sets|, i, way);
    WriteBackLinesKeepView(s, 2 * |s.sets|);
    assert n / 2 == i && n % 2 == way;
    assert !WriteBackLines(s, 2 * |s.sets|).sets[n / 2][n % 2].dirty;
  }

  lemma HitLineAfter(s: State, op: Op, page: nat, offset: nat, i: nat, way: nat)
    requires Inv(s) && offset < 4096 && i < 64 && way < 2
    requires op == HitWriteBackInvalidate(page, offset) || op == HitWriteBack(page, offset)
    ensures var before, after := s.sets[i][way], Exec(s, op).sets[i][way];
            if Selects(s, op, i, way) then LineAfter(before, after, op) else after == before
  {
    var j := SetOf(offset);
    HitSelects(s, page, offset, i, way);
    if Find(s.sets[j], page) < 2 {
      OneLineAfter(s, op, j, Find(s.sets[j], page), Exec(s, op));
    }
  }

  /** writebackCache touches nothing but the dirty flags. */
  lemma {:induction false} EveryLineAfter(s: State, n: nat, i: nat, way: nat)
    requires n <= 128 && i < 64 && way < 2
    ensures var before, after := s.sets[i][way], WriteBackLines(s, n).sets[i][way];
            before == Line(after.page, after.valid, before.dirty, after.lrf, after.lock, after.validPfn, after.data)
  {
    if n > 0 {
      EveryLineAfter(s, n - 1, i, way);
      LineCleaned(WriteBackLines(s, n - 1), (n - 1) / 2, (n - 1) % 2, i, way);
    }
  }

  lemma LineCleaned(s: State, i: nat, way: nat, j: nat, w: nat)
    requires i < 64 && way < 2 && j < 64 && w < 2
    ensures var before, after := s.sets[j][w], WriteBack(s, i, way).sets[j][w];
            before == Line(after.page, after.valid, before.dirty, after.lrf, after.lock, after.validPfn, after.data)
  {
  }

  /** What the program can rely on at an existing address: after DHWBIN and DXWBIN its line is in neither
      way; after DHWOIN and DXLTG the line is where it was, and clean. */
  lemma CopyAfterWriteBack(s: State, op: Op, a: nat)
    requires Inv(s) && WellFormed(op) && IsWriteBack(op) && Addresses(s, op, a)
    ensures var i, page := a / 64 % 64, a / 4096;
            var way, way' := Find(s.sets[i], page), Find(Exec(s, op).sets[i], page);
            && (Invalidates(op) ==> way' == 2)
            && (!Invalidates(op) ==> way' == way && (way < 2 ==> !Exec(s, op).sets[i][way].dirty))
  {
    var i, page := a / 64 % 64, a / 4096;
    LinesAfterWriteBack(s, op, i, 0);
    LinesAfterWriteBack(s, op, i, 1);
    SelectsCopy(s, op, a, 0);
    SelectsCopy(s, op, a, 1);
  }

  /** The copies of an address that the operation is about are among the lines it is about. */
  lemma SelectsCopy(s: State, op: Op, a: nat, way: nat)
    requires Inv(s) && WellFormed(op) && IsWriteBack(op) && Addresses(s, op, a) && way < 2
    ensures Matches(s.sets[a / 64 % 64][way], a / 4096) ==> Selects(s, op, a / 64 % 64, way)
  {
    var i := a / 64 % 64;
    assert PairInv(s.sets[i], i, s.mem, s.good, s.lastFill[i]);
    if op.HitWriteBackInvalidate? || op.HitWriteBack? {
      SameBlockIff(op.page, op.offset, a);
    }
  }

  // ----- pages that do not exist

  /** The same cache over memories that differ at most on pages that do not exist. */
  ghost predicate AlikeWhereGood(s: State, t: State) {
    && t == s.(mem := t.mem)
    && forall k: Key :: k.page in s.good ==> MemAt(s.mem, k) == MemAt(t.mem, k)
  }

  lemma WriteBackAlike(s: State, t: State, i: nat, way: nat)
    requires AlikeWhereGood(s, t) && i < 64 && way < 2
    ensures AlikeWhereGood(WriteBack(s, i, way), WriteBack(t, i, way))
  {
  }

  lemma PrepareAlike(s: State, t: State, page: nat, i: nat)
    requires AlikeWhereGood(s, t) && i < 64
    ensures AlikeWhereGood(Prepare(s, page, i), Prepare(t, page, i))
  {
    var way := ChosenWay(s.sets[i], page);
    WriteBackAlike(s, t, i, way);
    var a, b := WriteBack(s, i, way), WriteBack(t, i, way);
    assert page in s.good ==> MemAt(a.mem, Key(page, i)) == MemAt(b.mem, Key(page, i));
  }

  lemma {:induction false} WriteBackLinesAlike(s: State, t: State, n: nat)
    requires AlikeWhereGood(s, t) && n <= 128
    ensures AlikeWhereGood(WriteBackLines(s, n), WriteBackLines(t, n))
  {
    if n > 0 {
      WriteBackLinesAlike(s, t, n - 1);
      WriteBackAlike(WriteBackLines(s, n - 1), WriteBackLines(t, n - 1), (n - 1) / 2, (n - 1) % 2);
    }
  }

  lemma ExecAlike(s: State, t: State, op: Op)
    requires AlikeWhereGood(s, t) && WellFormed(op)
    ensures AlikeWhereGood(Exec(s, op), Exec(t, op)) && Output(s, op) == Output(t, op)
  {
    match op
    case Read(page, offset, _) => PrepareAlike(s, t, page, SetOf(offset));
    case Write(page, offset, bytes) => PrepareAlike(s, t, page, SetOf(offset));
    case HitWriteBackInvalidate(page, offset) =>
      var way := Find(s.sets[SetOf(offset)], page);
      if way < 2 {
        WriteBackAlike(s, t, SetOf(offset), way);
      }
    case HitWriteBack(page, offset) =>
      var way := Find(s.sets[SetOf(offset)], page);
      if way < 2 {
        WriteBackAlike(s, t, SetOf(offset), way);
      }
    case IndexWriteBackInvalidate(i, way) => WriteBackAlike(s, t, i, way);
    case LoadTag(i, way) => WriteBackAlike(s, t, i, way);
    case WriteBackAll => WriteBackLinesAlike(s, t, 2 * |s.sets|);
  }

  /** Pages that do not exist are never read: what memory holds there has no effect on the cache,
      on existing memory or on the result of any read, in any run, locked lines included. */
  lemma {:induction false} NonexistentPagesAreNeverRead(s: State, t: State, ops: seq<Op>, op: Op)
    requires AlikeWhereGood(s, t) && WellFormed(op) && forall o :: o in ops ==> WellFormed(o)
    ensures AlikeWhereGood(Run(s, ops), Run(t, ops))
    ensures Output(Run(s, ops), op) == Output(Run(t, ops), op)
  {
    if ops != [] {
      var prior, last := ops[..|ops| - 1], ops[|ops| - 1];
      NonexistentPagesAreNeverRead(s, t, prior, last);
      ExecAlike(Run(s, prior), Run(t, prior), last);
    }
    ExecAlike(Run(s, ops), Run(t, ops), op);
  }

  // ----- locked lines

  /** A read that hits a locked line whose other way is free returns the bytes of the other way,
      whatever page it holds, and loads nothing. */
  lemma LockedHitReadsOtherWay(s: State, page: nat, offset: nat, width: nat)
    requires WellFormed(Read(page, offset, width)) && LockedHit(s.sets[SetOf(offset)], page)
    ensures var i := SetOf(offset);
            var other := s.sets[i][1 - Find(s.sets[i], page)];
            && Exec(s, Read(page, offset, width)) == s
            && Output(s, Read(page, offset, width)) == other.data[At(offset, width)..At(offset, width) + width]
  {
  }

  /** An instance: page 1 is cached and locked, page 2 sits in the other way; reading page 1 gives
      the byte of page 2. */
  lemma LockedHitReturnsAnotherPage() returns (s: State)
    ensures Output(s, Read(1, 0, 1)) == [7] && View(s, Key(1, 0))[0] == 0 && View(s, Key(2, 0))[0] == 7
  {
    var sevens: Data := seq(64, _ => 7);
    var locked := Line(1, true, false, false, true, true, Zeros());
    var free := Line(2, true, false, false, false, true, sevens);
    s := Reset(map[], {1, 2});
    s := s.(sets := s.sets[0 := [locked, free]]);
    assert LockedHit(s.sets[SetOf(0)], 1);
    LockedHitReadsOtherWay(s, 1, 0, 1);
    assert At(0, 1) == 0 && sevens[0..1] == [7];
  }

  predicate IsAccess(op: Op) {
    op.Read? || op.Write?
  }

  predicate AllAccesses(ops: seq<Op>) {
    forall op :: op in ops ==> WellFormed(op) && IsAccess(op)
  }

  /** No access locks or unlocks a line, and one that is locked beside a free one is left alone, by a read or
      a write of its own page too. */
  lemma AccessKeepsLocks(s: State, op: Op, i: nat, way: nat)
    requires WellFormed(op) && IsAccess(op) && i < 64 && way < 2
    ensures Exec(s, op).sets[i][way].lock == s.sets[i][way].lock
    ensures s.sets[i][way].lock && !s.sets[i][1 - way].lock ==> Exec(s, op).sets[i][way] == s.sets[i][way]
  {
    var p := s.sets[SetOf(op.offset)];
    if i == SetOf(op.offset) {
      assert p[way].lock && !p[1 - way].lock ==> ChosenWay(p, op.page) == 1 - way;
    }
  }

  /** So in every run of reads and writes, whatever is cached and from any state, such a line stays. */
  lemma {:induction false} LockedLineStays(s: State, ops: seq<Op>, i: nat, way: nat)
    requires AllAccesses(ops) && i < 64 && way < 2 && s.sets[i][way].lock && !s.sets[i][1 - way].lock
    ensures Run(s, ops).sets[i][way] == s.sets[i][way] && !Run(s, ops).sets[i][1 - way].lock
  {
    if ops != [] {
      var before, op := ops[..|ops| - 1], ops[|ops| - 1];
      LockedLineStays(s, before, i, way);
      LockedLineStaysOnce(Run(s, before), op, i, way);
    }
  }

  lemma LockedLineStaysOnce(s: State, op: Op, i: nat, way: nat)
    requires WellFormed(op) && IsAccess(op) && i < 64 && way < 2 && s.sets[i][way].lock && !s.sets[i][1 - way].lock
    ensures Exec(s, op).sets[i][way] == s.sets[i][way] && !Exec(s, op).sets[i][1 - way].lock
  {
    AccessKeepsLocks(s, op, i, way);
    AccessKeepsLocks(s, op, i, 1 - way);
  }

  /** With both lines locked a miss replaces the one that an unlocked set would spare. */
  lemma BothLockedMiss(s: State, page: nat, i: nat)
    requires i < 64 && Find(s.sets[i], page) == 2 && s.sets[i][0].lock && s.sets[i][1].lock
    ensures var spared := Victim(s.sets[i]);
            Prepare(s, page, i).sets[i][spared] == s.sets[i][spared] && Matches(Prepare(s, page, i).sets[i][1 - spared], page)
  {
  }

  // ----- runs that also invalidate

  /** DHIN and DXIN drop a line without writing it back. */
  datatype AnyOp =
    | Coherent(op: Op)
    | HitInvalidate(page: nat, offset: nat)
    | IndexInvalidate(set_: nat, way: nat)

  predicate AnyWellFormed(op: AnyOp) {
    match op
    case Coherent(o) => WellFormed(o)
    case HitInvalidate(_, offset) => offset < 4096
    case IndexInvalidate(i, way) => i < 64 && way < 2
  }

  function ExecAny(s: State, op: AnyOp): State
    requires AnyWellFormed(op)
  {
    match op
    case Coherent(o) => Exec(s, o)
    case HitInvalidate(page, offset) =>
      var way := Find(s.sets[SetOf(offset)], page);
      if way == 2 then s else Clear(s, SetOf(offset), way)
    case IndexInvalidate(i, way) => Clear(s, i, way)
  }

  /** The operation drops the cached copy of this address. */
  predicate Drops(s: State, op: AnyOp, a: nat)
    requires AnyWellFormed(op)
  {
    match op
    case Coherent(_) => false
    case HitInvalidate(page, offset) => a / 64 == Address(page, offset) / 64
    case IndexInvalidate(i, way) => a / 64 % 64 == i && Matches(s.sets[i][way], a / 4096)
  }

  /** What a program sees at an address after the operation: dropped bytes revert to memory, a write
      changes its own bytes, every other byte stays as it was. */
  function SeenAfter(s: State, op: AnyOp, a: nat): byte
    requires AnyWellFormed(op)
  {
    if Drops(s, op, a) then InMemory(s.mem, a)
    else if op.Coherent? then FlatExec((b: nat) => Seen(s, b), op.op)(a)
    else Seen(s, a)
  }

  lemma LineDropped(s: State, i: nat, way: nat, a: nat)
    requires Inv(s) && i < 64 && way < 2
    ensures var t := Clear(s, i, way);
            && Inv(t) && t.good == s.good && t.mem == s.mem
            && Seen(t, a) == if a / 64 % 64 == i && Matches(s.sets[i][way], a / 4096) then InMemory(s.mem, a) else Seen(s, a)
  {
    InvalidateRevertsOneLine(s, i, way);
    assert BlockOf(a).set_ < 64;
  }

  lemma HitDropsOneBlock(s: State, page: nat, offset: nat, a: nat)
    requires Inv(s) && offset < 4096
    ensures var t := ExecAny(s, HitInvalidate(page, offset));
            && Inv(t) && t.good == s.good && t.mem == s.mem
            && Seen(t, a) == SeenAfter(s, HitInvalidate(page, offset), a)
  {
    var i := SetOf(offset);
    var way := Find(s.sets[i], page);
    SameBlockIff(page, offset, a);
    if way < 2 {
      LineDropped(s, i, way, a);
    }
  }

  lemma AnyOpEffect(s: State, op: AnyOp, a: nat)
    requires Inv(s) && AnyWellFormed(op)
    ensures Inv(ExecAny(s, op)) && ExecAny(s, op).good == s.good
    ensures Exists(s, a) ==> Seen(ExecAny(s, op), a) == SeenAfter(s, op, a)
  {
    match op
    case Coherent(o) =>
      if o.Write? {
        WriteChangesSeen(s, o.page, o.offset, o.bytes, a);
      } else {
        QuietOpKeepsView(s, o);
        SameViewIsSameBytes(s, Exec(s, o));
      }
    case HitInvalidate(page, offset) => HitDropsOneBlock(s, page, offset, a);
    case IndexInvalidate(i, way) => LineDropped(s, i, way, a);
  }

  function RunAny(s: State, ops: seq<AnyOp>): State
    requires forall op :: op in ops ==> AnyWellFormed(op)
  {
    if ops == [] then s else ExecAny(RunAny(s, ops[..|ops| - 1]), ops[|ops| - 1])
  }

  /** In every run that also invalidates, the invariant holds at every point, and each operation
      changes what is seen of existing pages only as it should: an invalidation reverts the block it
      drops to memory and leaves all the others. */
  lemma {:induction false} AnyRunEffect(s: State, ops: seq<AnyOp>, op: AnyOp, a: nat)
    requires Inv(s) && AnyWellFormed(op) && (forall o :: o in ops ==> AnyWellFormed(o))
    requires Exists(s, a)
    ensures var r := RunAny(s, ops);
            && Inv(r) && r.good == s.good
            && Seen(ExecAny(r, op), a) == SeenAfter(r, op, a)
  {
    if ops != [] {
      var prior, last := ops[..|ops| - 1], ops[|ops| - 1];
      AnyRunEffect(s, prior, last, a);
      AnyOpEffect(RunAny(s, prior), last, a);
    }
    AnyOpEffect(RunAny(s, ops), op, a);
  }
}
