/** The streaming interface of common/MD5Digest.cpp over an arbitrary block function.

    The specification follows sections 3.1 to 3.4 of RFC 1321: the message is padded to a whole
    number of 64-byte blocks ending in its length in bits, and the block function is folded over
    the blocks. */
module Md5Stream {

  import opened Words
  import opened Bytes
  import Arithmetic

  type Block = b: seq<byte> | |b| == 64 witness seq(64, _ => 0)

  /** The chaining value after the first `n` blocks of `m`. */
  function Absorb<Chain>(f: (Chain, Block) -> Chain, init: Chain, m: seq<byte>, n: nat): Chain
    requires 64 * n <= |m|
  {
    if n == 0 then init else f(Absorb(f, init, m, n - 1), m[64 * (n - 1)..64 * n])
  }

  /** Later bytes do not matter. */
  lemma {:induction false} AbsorbPrefix<Chain>(f: (Chain, Block) -> Chain, init: Chain, m: seq<byte>, more: seq<byte>, n: nat)
    requires 64 * n <= |m|
    ensures Absorb(f, init, m + more, n) == Absorb(f, init, m, n)
  {
    if n > 0 {
      AbsorbPrefix(f, init, m, more, n - 1);
      assert (m + more)[64 * (n - 1)..64 * n] == m[64 * (n - 1)..64 * n];
    }
  }

  function BitCount(m: seq<byte>): nat {
    8 * |m| % TWO_64
  }

  /** Zero bytes between the 0x80 and the length: enough to reach 56 modulo 64. */
  function PadZeros(length: nat): nat {
    (119 - length % 64) % 64
  }

  /** The padded message. */
  function Padded(m: seq<byte>): (p: seq<byte>)
    ensures |p| == |m| + 9 + PadZeros(|m|)
  {
    m + [0x80] + ZeroBytes(PadZeros(|m|)) + Le32(U32(BitCount(m))) + Le32(U32(BitCount(m) / TWO_32))
  }

  /** Padding fills whole blocks. */
  lemma PaddingFillsBlocks(length: nat)
    ensures (length + 9 + PadZeros(length)) % 64 == 0
  {
  }

  /** No two messages are padded to the same bytes. */
  lemma PaddingIsInjective(m: seq<byte>, n: seq<byte>)
    requires Padded(m) == Padded(n)
    ensures m == n
  {
    var p := Padded(m);
    CountOfPadded(m);
    CountOfPadded(n);
    SameLength(|m|, |n|);
    assert p[..|m|] == m && p[..|n|] == n;
  }

  /** The last eight bytes hold the length in bits. */
  lemma CountOfPadded(m: seq<byte>)
    ensures var p := Padded(m); Get32(p, |p| - 8) + TWO_32 * Get32(p, |p| - 4) == BitCount(m)
  {
    var lead, lo, hi := m + [0x80] + ZeroBytes(PadZeros(|m|)), U32(BitCount(m)), U32(BitCount(m) / TWO_32);
    assert Padded(m) == lead + Le32(lo) + Le32(hi) && Padded(m) == (lead + Le32(lo)) + Le32(hi) + [];
    Get32Back(lead, lo, Le32(hi));
    Get32Back(lead + Le32(lo), hi, []);
  }

  lemma SameLength(a: nat, b: nat)
    requires a + 9 + PadZeros(a) == b + 9 + PadZeros(b) && 8 * a % TWO_64 == 8 * b % TWO_64
    ensures a == b
  {
    if a < b {
      Arithmetic.WrapIsInjective(8 * a, 8 * b, TWO_64);
    } else {
      Arithmetic.WrapIsInjective(8 * b, 8 * a, TWO_64);
    }
  }

  /** The digest of a whole message, in one shot. */
  function Digest<Chain>(f: (Chain, Block) -> Chain, init: Chain, m: seq<byte>): Chain {
    Absorb(f, init, Padded(m), |Padded(m)| / 64)
  }

  /** The carry logic of Update: adding `8 * cb` to a 64-bit count kept in two words. */
  lemma CarryIsExact(lo: u32, hi: u32, cb: u32)
    ensures var sum := U32(lo + U32(8 * cb));
            var high := U32(U32(hi + (if sum < lo then 1 else 0)) + cb / 0x2000_0000);
            sum + TWO_32 * high == (lo + TWO_32 * hi + 8 * cb) % TWO_64
  {
    var sum := U32(lo + U32(8 * cb));
    var carry := if sum < lo then 1 else 0;
    var total := hi + carry + cb / 0x2000_0000;
    U32Add(hi + carry, cb / 0x2000_0000);
    HighWords(sum, total);
    assert lo + TWO_32 * hi + 8 * cb == sum + TWO_32 * total by {
      LowCarry(lo, cb);
    }
  }

  lemma U32Add(x: nat, y: nat)
    ensures U32(U32(x) + y) == U32(x + y)
  {
    Arithmetic.AddMultiple(U32(x) + y, TWO_32, x / TWO_32);
  }

  lemma LowCarry(lo: u32, cb: u32)
    ensures var sum := U32(lo + U32(8 * cb));
            lo + 8 * cb == sum + TWO_32 * ((if sum < lo then 1 else 0) + cb / 0x2000_0000)
  {
    assert 8 * cb == U32(8 * cb) + TWO_32 * (cb / 0x2000_0000);
  }

  lemma HighWords(sum: u32, total: nat)
    ensures (sum + TWO_32 * total) % TWO_64 == sum + TWO_32 * U32(total)
  {
    assert sum + TWO_32 * total == (sum + TWO_32 * U32(total)) + TWO_64 * (total / TWO_32);
    Arithmetic.Unique(sum + TWO_32 * total, TWO_64, total / TWO_32, sum + TWO_32 * U32(total));
  }

  /** One more block extends the fold by one application of the block function. */
  lemma AbsorbNext<Chain>(f: (Chain, Block) -> Chain, init: Chain, m: seq<byte>, n: nat, block: Block)
    requires 64 * (n + 1) <= |m|
    requires m[64 * n..64 * (n + 1)] == block
    ensures Absorb(f, init, m, n + 1) == f(Absorb(f, init, m, n), block)
  {
  }

  /** The number of buffered bytes can be read off the low word of the bit count. */
  lemma BufferedBytes(lo: u32, hi: u32, length: nat)
    requires lo + TWO_32 * hi == 8 * length % TWO_64
    ensures lo / 8 % 64 == length % 64
  {
    var k := hi + TWO_32 * (8 * length / TWO_64);
    assert 8 * length == lo + TWO_32 * k;
    assert length == lo / 8 + 0x2000_0000 * k;
    Arithmetic.AddMultiple(lo / 8, 64, 0x80_0000 * k);
  }

  /** The bit count of a longer message. */
  lemma CountGrows(m: seq<byte>, more: seq<byte>)
    ensures (BitCount(m) + 8 * |more|) % TWO_64 == BitCount(m + more)
  {
    Arithmetic.AddMultiple(BitCount(m) + 8 * |more|, TWO_64, 8 * |m| / TWO_64);
  }

  /** The streaming digest: chaining value, bit count in two words, and the 64-byte input buffer. */
  class Md5Digest<Chain> {
    const transform: (Chain, Block) -> Chain
    const init: Chain
    const data: array<byte>
    var buf: Chain
    var lo: u32
    var hi: u32
    /** Everything hashed since the last Reset. */
    ghost var message: seq<byte>

    ghost predicate Valid()
      reads this, data
    {
      && data.Length == 64
      && buf == Absorb(transform, init, message, |message| / 64)
      && data[..|message| % 64] == message[64 * (|message| / 64)..]
      && lo + TWO_32 * hi == BitCount(message)
    }

    constructor (transform: (Chain, Block) -> Chain, init: Chain)
      ensures Valid() && fresh(data) && message == []
      ensures this.transform == transform && this.init == init
    {
      this.transform := transform;
      this.init := init;
      data := new byte[64](_ => 0);
      buf := init;
      lo, hi := 0, 0;
      message := [];
    }

    /** Starts over, whatever the state. */
    method Reset()
      requires data.Length == 64
      modifies this, data
      ensures Valid() && message == []
    {
      buf := init;
      lo, hi := 0, 0;
      CopyInto(data, 0, ZeroBytes(64));
      message := [];
      assert |message| / 64 == 0 && |message| % 64 == 0;
    }

    /** The two-word bit count with its carry. */
    method AddBits(cb: u32)
      modifies this`lo, this`hi
      ensures lo + TWO_32 * hi == (old(lo) + TWO_32 * old(hi) + 8 * cb) % TWO_64
    {
      CarryIsExact(lo, hi, cb);
      var t := lo;
      lo := U32(t + U32(8 * cb));
      if lo < t {
        hi := U32(hi + 1);
      }
      hi := U32(hi + cb / 0x2000_0000);
    }

    /** Runs the block function on the full buffer, the next block of `all`. */
    method TransformBuffer(ghost all: seq<byte>, ghost n: nat)
      requires data.Length == 64
      requires 64 * (n + 1) <= |all| && data[..] == all[64 * n..64 * (n + 1)]
      requires buf == Absorb(transform, init, all, n)
      modifies this`buf
      ensures buf == Absorb(transform, init, all, n + 1)
    {
      AbsorbNext(transform, init, all, n, data[..]);
      buf := transform(buf, data[..]);
    }

    /** Update with block-aligned input: whole blocks first, then the remaining bytes. */
    method AbsorbAligned(bytes: seq<byte>, ghost all: seq<byte>)
      requires data.Length == 64
      requires |bytes| <= |all| && all[|all| - |bytes|..] == bytes && (|all| - |bytes|) % 64 == 0
      requires buf == Absorb(transform, init, all, (|all| - |bytes|) / 64)
      modifies this`buf, data
      ensures buf == Absorb(transform, init, all, |all| / 64)
      ensures data[..|all| % 64] == all[64 * (|all| / 64)..]
    {
      var rest := bytes;
      ghost var n := (|all| - |bytes|) / 64;
      while |rest| >= 64
        invariant 64 * n + |rest| == |all| && all[64 * n..] == rest
        invariant buf == Absorb(transform, init, all, n)
      {
        CopyInto(data, 0, rest[..64]);
        assert rest[..64] == all[64 * n..64 * (n + 1)];
        assert data[..] == rest[..64];
        TransformBuffer(all, n);
        rest := rest[64..];
        n := n + 1;
      }
      CopyInto(data, 0, rest);
      assert |all| / 64 == n && |all| % 64 == |rest|;
      assert data[..|rest|] == rest;
    }

    /** However the message is split into calls, the state depends on the message alone. */
    method Update(bytes: seq<byte>)
      requires Valid() && |bytes| < TWO_32
      modifies this, data
      ensures Valid() && message == old(message) + bytes
    {
      BufferedBytes(lo, hi, |message|);
      CountGrows(message, bytes);
      var t := lo / 8 % 64;
      AddBits(|bytes|);
      AbsorbFrom(t, bytes);
      message := message + bytes;
    }

    /** Update after the bit count: `t` bytes are buffered. */
    method AbsorbFrom(t: nat, bytes: seq<byte>)
      requires data.Length == 64 && t == |message| % 64
      requires buf == Absorb(transform, init, message, |message| / 64)
      requires data[..t] == message[64 * (|message| / 64)..]
      modifies this`buf, data
      ensures var all := message + bytes;
              && buf == Absorb(transform, init, all, |all| / 64)
              && data[..|all| % 64] == all[64 * (|all| / 64)..]
    {
      ghost var all := message + bytes;
      ghost var n := |message| / 64;
      AbsorbPrefix(transform, init, message, bytes, n);
      Split(message, bytes, n, t);
      var rest := bytes;
      if t != 0 {
        if |bytes| < 64 - t {
          CopyInto(data, t, bytes);
          Arithmetic.Unique(|all|, 64, n, t + |bytes|);
          assert data[..t + |bytes|] == all[64 * n..];
          return;
        }
        rest := bytes[64 - t..];
        CopyInto(data, t, bytes[..64 - t]);
        TransformBuffer(all, n);
      }
      AbsorbAligned(rest, all);
    }

    /** The 0x80 byte and the zeros up to the length field, through a block boundary if need be. */
    method Pad(count: nat, ghost all: seq<byte>, ghost n: nat)
      requires data.Length == 64 && count < 64
      requires |message| == 64 * n + count && PadsTo(message, all, n, count)
      requires buf == Absorb(transform, init, all, n) && data[..count] == message[64 * n..]
      modifies this`buf, data
      ensures buf == Absorb(transform, init, all, |all| / 64 - 1)
      ensures data[..56] == all[|all| - 64..|all| - 8]
    {
      PadSlices(message, all, n, count);
      data[count] := 0x80;
      ghost var head := message[64 * n..] + [0x80];
      assert data[..count + 1] == head;
      var free := 63 - count;
      if free < 8 {
        CopyInto(data, count + 1, ZeroBytes(free));
        assert data[..] == head + ZeroBytes(free);
        TransformBuffer(all, n);
        CopyInto(data, 0, ZeroBytes(56));
        assert data[..56] == ZeroBytes(56);
      } else {
        CopyInto(data, count + 1, ZeroBytes(free - 8));
        assert data[..56] == head + ZeroBytes(free - 8);
      }
    }

    /** Padding, then the two words of the bit count, which complete the last block. */
    method PadAndFinish(count: nat, low: seq<byte>, high: seq<byte>, ghost all: seq<byte>, ghost n: nat)
      requires data.Length == 64 && count < 64 && |low| == |high| == 4
      requires |message| == 64 * n + count && PadsTo(message, all, n, count)
      requires all[|all| - 8..] == low + high
      requires buf == Absorb(transform, init, all, n) && data[..count] == message[64 * n..]
      modifies this`buf, data
      ensures buf == Absorb(transform, init, all, |all| / 64)
    {
      Pad(count, all, n);
      CopyInto(data, 56, low);
      CopyInto(data, 60, high);
      assert data[..] == all[|all| - 64..|all| - 8] + all[|all| - 8..];
      TransformBuffer(all, |all| / 64 - 1);
    }

    /** Padding in place gives the one-shot digest of everything hashed so far. */
    method Final() returns (digest: Chain)
      requires Valid()
      modifies this`buf, data
      ensures digest == Digest(transform, init, message)
    {
      ghost var n := |message| / 64;
      ghost var all := Padded(message);
      BufferedBytes(lo, hi, |message|);
      var count := lo / 8 % 64;
      PaddedLayout(message, lo, hi, n, count);
      AbsorbPrefix(transform, init, message, all[|message|..], n);
      PadAndFinish(count, Le32(lo), Le32(hi), all, n);
      digest := buf;
    }
  }

  /** Where a buffered tail and the bytes that follow it lie in the whole message. */
  lemma Split(before: seq<byte>, bytes: seq<byte>, n: nat, t: nat)
    requires |before| == 64 * n + t && t < 64
    ensures var all := before + bytes;
            && (t == 0 ==> all[|all| - |bytes|..] == bytes)
            && (|bytes| < 64 - t ==> all[64 * n..] == before[64 * n..] + bytes)
            && (|bytes| >= 64 - t ==> all[64 * n..64 * (n + 1)] == before[64 * n..] + bytes[..64 - t]
                                      && all[64 * (n + 1)..] == bytes[64 - t..])
  {
    var all := before + bytes;
    if |bytes| >= 64 - t {
      assert all == before + bytes[..64 - t] + bytes[64 - t..];
      assert |before + bytes[..64 - t]| == 64 * (n + 1);
    }
  }

  /** `all` is `m` followed by 0x80, zeros, and eight more bytes that complete a block. */
  ghost predicate PadsTo(m: seq<byte>, all: seq<byte>, n: nat, t: nat) {
    && |all| == 64 * (n + if t < 56 then 1 else 2)
    && |m| < |all| - 8 && all[..|m|] == m && all[|m|] == 0x80
    && forall i :: |m| < i < |all| - 8 ==> all[i] == 0
  }

  /** The last one or two blocks of a padded message, up to the length field. */
  lemma PadSlices(m: seq<byte>, all: seq<byte>, n: nat, t: nat)
    requires |m| == 64 * n + t && t < 64 && PadsTo(m, all, n, t)
    ensures t < 56 ==> all[|all| - 64..|all| - 8] == m[64 * n..] + [0x80] + ZeroBytes(55 - t)
    ensures t >= 56 ==> all[64 * n..64 * (n + 1)] == m[64 * n..] + [0x80] + ZeroBytes(63 - t)
    ensures t >= 56 ==> all[|all| - 64..|all| - 8] == ZeroBytes(56)
  {
    assert forall i :: 0 <= i < |m| ==> all[i] == m[i];
  }

  /** The padded message, position by position. */
  lemma PaddedLayout(m: seq<byte>, lo: u32, hi: u32, n: nat, t: nat)
    requires |m| == 64 * n + t && t < 64
    requires lo + TWO_32 * hi == BitCount(m)
    ensures var all := Padded(m);
            && PadsTo(m, all, n, t)
            && m + all[|m|..] == all
            && all[|all| - 8..] == Le32(lo) + Le32(hi)
  {
    var zeros, low, high := PadZeros(|m|), Le32(lo), Le32(hi);
    assert Padded(m) == m + [0x80] + ZeroBytes(zeros) + low + high by {
      LengthWords(lo, hi);
    }
    assert zeros == if t < 56 then 55 - t else 119 - t by {
      ZerosFor(n, t);
    }
    AppendLayout(m, n, t, zeros, low, high);
  }

  lemma ZerosFor(n: nat, t: nat)
    requires t < 64
    ensures PadZeros(64 * n + t) == if t < 56 then 55 - t else 119 - t
  {
  }

  lemma AppendLayout(m: seq<byte>, n: nat, t: nat, zeros: nat, low: seq<byte>, high: seq<byte>)
    requires |m| == 64 * n + t && t < 64 && |low| == |high| == 4
    requires zeros == if t < 56 then 55 - t else 119 - t
    ensures var all := m + [0x80] + ZeroBytes(zeros) + low + high;
            && PadsTo(m, all, n, t)
            && m + all[|m|..] == all
            && all[|all| - 8..] == low + high
  {
  }

  lemma LengthWords(lo: u32, hi: u32)
    ensures U32(lo + TWO_32 * hi) == lo && U32((lo + TWO_32 * hi) / TWO_32) == hi
  {
  }

  /** The bytes of the first `n` pieces. */
  function Joined(pieces: seq<seq<byte>>, n: nat): seq<byte>
    requires n <= |pieces|
  {
    if n == 0 then [] else Joined(pieces, n - 1) + pieces[n - 1]
  }

  /** A client hashing piece by piece: the result does not depend on where the pieces end. */
  method HashPieces<Chain>(transform: (Chain, Block) -> Chain, init: Chain, pieces: seq<seq<byte>>) returns (digest: Chain)
    requires forall i :: 0 <= i < |pieces| ==> |pieces[i]| < TWO_32
    ensures digest == Digest(transform, init, Joined(pieces, |pieces|))
  {
    var md5 := new Md5Digest(transform, init);
    for i := 0 to |pieces|
      invariant md5.Valid() && md5.message == Joined(pieces, i) && fresh(md5) && fresh(md5.data)
    {
      md5.Update(pieces[i]);
    }
    digest := md5.Final();
  }

  // ----- the words and the output of RFC 1321

  /** The four chaining words. */
  datatype Words4 = Words4(a: u32, b: u32, c: u32, d: u32)

  /** Section 3.3. */
  const INITIAL: Words4 := Words4(0x67452301, 0xEFCDAB89, 0x98BADCFE, 0x10325476)

  /** The same section gives them as bytes, counting up and down again. */
  lemma InitialBytes()
    ensures var s := Output(INITIAL);
            && (forall i :: 0 <= i < 8 ==> s[i] == 0x22 * i + 0x01)
            && (forall i :: 8 <= i < 16 ==> s[i] == 0xFE - 0x22 * (i - 8))
  {
    assert Le32(0x67452301) == [0x01, 0x23, 0x45, 0x67] && Le32(0xEFCDAB89) == [0x89, 0xAB, 0xCD, 0xEF];
    assert Le32(0x98BADCFE) == [0xFE, 0xDC, 0xBA, 0x98] && Le32(0x10325476) == [0x76, 0x54, 0x32, 0x10];
  }

  /** Section 3.5: the words in order, each low-order byte first. */
  function Output(w: Words4): (digest: seq<byte>)
    ensures |digest| == 16
  {
    Le32(w.a) + Le32(w.b) + Le32(w.c) + Le32(w.d)
  }

  /** The output determines the words. */
  lemma OutputIsInjective(v: Words4, w: Words4)
    requires Output(v) == Output(w)
    ensures v == w
  {
    WordsOfOutput(v);
    WordsOfOutput(w);
  }

  lemma WordsOfOutput(w: Words4)
    ensures var s := Output(w);
            w == Words4(Get32(s, 0), Get32(s, 4), Get32(s, 8), Get32(s, 12))
  {
    var s := Output(w);
    var a, b, c, d := Le32(w.a), Le32(w.b), Le32(w.c), Le32(w.d);
    assert s == [] + a + (b + c + d) && s == a + b + (c + d) && s == (a + b) + c + d && s == (a + b + c) + d + [];
    Get32Back([], w.a, b + c + d);
    Get32Back(a, w.b, c + d);
    Get32Back(a + b, w.c, d);
    Get32Back(a + b + c, w.d, []);
  }

  /** The sixteen bytes a client of the class gets for a message cut into pieces. */
  method Md5OfPieces(transform: (Words4, Block) -> Words4, pieces: seq<seq<byte>>) returns (digest: seq<byte>)
    requires forall i :: 0 <= i < |pieces| ==> |pieces[i]| < TWO_32
    ensures digest == Output(Digest(transform, INITIAL, Joined(pieces, |pieces|)))
  {
    var words := HashPieces(transform, INITIAL, pieces);
    digest := Output(words);
  }
}
