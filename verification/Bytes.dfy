/** Byte buffers and little-endian fields, as the source writes them with memcpy on its hosts. */
module Bytes {

  import opened Words

  /** A 16-bit word as two bytes, low-order first. */
  function Le16(x: nat): (b: seq<byte>)
    requires x < 0x1_0000
    ensures |b| == 2
  {
    [x % 0x100, x / 0x100]
  }

  /** A 32-bit word as four bytes, low-order first. */
  function Le32(x: u32): (b: seq<byte>)
    ensures |b| == 4
  {
    [x % 0x100, x / 0x100 % 0x100, x / 0x100 / 0x100 % 0x100, x / 0x100 / 0x100 / 0x100]
  }

  /** The 16-bit field at `at`. */
  function Get16(s: seq<byte>, at: nat): nat
    requires at + 2 <= |s|
  {
    var b0: int, b1: int := s[at], s[at + 1];
    b0 + 0x100 * b1
  }

  /** The 32-bit field at `at`. */
  function Get32(s: seq<byte>, at: nat): u32
    requires at + 4 <= |s|
  {
    var b0: int, b1: int, b2: int, b3: int := s[at], s[at + 1], s[at + 2], s[at + 3];
    b0 + 0x100 * b1 + 0x1_0000 * b2 + 0x100_0000 * b3
  }

  /** Reading a field back. */
  lemma Get16Back(before: seq<byte>, x: nat, after: seq<byte>)
    requires x < 0x1_0000
    ensures Get16(before + Le16(x) + after, |before|) == x
  {
  }

  lemma Get32Back(before: seq<byte>, x: u32, after: seq<byte>)
    ensures Get32(before + Le32(x) + after, |before|) == x
  {
    var s := before + Le32(x) + after;
    assert s[|before|..|before| + 4] == Le32(x);
    assert s[|before|] == Le32(x)[0] && s[|before| + 1] == Le32(x)[1];
    assert s[|before| + 2] == Le32(x)[2] && s[|before| + 3] == Le32(x)[3];
  }

  function ZeroBytes(n: nat): (z: seq<byte>)
    ensures |z| == n
  {
    seq(n, _ => 0)
  }

  /** `std::memcpy(dst + at, src, n)`. */
  method CopyInto(dst: array<byte>, at: nat, src: seq<byte>)
    requires at + |src| <= dst.Length
    modifies dst
    ensures dst[..] == old(dst[..at]) + src + old(dst[at + |src|..])
  {
    var i := 0;
    while i < |src|
      invariant 0 <= i <= |src|
      invariant forall k :: at <= k < at + i ==> dst[k] == src[k - at]
      invariant forall k :: (0 <= k < at || at + i <= k < dst.Length) ==> dst[k] == old(dst[k])
    {
      dst[at + i] := src[i];
      i := i + 1;
    }
    assert dst[..] == dst[..at] + dst[at..at + |src|] + dst[at + |src|..];
    assert dst[at..at + |src|] == src;
  }
}
