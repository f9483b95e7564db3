/** The UTF-8 codec of common/StringUtil.cpp against section 3 of RFC 3629. */
module Utf8 {

  import opened Words
  import Arithmetic

  const LAST: u32 := 0x10FFFF
  const REPLACEMENT: u32 := 0xFFFD
  const INVALID: u32 := 0xFFFF_FFFF

  /** The low bits of a byte, those below `m`. */
  function Low(b: byte, m: int): int
    requires m > 0
  {
    b % m
  }

  /** EncodeAndAppendUTF8: the bytes appended for `ch`. */
  function Encode(ch: u32): (b: seq<byte>)
    ensures 1 <= |b| <= 4
  {
    if ch <= 0x7F then [ch]
    else if ch <= 0x7FF then [0xC0 + ch / 0x40 % 0x20, 0x80 + ch % 0x40]
    else if ch <= 0xFFFF then [0xE0 + ch / 0x1000 % 0x10, 0x80 + ch / 0x40 % 0x40, 0x80 + ch % 0x40]
    else if ch <= LAST then
      [0xF0 + ch / 0x4_0000 % 8, 0x80 + ch / 0x1000 % 0x40, 0x80 + ch / 0x40 % 0x40, 0x80 + ch % 0x40]
    else [0xEF, 0xBF, 0xBD]
  }

  datatype Decoded = Decoded(ch: u32, length: nat)

  /** DecodeUTF8. Only the first byte is inspected for its class: the others contribute their low
      six bits whatever their high ones. The decoder always moves on, and never past the end. */
  function Decode(s: seq<byte>): (d: Decoded)
    requires |s| > 0
    ensures 1 <= d.length <= |s|
    ensures d.ch == INVALID || d.ch < 0x14_0000
  {
    if s[0] < 0x80 then Decoded(s[0], 1)
    else if s[0] / 0x20 == 6 && |s| >= 2 then Decoded(Low(s[0], 0x20) * 0x40 + s[1] % 0x40, 2)
    else if s[0] / 0x10 == 14 && |s| >= 3 then
      Decoded(Low(s[0], 0x10) * 0x1000 + Low(s[1], 0x40) * 0x40 + s[2] % 0x40, 3)
    else if s[0] / 8 == 30 && s[0] <= 0xF4 && |s| >= 4 then
      Decoded(Low(s[0], 8) * 0x4_0000 + Low(s[1], 0x40) * 0x1000 + Low(s[2], 0x40) * 0x40 + s[3] % 0x40, 4)
    else Decoded(INVALID, 1)
  }

  /** How many bytes the first one asks for; none for a byte that cannot come first. */
  function Asked(b: byte): nat {
    if b < 0x80 then 1 else if b < 0xC0 then 0 else if b < 0xE0 then 2 else if b < 0xF0 then 3
    else if b <= 0xF4 then 4 else 0
  }

  /** When nothing can be decoded: the first byte cannot come first, or asks for more than there is. Then
      the decoder skips one byte, and otherwise as many as the first one asks for. */
  lemma InvalidIff(s: seq<byte>)
    requires |s| > 0
    ensures Decode(s).ch == INVALID <==> Asked(s[0]) == 0 || |s| < Asked(s[0])
    ensures Decode(s).length == if Decode(s).ch == INVALID then 1 else Asked(s[0])
  {
  }

  /** The two high bits of the bytes after the first are never looked at. */
  lemma HighBitsIgnored(s: seq<byte>, t: seq<byte>)
    requires |s| == |t| > 0 && s[0] == t[0] && forall i :: 1 <= i < |s| ==> Low(s[i], 0x40) == Low(t[i], 0x40)
    ensures Decode(s) == Decode(t)
  {
    assert |s| >= 2 ==> Low(s[1], 0x40) == Low(t[1], 0x40);
    assert |s| >= 3 ==> Low(s[2], 0x40) == Low(t[2], 0x40);
    assert |s| >= 4 ==> Low(s[3], 0x40) == Low(t[3], 0x40);
  }

  function EncodeAll(cs: seq<u32>): seq<byte> {
    if cs == [] then [] else Encode(cs[0]) + EncodeAll(cs[1..])
  }

  function DecodeAll(s: seq<byte>): seq<u32>
    decreases |s|
  {
    if s == [] then [] else var d := Decode(s); [d.ch] + DecodeAll(s[d.length..])
  }

  /** What the encoder really writes. */
  function Representable(ch: u32): u32 {
    if ch <= LAST then ch else REPLACEMENT
  }

  /** Decoding undoes encoding of one code point, whatever follows. */
  lemma DecodeOne(ch: u32, rest: seq<byte>)
    ensures Decode(Encode(ch) + rest) == Decoded(Representable(ch), |Encode(ch)|)
    ensures (Encode(ch) + rest)[|Encode(ch)|..] == rest
  {
    if 0x7F < ch <= LAST {
      var a, b, c, d := TakeApart(ch);
      if ch <= 0x7FF {
        DecodeTwo(b * 0x40 + c, d, rest);
      } else if ch <= 0xFFFF {
        DecodeThree(a * 0x40 + b, c, d, rest);
      } else {
        DecodeFour(a, b, c, d, rest);
      }
    }
  }

  /** The bytes the encoder writes, by six-bit groups. */
  lemma TakeApart(ch: u32) returns (a: nat, b: nat, c: nat, d: nat)
    requires 0x7F < ch <= LAST
    ensures ch == a * 0x4_0000 + b * 0x1000 + c * 0x40 + d && a <= 4 && b < 0x40 && c < 0x40 && d < 0x40
    ensures ch <= 0x7FF ==> b * 0x40 + c < 0x20 && Encode(ch) == [0xC0 + b * 0x40 + c, 0x80 + d]
    ensures 0x7FF < ch <= 0xFFFF ==> a * 0x40 + b < 0x10 && Encode(ch) == [0xE0 + a * 0x40 + b, 0x80 + c, 0x80 + d]
    ensures 0xFFFF < ch ==> Encode(ch) == [0xF0 + a, 0x80 + b, 0x80 + c, 0x80 + d]
  {
    a, b, c, d := ch / 0x40 / 0x40 / 0x40, ch / 0x40 / 0x40 % 0x40, ch / 0x40 % 0x40, ch % 0x40;
    Groups(ch, a, b, c, d);
  }

  /** Taking a code point apart into its six-bit groups. */
  lemma Groups(ch: nat, a: nat, b: nat, c: nat, d: nat)
    requires ch == a * 0x4_0000 + b * 0x1000 + c * 0x40 + d && b < 0x40 && c < 0x40 && d < 0x40
    ensures ch % 0x40 == d && ch / 0x40 == a * 0x1000 + b * 0x40 + c
    ensures ch / 0x40 % 0x40 == c && ch / 0x1000 == a * 0x40 + b
    ensures ch / 0x1000 % 0x40 == b && ch / 0x4_0000 == a
  {
    Arithmetic.Unique(ch, 0x40, a * 0x1000 + b * 0x40 + c, d);
    Arithmetic.Unique(ch / 0x40, 0x40, a * 0x40 + b, c);
    Arithmetic.Unique(ch, 0x1000, a * 0x40 + b, c * 0x40 + d);
    Arithmetic.Unique(ch / 0x1000, 0x40, a, b);
    Arithmetic.Unique(ch, 0x4_0000, a, b * 0x1000 + c * 0x40 + d);
  }

  lemma DecodeTwo(x: nat, y: nat, rest: seq<byte>)
    requires x < 0x20 && y < 0x40
    ensures Decode([0xC0 + x, 0x80 + y] + rest) == Decoded(x * 0x40 + y, 2)
  {
  }

  lemma DecodeThree(x: nat, y: nat, z: nat, rest: seq<byte>)
    requires x < 0x10 && y < 0x40 && z < 0x40
    ensures Decode([0xE0 + x, 0x80 + y, 0x80 + z] + rest) == Decoded(x * 0x1000 + y * 0x40 + z, 3)
  {
  }

  lemma DecodeFour(w: nat, x: nat, y: nat, z: nat, rest: seq<byte>)
    requires w <= 4 && x < 0x40 && y < 0x40 && z < 0x40
    ensures Decode([0xF0 + w, 0x80 + x, 0x80 + y, 0x80 + z] + rest)
         == Decoded(w * 0x4_0000 + x * 0x1000 + y * 0x40 + z, 4)
  {
  }

  function RepresentableAll(cs: seq<u32>): seq<u32> {
    if cs == [] then [] else [Representable(cs[0])] + RepresentableAll(cs[1..])
  }

  /** Decoding an encoded text gives the text back, with every value above U+10FFFF replaced. */
  lemma {:induction false} DecodeEncoded(cs: seq<u32>)
    ensures DecodeAll(EncodeAll(cs)) == RepresentableAll(cs)
  {
    if cs != [] {
      DecodeOne(cs[0], EncodeAll(cs[1..]));
      DecodeEncoded(cs[1..]);
    }
  }

  lemma {:induction false} AllRepresentable(cs: seq<u32>)
    ensures RepresentableAll(cs) == cs <==> forall i :: 0 <= i < |cs| ==> cs[i] <= LAST
  {
    if cs != [] {
      AllRepresentable(cs[1..]);
      assert cs == [cs[0]] + cs[1..];
    }
  }

  /** The round trip holds exactly for texts of code points up to U+10FFFF. */
  lemma RoundTripIff(cs: seq<u32>)
    ensures DecodeAll(EncodeAll(cs)) == cs <==> forall i :: 0 <= i < |cs| ==> cs[i] <= LAST
  {
    DecodeEncoded(cs);
    AllRepresentable(cs);
  }

  predicate Continuation(b: byte) {
    0x80 <= b < 0xC0
  }

  /** The first sequence of `s` is one of the byte sequences of section 4 of RFC 3629, except that
      the surrogates U+D800 to U+DFFF are admitted. */
  predicate StartsWellFormed(s: seq<byte>)
    requires |s| > 0
  {
    || s[0] < 0x80
    || (0xC2 <= s[0] < 0xE0 && |s| >= 2 && Continuation(s[1]))
    || (0xE0 <= s[0] < 0xF0 && |s| >= 3 && Continuation(s[1]) && Continuation(s[2])
        && (s[0] == 0xE0 ==> s[1] >= 0xA0))
    || (0xF0 <= s[0] <= 0xF4 && |s| >= 4 && Continuation(s[1]) && Continuation(s[2]) && Continuation(s[3])
        && (s[0] == 0xF0 ==> s[1] >= 0x90) && (s[0] == 0xF4 ==> s[1] < 0x90))
  }

  predicate WellFormed(s: seq<byte>)
    decreases |s|
  {
    s == [] || (StartsWellFormed(s) && WellFormed(s[Decode(s).length..]))
  }

  /** Encoding undoes decoding exactly on the well-formed sequences. */
  lemma EncodeOneIff(s: seq<byte>)
    requires |s| > 0
    ensures Encode(Decode(s).ch) == s[..Decode(s).length] <==> StartsWellFormed(s)
  {
    var d := Decode(s);
    if s[0] < 0x80 {
    } else if d.length == 2 {
      TwoBytes(s);
    } else if d.length == 3 {
      ThreeBytes(s);
    } else if d.length == 4 {
      FourBytes(s);
    }
  }

  lemma TwoBytes(s: seq<byte>)
    requires |s| >= 2 && s[0] / 0x20 == 6
    ensures Encode(Decode(s).ch) == s[..2] <==> StartsWellFormed(s)
  {
    var x, y := Low(s[0], 0x20), Low(s[1], 0x40);
    Groups(x * 0x40 + y, 0, 0, x, y);
  }

  lemma ThreeBytes(s: seq<byte>)
    requires |s| >= 3 && s[0] / 0x10 == 14
    ensures Encode(Decode(s).ch) == s[..3] <==> StartsWellFormed(s)
  {
    var x, y, z := Low(s[0], 0x10), Low(s[1], 0x40), Low(s[2], 0x40);
    Groups(x * 0x1000 + y * 0x40 + z, 0, x, y, z);
  }

  lemma FourBytes(s: seq<byte>)
    requires |s| >= 4 && 0xF0 <= s[0] <= 0xF4
    ensures Encode(Decode(s).ch) == s[..4] <==> StartsWellFormed(s)
  {
    var w, x, y, z := Low(s[0], 8), Low(s[1], 0x40), Low(s[2], 0x40), Low(s[3], 0x40);
    Groups(w * 0x4_0000 + x * 0x1000 + y * 0x40 + z, w, x, y, z);
  }

  /** Re-encoding a decoded text gives the same bytes exactly when they were well-formed. */
  lemma {:induction false} ReencodeIff(s: seq<byte>)
    ensures EncodeAll(DecodeAll(s)) == s <==> WellFormed(s)
    decreases |s|
  {
    if s != [] {
      var d := Decode(s);
      var head, tail := Encode(d.ch), s[d.length..];
      var again := EncodeAll(DecodeAll(tail));
      ReencodeIff(tail);
      EncodeOneIff(s);
      assert EncodeAll(DecodeAll(s)) == head + again by {
        assert DecodeAll(s) == [d.ch] + DecodeAll(tail);
      }
      if head + again == s {
        DecodeOne(d.ch, again);
        assert s[..d.length] == head && tail == again;
      }
      assert s == s[..d.length] + tail;
    }
  }

  /** Whatever is encoded, the bytes are well-formed. */
  lemma EncodedIsWellFormed(cs: seq<u32>)
    ensures WellFormed(EncodeAll(cs))
  {
    DecodeEncoded(cs);
    EncodeReplaced(cs);
    ReencodeIff(EncodeAll(cs));
  }

  lemma {:induction false} EncodeReplaced(cs: seq<u32>)
    ensures EncodeAll(RepresentableAll(cs)) == EncodeAll(cs)
  {
    if cs != [] {
      EncodeReplaced(cs[1..]);
      assert RepresentableAll(cs)[1..] == RepresentableAll(cs[1..]);
      assert Encode(Representable(cs[0])) == Encode(cs[0]);
    }
  }

  /** A byte below 0x80 occurs in an encoded text exactly where its own character does. */
  lemma {:induction false} AsciiStandsForItself(cs: seq<u32>, b: byte)
    requires b < 0x80
    ensures b in EncodeAll(cs) <==> b in cs
  {
    if cs != [] {
      AsciiStandsForItself(cs[1..], b);
      assert cs == [cs[0]] + cs[1..];
      assert b in Encode(cs[0]) <==> b == cs[0];
    }
  }
}
