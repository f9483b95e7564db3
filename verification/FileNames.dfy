/** SanitizeFileName of common/FileSystem.cpp, the overload that returns a new string, as built for
    hosts other than Windows and macOS. File names are byte strings, decoded as UTF-8. */
module FileNames {

  import opened Words
  import opened Utf8

  const SLASH: byte := 0x2F
  const ASTERISK: byte := 0x2A
  const UNDERSCORE: byte := 0x5F

  /** FileSystemCharacterIsSane. */
  predicate IsSane(c: u32, stripSlashes: bool) {
    !(c == SLASH && stripSlashes) && c != ASTERISK
  }

  function Permitted(c: u32, stripSlashes: bool): u32 {
    if IsSane(c, stripSlashes) then c else UNDERSCORE
  }

  function Clean(cs: seq<u32>, stripSlashes: bool): seq<u32> {
    if cs == [] then []
    else [Permitted(cs[0], stripSlashes)] + Clean(cs[1..], stripSlashes)
  }

  /** What the sanitizer returns: decode, replace what is not permitted, encode. */
  function Sanitized(name: seq<byte>, stripSlashes: bool): seq<byte> {
    EncodeAll(Clean(DecodeAll(name), stripSlashes))
  }

  /** One turn of the loop: decode a character, check it, encode it. */
  method SanitizeOne(name: seq<byte>, stripSlashes: bool) returns (bytes: seq<byte>, length: nat)
    requires name != []
    ensures 1 <= length <= |name|
    ensures Sanitized(name, stripSlashes) == bytes + Sanitized(name[length..], stripSlashes)
  {
    SanitizeNext(name, stripSlashes);
    var d := Decode(name);
    return Encode(Permitted(d.ch, stripSlashes)), d.length;
  }

  lemma SanitizeNext(name: seq<byte>, stripSlashes: bool)
    requires name != []
    ensures Sanitized(name, stripSlashes)
         == Encode(Permitted(Decode(name).ch, stripSlashes)) + Sanitized(name[Decode(name).length..], stripSlashes)
  {
    var d := Decode(name);
    var rest := Clean(DecodeAll(name[d.length..]), stripSlashes);
    assert Clean(DecodeAll(name), stripSlashes) == [Permitted(d.ch, stripSlashes)] + rest;
  }

  /** The loop over the bytes of the name. */
  method SanitizeFileName(name: seq<byte>, stripSlashes: bool) returns (ret: seq<byte>)
    ensures ret == Sanitized(name, stripSlashes)
  {
    ret := [];
    var pos := 0;
    ghost var rest, goal := name, Sanitized(name, stripSlashes);
    while pos < |name|
      invariant 0 <= pos <= |name| && rest == name[pos..]
      invariant ret + Sanitized(rest, stripSlashes) == goal
    {
      var bytes, length := SanitizeOne(name[pos..], stripSlashes);
      ghost var tail := rest[length..];
      Regroup(ret, bytes, Sanitized(tail, stripSlashes), Sanitized(rest, stripSlashes));
      ret, rest := ret + bytes, tail;
      pos := pos + length;
    }
    NothingToSanitize(stripSlashes);
  }

  lemma Regroup(done: seq<byte>, next: seq<byte>, tail: seq<byte>, rest: seq<byte>)
    requires rest == next + tail
    ensures (done + next) + tail == done + rest
  {
  }

  lemma NothingToSanitize(stripSlashes: bool)
    ensures Sanitized([], stripSlashes) == []
  {
  }

  predicate AllSane(cs: seq<u32>, stripSlashes: bool) {
    forall i :: 0 <= i < |cs| ==> IsSane(cs[i], stripSlashes)
  }

  lemma {:induction false} CleanIsSane(cs: seq<u32>, stripSlashes: bool)
    ensures AllSane(Clean(cs, stripSlashes), stripSlashes)
    ensures AllSane(RepresentableAll(Clean(cs, stripSlashes)), stripSlashes)
  {
    if cs != [] {
      CleanIsSane(cs[1..], stripSlashes);
    }
  }

  lemma {:induction false} CleanKeepsSane(cs: seq<u32>, stripSlashes: bool)
    ensures Clean(cs, stripSlashes) == cs <==> AllSane(cs, stripSlashes)
  {
    if cs != [] {
      CleanKeepsSane(cs[1..], stripSlashes);
      assert cs == [cs[0]] + cs[1..];
    }
  }

  /** The result is well-formed and decodes only to permitted characters, whatever bytes went in. */
  lemma OutputIsPermitted(name: seq<byte>, stripSlashes: bool)
    ensures WellFormed(Sanitized(name, stripSlashes))
    ensures AllSane(DecodeAll(Sanitized(name, stripSlashes)), stripSlashes)
  {
    var cs := Clean(DecodeAll(name), stripSlashes);
    EncodedIsWellFormed(cs);
    DecodeEncoded(cs);
    CleanIsSane(DecodeAll(name), stripSlashes);
  }

  /** No permitted-looking byte string smuggles a separator through, not even as an overlong
      sequence: the forbidden bytes themselves are absent from the result. */
  lemma ForbiddenBytesAreGone(name: seq<byte>, stripSlashes: bool)
    ensures ASTERISK !in Sanitized(name, stripSlashes)
    ensures stripSlashes ==> SLASH !in Sanitized(name, stripSlashes)
  {
    var cs := Clean(DecodeAll(name), stripSlashes);
    CleanIsSane(DecodeAll(name), stripSlashes);
    AsciiStandsForItself(cs, ASTERISK);
    AsciiStandsForItself(cs, SLASH);
  }

  /** Character by character: a forbidden one becomes an underscore, one that was not decoded or lies beyond
      U+10FFFF the replacement character, and every other one stays; none is added or dropped. */
  lemma CharacterByCharacter(name: seq<byte>, stripSlashes: bool)
    ensures var before, after := DecodeAll(name), DecodeAll(Sanitized(name, stripSlashes));
            && |after| == |before|
            && forall i :: 0 <= i < |before| ==>
                 after[i] == if before[i] == 0x2A || (stripSlashes && before[i] == 0x2F) then 0x5F
                             else if before[i] > 0x10FFFF then 0xFFFD else before[i]
  {
    var before := DecodeAll(name);
    DecodeEncoded(Clean(before, stripSlashes));
    CleanAt(before, stripSlashes);
  }

  lemma {:induction false} CleanAt(cs: seq<u32>, stripSlashes: bool)
    ensures var ds := RepresentableAll(Clean(cs, stripSlashes));
            && |ds| == |cs|
            && forall i :: 0 <= i < |cs| ==> ds[i] == Representable(Permitted(cs[i], stripSlashes))
  {
    if cs != [] {
      CleanAt(cs[1..], stripSlashes);
      assert Clean(cs, stripSlashes)[1..] == Clean(cs[1..], stripSlashes);
    }
  }

  /** Sanitizing leaves a name alone exactly when it is well-formed and has no forbidden byte. */
  lemma UnchangedIff(name: seq<byte>, stripSlashes: bool)
    ensures Sanitized(name, stripSlashes) == name
       <==> WellFormed(name) && ASTERISK !in name && (stripSlashes ==> SLASH !in name)
  {
    var cs := DecodeAll(name);
    ReencodeIff(name);
    AsciiStandsForItself(cs, ASTERISK);
    AsciiStandsForItself(cs, SLASH);
    CleanKeepsSane(cs, stripSlashes);
    if Sanitized(name, stripSlashes) == name {
      OutputIsPermitted(name, stripSlashes);
    }
  }

  /** Sanitizing twice is sanitizing once. */
  lemma SanitizeIsIdempotent(name: seq<byte>, stripSlashes: bool)
    ensures Sanitized(Sanitized(name, stripSlashes), stripSlashes) == Sanitized(name, stripSlashes)
  {
    OutputIsPermitted(name, stripSlashes);
    ForbiddenBytesAreGone(name, stripSlashes);
    UnchangedIff(Sanitized(name, stripSlashes), stripSlashes);
  }
}
