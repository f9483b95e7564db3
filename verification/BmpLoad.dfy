/** Reading a 24-bit BMP (common/Image.cpp) and reading back what the writer produced. */
module BmpLoad {

  import opened Words
  import opened Bytes
  import opened Bmp

  /** `Elsewhere` stands for what this model does not follow: other bit depths and compressions, and
      files for which the reader's 32-bit size computation wraps. */
  datatype Parsed = Rejected | Elsewhere | Rows(width: nat, height: nat, offset: nat, flip: bool)

  function Abs(x: int): nat {
    if x < 0 then -x else x
  }

  /** The header fields that decide how a file is read. */
  datatype Fields = Fields(kind: nat, offset: u32, width: u32, height: u32, bits: nat, compression: u32)

  function ReadFields(s: seq<byte>): Fields
    requires |s| >= HEADERS
  {
    Fields(Get16(s, 0), Get32(s, 10), Get32(s, 18), Get32(s, 22), Get16(s, 28), Get32(s, 30))
  }

  /** The checks on the fields of a file of `size` bytes, in the order of the source. */
  function Decide(f: Fields, size: nat): (p: Parsed)
    ensures p.Rows? ==> 0 < p.width < 0x1_0000 && 0 < p.height < 0x1_0000
    ensures p.Rows? ==> RowAt(p.offset, RowSize(p.width), p.height) <= size
  {
    var width, height := Abs(S32(f.width)), Abs(S32(f.height));
    Judge(f, width, height, height * RowSize(width), size)
  }

  function Judge(f: Fields, width: nat, height: nat, imageSize: nat, size: nat): (p: Parsed)
    ensures p.Rows? ==> p == Rows(width, height, f.offset, S32(f.height) > 0)
    ensures p.Rows? ==> 0 < width < 0x1_0000 && 0 < height < 0x1_0000 && f.offset + imageSize <= size
  {
    if f.kind != 0x4D42 then Rejected
    else if !(f.compression == 0 && f.bits == 24) then Elsewhere
    else if width == 0 || height == 0 || width >= 0x1_0000 || height >= 0x1_0000 then Rejected
    else if U32(f.offset + U32(imageSize)) > size then Rejected
    else if f.offset + imageSize > size then Elsewhere
    else Rows(width, height, f.offset, S32(f.height) > 0)
  }

  function Parse(s: seq<byte>): Parsed {
    if |s| < HEADERS then Rejected else Decide(ReadFields(s), |s|)
  }

  /** The pixel whose three bytes begin at `at`. */
  function PixelAt(s: seq<byte>, at: nat): u32 {
    if at + 3 <= |s| then Compose(s[at + 2], s[at + 1], s[at]) else 0
  }

  /** The row of the file that ends up as row `y` of the image, and the other way round. */
  function Flipped(y: nat, height: nat, flip: bool): nat
    requires y < height
  {
    if flip then height - 1 - y else y
  }

  /** Row `y` of the picture holds the pixels of its row of the file. */
  ghost predicate HasRow(pixels: array2<u32>, y: nat, s: seq<byte>, at: nat)
    requires y < pixels.Length0
    reads pixels
  {
    forall x :: 0 <= x < pixels.Length1 ==> pixels[y, x] == PixelAt(s, at + 3 * x)
  }

  /** The inner loop, which keeps its position in bits. */
  method LoadRow(pixels: array2<u32>, y: nat, s: seq<byte>, at: nat)
    requires y < pixels.Length0 && at + 3 * pixels.Length1 <= |s|
    modifies pixels
    ensures HasRow(pixels, y, s, at)
    ensures forall z, x :: 0 <= z < pixels.Length0 && 0 <= x < pixels.Length1 && z != y ==> pixels[z, x] == old(pixels[z, x])
  {
    var bitOffset := 0;
    for x := 0 to pixels.Length1
      invariant bitOffset == 24 * x
      invariant forall k :: 0 <= k < x ==> pixels[y, k] == PixelAt(s, at + 3 * k)
      invariant forall z, k :: 0 <= z < pixels.Length0 && 0 <= k < pixels.Length1 && z != y ==> pixels[z, k] == old(pixels[z, k])
    {
      var index := bitOffset / 8;
      pixels[y, x] := Compose(s[at + index + 2], s[at + index + 1], s[at + index]);
      bitOffset := bitOffset + 24;
    }
  }

  /** The outer loop: LoadUncompressedBMP. */
  method LoadRows(pixels: array2<u32>, s: seq<byte>, offset: nat, flip: bool)
    requires RowAt(offset, BitRowSize(pixels.Length1), pixels.Length0) <= |s|
    modifies pixels
    ensures forall y :: 0 <= y < pixels.Length0 ==>
              HasRow(pixels, y, s, RowAt(offset, BitRowSize(pixels.Length1), Flipped(y, pixels.Length0, flip)))
  {
    var height, rowSize := pixels.Length0, BitRowSize(pixels.Length1);
    RowSizesAgree(pixels.Length1);
    for y := 0 to height
      invariant forall k :: 0 <= k < height && Flipped(k, height, flip) < y ==>
                  HasRow(pixels, k, s, RowAt(offset, rowSize, Flipped(k, height, flip)))
    {
      NextRowFits(offset, rowSize, y, height);
      LoadRow(pixels, Flipped(y, height, flip), s, RowAt(offset, rowSize, y));
    }
  }

  method BmpBufferLoader(s: seq<byte>) returns (result: Parsed, pixels: array2<u32>)
    ensures result == Parse(s)
    ensures result.Rows? ==>
              && pixels.Length0 == result.height && pixels.Length1 == result.width
              && forall y :: 0 <= y < result.height ==>
                   HasRow(pixels, y, s, RowAt(result.offset, RowSize(result.width), Flipped(y, result.height, result.flip)))
  {
    result := Parse(s);
    if result.Rows? {
      pixels := new u32[result.height, result.width];
      RowSizesAgree(result.width);
      LoadRows(pixels, s, result.offset, result.flip);
    } else {
      pixels := new u32[0, 0];
    }
  }

  // ----- reading back -----

  lemma HeaderPosition(width: u32, height: u32, fileSize: u32, imageSize: u32)
    ensures var h := Header(width, height, fileSize, imageSize);
            Get16(h, 0) == 0x4D42 && Get32(h, 10) == 54
  {
    var h := Header(width, height, fileSize, imageSize);
    var lead := Le16(0x4D42) + Le32(fileSize) + Le16(0) + Le16(0);
    assert h == [] + Le16(0x4D42) + h[2..];
    Get16Back([], 0x4D42, h[2..]);
    assert h == lead + Le32(54) + h[14..];
    Get32Back(lead, 54, h[14..]);
  }

  lemma HeaderShape(width: u32, height: u32, fileSize: u32, imageSize: u32)
    ensures var h := Header(width, height, fileSize, imageSize);
            Get32(h, 18) == width && Get32(h, 22) == height
  {
    var h := Header(width, height, fileSize, imageSize);
    var lead := Le16(0x4D42) + Le32(fileSize) + Le16(0) + Le16(0) + Le32(54) + Le32(40);
    assert h == lead + Le32(width) + h[22..];
    Get32Back(lead, width, h[22..]);
    assert h == lead + Le32(width) + Le32(height) + h[26..];
    Get32Back(lead + Le32(width), height, h[26..]);
  }

  lemma HeaderFormat(width: u32, height: u32, fileSize: u32, imageSize: u32)
    ensures var h := Header(width, height, fileSize, imageSize);
            Get16(h, 28) == 24 && Get32(h, 30) == 0
  {
    var h := Header(width, height, fileSize, imageSize);
    var lead := Le16(0x4D42) + Le32(fileSize) + Le16(0) + Le16(0) + Le32(54) + Le32(40) + Le32(width) + Le32(height) + Le16(1);
    assert h == lead + Le16(24) + h[30..];
    Get16Back(lead, 24, h[30..]);
    assert h == lead + Le16(24) + Le32(0) + h[34..];
    Get32Back(lead + Le16(24), 0, h[34..]);
  }

  /** The fields that the reader does not look at, by their offset: the sizes of the file and of the pixels,
      of the second header, one plane, and zeros in all the others. */
  lemma HeaderRest(width: u32, height: u32, fileSize: u32, imageSize: u32)
    ensures var h := Header(width, height, fileSize, imageSize);
            && Get32(h, 2) == fileSize && Get32(h, 6) == 0 && Get32(h, 14) == 40 && Get16(h, 26) == 1
            && Get32(h, 34) == imageSize && forall i :: 38 <= i < HEADERS ==> h[i] == 0
  {
    HeaderSizes(width, height, fileSize, imageSize);
    HeaderTail(width, height, fileSize, imageSize);
  }

  lemma HeaderSizes(width: u32, height: u32, fileSize: u32, imageSize: u32)
    ensures var h := Header(width, height, fileSize, imageSize);
            Get32(h, 2) == fileSize && Get32(h, 6) == 0 && Get32(h, 14) == 40
  {
    var h := Header(width, height, fileSize, imageSize);
    var kind := Le16(0x4D42);
    assert h == kind + Le32(fileSize) + h[6..];
    Get32Back(kind, fileSize, h[6..]);
    assert h[6..10] == Le16(0) + Le16(0);
    assert forall i :: 0 <= i < 4 ==> h[6 + i] == h[6..10][i];
    var lead := kind + Le32(fileSize) + Le16(0) + Le16(0) + Le32(54);
    assert h == lead + Le32(40) + h[18..];
    Get32Back(lead, 40, h[18..]);
  }

  lemma HeaderTail(width: u32, height: u32, fileSize: u32, imageSize: u32)
    ensures var h := Header(width, height, fileSize, imageSize);
            && Get16(h, 26) == 1 && Get32(h, 34) == imageSize && forall i :: 38 <= i < HEADERS ==> h[i] == 0
  {
    var h := Header(width, height, fileSize, imageSize);
    var lead := Le16(0x4D42) + Le32(fileSize) + Le16(0) + Le16(0) + Le32(54) + Le32(40) + Le32(width) + Le32(height);
    var more := lead + Le16(1) + Le16(24) + Le32(0);
    var zeros := Le32(0) + Le32(0) + Le32(0) + Le32(0);
    assert h == more + Le32(imageSize) + zeros;
    ZerosAtEnd(more + Le32(imageSize), zeros);
    Get32Back(more, imageSize, zeros);
    assert h == lead + Le16(1) + (Le16(24) + Le32(0) + Le32(imageSize) + zeros);
    Get16Back(lead, 1, Le16(24) + Le32(0) + Le32(imageSize) + zeros);
  }

  lemma ZerosAtEnd(s: seq<byte>, zeros: seq<byte>)
    requires zeros == Le32(0) + Le32(0) + Le32(0) + Le32(0)
    ensures forall i :: |s| <= i < |s| + 16 ==> (s + zeros)[i] == 0
  {
    assert Le32(0) == [0, 0, 0, 0];
    assert forall i :: 0 <= i < 16 ==> zeros[i] == 0;
  }

  /** The fields read back from a file the writer produced. */
  lemma FieldsSaved(s: seq<byte>, width: u32, height: u32, fileSize: u32, imageSize: u32)
    requires |s| >= HEADERS && s[..HEADERS] == Header(width, height, fileSize, imageSize)
    ensures ReadFields(s) == Fields(0x4D42, 54, width, height, 24, 0)
  {
    HeaderPosition(width, height, fileSize, imageSize);
    HeaderShape(width, height, fileSize, imageSize);
    HeaderFormat(width, height, fileSize, imageSize);
    FieldsOfPrefix(s, s[..HEADERS]);
  }

  lemma FieldsOfPrefix(s: seq<byte>, header: seq<byte>)
    requires |s| >= HEADERS && s[..HEADERS] == header
    ensures ReadFields(s) == ReadFields(header)
  {
    assert forall i :: 0 <= i < HEADERS ==> s[i] == header[i];
  }

  /** A file the writer produced names its own length, and that of the rows, which lie from the offset it
      names to its end. */
  lemma SavedSizes(s: seq<byte>, image: Image)
    requires WellShaped(image) && FileSize(image.width, image.height) < TWO_32 && IsFileOf(s, image)
    ensures Get32(s, 2) == |s| && Get32(s, 34) == RowSize(image.width) * image.height && Get32(s, 10) + Get32(s, 34) == |s|
  {
    var header := s[..HEADERS];
    HeaderRest(image.width, image.height, |s|, |s| - HEADERS);
    HeaderPosition(image.width, image.height, |s|, |s| - HEADERS);
    assert forall i :: 0 <= i < HEADERS ==> s[i] == header[i];
    assert |s| == HEADERS + image.height * RowSize(image.width);
  }

  lemma DecideSaved(width: nat, height: nat)
    requires 0 < width < TWO_31 && 0 < height < TWO_31 && FileSize(width, height) < TWO_32
    ensures Decide(Fields(0x4D42, 54, width, height, 24, 0), FileSize(width, height))
         == if width < 0x1_0000 && height < 0x1_0000 then Rows(width, height, HEADERS, true) else Rejected
  {
    Narrow(width);
    Narrow(height);
    JudgeSaved(Fields(0x4D42, 54, width, height, 24, 0), width, height, height * RowSize(width));
  }

  lemma Narrow(x: nat)
    requires x < TWO_31
    ensures S32(x) == x && Abs(S32(x)) == x
  {
  }

  lemma JudgeSaved(f: Fields, width: nat, height: nat, imageSize: nat)
    requires f.kind == 0x4D42 && f.offset == HEADERS && f.bits == 24 && f.compression == 0
    requires 0 < width && 0 < height && S32(f.height) > 0 && HEADERS + imageSize < TWO_32
    ensures Judge(f, width, height, imageSize, HEADERS + imageSize)
         == if width < 0x1_0000 && height < 0x1_0000 then Rows(width, height, HEADERS, true) else Rejected
  {
    assert U32(imageSize) == imageSize;
  }

  /** The reader understands the headers of the writer: it accepts exactly the sizes under 65536. */
  lemma ParseSaved(s: seq<byte>, image: Image)
    requires WellShaped(image) && FileSize(image.width, image.height) < TWO_32
    requires image.width > 0 && image.height > 0 && IsFileOf(s, image)
    ensures Parse(s) == if image.width < 0x1_0000 && image.height < 0x1_0000
                        then Rows(image.width, image.height, HEADERS, true) else Rejected
  {
    FieldsSaved(s, image.width, image.height, |s|, |s| - HEADERS);
    DecideSaved(image.width, image.height);
  }

  /** Exactly which files are read: they begin with BM, hold uncompressed 24-bit rows, are 1 to 65535 pixels wide
      and high, either size with a sign, and long enough.  A file of the right depth that is not read is refused,
      unless the sum of offset and size does not fit into 32 bits. */
  lemma AcceptsIff(s: seq<byte>)
    requires |s| >= HEADERS && Get16(s, 28) == 24 && Get32(s, 30) == 0
    ensures var w, h, offset := S32(Get32(s, 18)), S32(Get32(s, 22)), Get32(s, 10);
            var sized := s[0] == 0x42 && s[1] == 0x4D && 0 < Abs(w) < 0x1_0000 && 0 < Abs(h) < 0x1_0000;
            var end := offset + Abs(h) * RowSize(Abs(w));
            && (Parse(s) == Rows(Abs(w), Abs(h), offset, h > 0) <==> sized && end <= |s|)
            && (Parse(s).Rows? ==> Parse(s) == Rows(Abs(w), Abs(h), offset, h > 0))
            && (Parse(s).Elsewhere? ==> sized && end >= TWO_32)
  {
    MagicIs(s);
    var f := ReadFields(s);
    var width, height := Abs(S32(f.width)), Abs(S32(f.height));
    JudgesIff(f, width, height, height * RowSize(width), |s|);
  }

  lemma JudgesIff(f: Fields, width: nat, height: nat, imageSize: nat, size: nat)
    requires f.bits == 24 && f.compression == 0
    ensures var sized := f.kind == 0x4D42 && 0 < width < 0x1_0000 && 0 < height < 0x1_0000;
            var p := Judge(f, width, height, imageSize, size);
            && (p == Rows(width, height, f.offset, S32(f.height) > 0) <==> sized && f.offset + imageSize <= size)
            && (p.Elsewhere? ==> sized && f.offset + imageSize >= TWO_32)
  {
    SumFits(f.offset, imageSize, size);
  }

  lemma MagicIs(s: seq<byte>)
    requires |s| >= 2
    ensures Get16(s, 0) == 0x4D42 <==> s[0] == 0x42 && s[1] == 0x4D
  {
  }

  lemma SumFits(offset: u32, size: nat, length: nat)
    ensures U32(offset + U32(size)) > length ==> offset + size > length
    ensures U32(offset + U32(size)) <= length < offset + size ==> offset + size >= TWO_32
  {
    var whole := offset + U32(size) + TWO_32 * (size / TWO_32);
    assert whole == offset + size;
  }

  /** A row read from where it was written. */
  lemma RowReadsBack(s: seq<byte>, at: nat, row: seq<u32>, rowSize: nat, x: nat)
    requires HoldsRow(s, at, row, rowSize) && x < |row|
    ensures PixelAt(s, at + 3 * x) == Opaque(row[x])
  {
    ComposeChannels(row[x]);
  }

  /** Writing an image and reading it back: the same size and pixels, alpha forced to 0xFF, for
      every size the reader takes; the others are refused. */
  method SaveAndLoad(image: Image) returns (result: Parsed, pixels: array2<u32>)
    requires WellShaped(image) && FileSize(image.width, image.height) < TWO_32
    ensures result.Rows? <==> 0 < image.width < 0x1_0000 && 0 < image.height < 0x1_0000
    ensures !result.Rows? ==> result == Rejected
    ensures result.Rows? ==> pixels.Length0 == image.height && pixels.Length1 == image.width
    ensures result.Rows? ==> forall y, x :: 0 <= y < image.height && 0 <= x < image.width ==>
                               pixels[y, x] == Opaque(image.rows[y][x])
  {
    var saved := BmpBufferSaver(image);
    if saved.Failed? {
      return Rejected, new u32[0, 0];
    }
    ParseSaved(saved.bytes, image);
    result, pixels := BmpBufferLoader(saved.bytes);
    if result.Rows? {
      PicturesAgree(pixels, saved.bytes, image.rows, RowSize(image.width));
    }
  }

  lemma PicturesAgree(pixels: array2<u32>, s: seq<byte>, rows: seq<seq<u32>>, rowSize: nat)
    requires pixels.Length0 == |rows| && forall y :: 0 <= y < |rows| ==> |rows[y]| == pixels.Length1
    requires HoldsRows(s, rows, rowSize, |rows|)
    requires forall y :: 0 <= y < |rows| ==> HasRow(pixels, y, s, RowAt(HEADERS, rowSize, Flipped(y, |rows|, true)))
    ensures forall y, x :: 0 <= y < |rows| && 0 <= x < pixels.Length1 ==> pixels[y, x] == Opaque(rows[y][x])
  {
    forall y, x | 0 <= y < |rows| && 0 <= x < pixels.Length1
      ensures pixels[y, x] == Opaque(rows[y][x])
    {
      var z := |rows| - 1 - y;
      var at := RowAt(HEADERS, rowSize, z);
      assert Flipped(y, |rows|, true) == z && HasRow(pixels, y, s, at);
      assert HoldsRow(s, at, rows[|rows| - 1 - z], rowSize);
      RowReadsBack(s, at, rows[y], rowSize, x);
    }
  }
}
