/** The BMP writer of common/Image.cpp and the 24-bit path of its reader.

    Pixels are RGBA words with red in the low byte; the format stores blue, green, red, bottom row
    first, each row padded to four bytes. */
module Bmp {

  import opened Words
  import opened Bytes
  import Arithmetic

  datatype Image = Image(width: nat, height: nat, rows: seq<seq<u32>>)

  predicate WellShaped(image: Image) {
    && |image.rows| == image.height
    && forall y :: 0 <= y < image.height ==> |image.rows[y]| == image.width
  }

  const HEADERS: nat := 54

  /** The writer's row size. */
  function RowSize(width: nat): nat {
    (width * 3 + 3) / 4 * 4
  }

  /** The reader's: once from the bytes of a pixel, once from its bits. */
  function BitRowSize(width: nat): nat {
    (width * 24 + 31) / 32 * 4
  }

  lemma RowSizesAgree(width: nat)
    ensures BitRowSize(width) == RowSize(width) && 3 * width <= RowSize(width) < 3 * width + 4
  {
  }

  /** Where row `y` of the file begins. */
  function RowAt(offset: nat, rowSize: nat, y: nat): (at: nat)
    ensures at >= offset
  {
    offset + y * rowSize
  }

  function FileSize(width: nat, height: nat): (size: nat)
    ensures size >= HEADERS
  {
    RowAt(HEADERS, RowSize(width), height)
  }

  function Red(p: u32): byte { p % 0x100 }
  function Green(p: u32): byte { p / 0x100 % 0x100 }
  function Blue(p: u32): byte { p / 0x100 / 0x100 % 0x100 }

  /** The pixel with its alpha forced to 0xFF. */
  function Opaque(p: u32): u32 {
    p % 0x100_0000 + 0xFF00_0000
  }

  function Compose(r: byte, g: byte, b: byte): u32 {
    var red: int, green: int, blue: int := r, g, b;
    red + 0x100 * green + 0x1_0000 * blue + 0xFF00_0000
  }

  lemma ComposeChannels(p: u32)
    ensures Compose(Red(p), Green(p), Blue(p)) == Opaque(p)
  {
    var q := p / 0x100 / 0x100;
    Arithmetic.Unique(p, 0x100_0000, q / 0x100, q % 0x100 * 0x1_0000 + p / 0x100 % 0x100 * 0x100 + p % 0x100);
  }

  // ----- the file -----

  /** Both headers. */
  function Header(width: u32, height: u32, fileSize: u32, imageSize: u32): (h: seq<byte>)
    ensures |h| == HEADERS
  {
    Le16(0x4D42) + Le32(fileSize) + Le16(0) + Le16(0) + Le32(54)
    + Le32(40) + Le32(width) + Le32(height) + Le16(1) + Le16(24) + Le32(0)
    + Le32(imageSize) + Le32(0) + Le32(0) + Le32(0) + Le32(0)
  }

  /** The bytes at `at` are those of `row`, then zeros up to the row size. */
  ghost predicate HoldsRow(s: seq<byte>, at: nat, row: seq<u32>, rowSize: nat) {
    && 3 * |row| <= rowSize && at + rowSize <= |s|
    && (forall x :: 0 <= x < |row| ==> s[at + 3 * x] == Blue(row[x]) && s[at + 3 * x + 1] == Green(row[x])
                                       && s[at + 3 * x + 2] == Red(row[x]))
    && forall i :: at + 3 * |row| <= i < at + rowSize ==> s[i] == 0
  }

  /** What the writer produces: the headers, then the rows from the bottom up. */
  ghost predicate IsFileOf(s: seq<byte>, image: Image)
    requires WellShaped(image) && FileSize(image.width, image.height) < TWO_32
  {
    var rowSize := RowSize(image.width);
    && |s| == FileSize(image.width, image.height)
    && image.width < TWO_31 && image.height < TWO_31
    && s[..HEADERS] == Header(image.width, image.height, |s|, |s| - HEADERS)
    && HoldsRows(s, image.rows, rowSize, image.height)
  }

  /** The inner loop of the writer. */
  method WriteRow(data: array<byte>, at: nat, row: seq<u32>, rowSize: nat)
    requires 3 * |row| <= rowSize && at + rowSize <= data.Length
    requires forall i :: at <= i < at + rowSize ==> data[i] == 0
    modifies data
    ensures HoldsRow(data[..], at, row, rowSize)
    ensures forall i :: (0 <= i < at || at + rowSize <= i < data.Length) ==> data[i] == old(data[i])
  {
    for x := 0 to |row|
      invariant forall k :: 0 <= k < x ==> data[at + 3 * k] == Blue(row[k]) && data[at + 3 * k + 1] == Green(row[k])
                                           && data[at + 3 * k + 2] == Red(row[k])
      invariant forall i :: at + 3 * x <= i < at + rowSize ==> data[i] == 0
      invariant forall i :: (0 <= i < at || at + rowSize <= i < data.Length) ==> data[i] == old(data[i])
    {
      data[at + 3 * x] := Blue(row[x]);
      data[at + 3 * x + 1] := Green(row[x]);
      data[at + 3 * x + 2] := Red(row[x]);
    }
  }

  datatype SaveResult = Failed | Saved(bytes: seq<byte>)

  lemma SizesFit(image: Image)
    requires image.width > 0 && image.height > 0 && FileSize(image.width, image.height) < TWO_32
    ensures image.width < TWO_31 && image.height < TWO_31
  {
    RowSizesAgree(image.width);
    Arithmetic.MulBound(image.height, 4, image.height, RowSize(image.width));
    Arithmetic.MulBound(1, RowSize(image.width), image.height, RowSize(image.width));
  }

  /** The first `n` rows of the file are written. */
  ghost predicate HoldsRows(s: seq<byte>, rows: seq<seq<u32>>, rowSize: nat, n: nat)
    requires n <= |rows|
  {
    forall y :: 0 <= y < n ==> HoldsRow(s, RowAt(HEADERS, rowSize, y), rows[|rows| - 1 - y], rowSize)
  }

  /** The outer loop of the writer, bottom row first, into a buffer of zeros. */
  method WriteRows(data: array<byte>, rows: seq<seq<u32>>, rowSize: nat)
    requires data.Length == RowAt(HEADERS, rowSize, |rows|)
    requires forall y :: 0 <= y < |rows| ==> 3 * |rows[y]| <= rowSize
    requires forall i :: HEADERS <= i < data.Length ==> data[i] == 0
    modifies data
    ensures HoldsRows(data[..], rows, rowSize, |rows|)
    ensures forall i :: 0 <= i < HEADERS ==> data[i] == old(data[i])
  {
    for y := 0 to |rows|
      invariant forall i :: 0 <= i < HEADERS ==> data[i] == old(data[i])
      invariant HoldsRows(data[..], rows, rowSize, y)
      invariant forall i :: RowAt(HEADERS, rowSize, y) <= i < data.Length ==> data[i] == 0
    {
      NextRowFits(HEADERS, rowSize, y, |rows|);
      WriteNextRow(data, RowAt(HEADERS, rowSize, y), rows, rowSize, y);
    }
  }

  /** One turn of the outer loop. */
  method WriteNextRow(data: array<byte>, at: nat, rows: seq<seq<u32>>, rowSize: nat, y: nat)
    requires y < |rows| && at == RowAt(HEADERS, rowSize, y) && at + rowSize <= data.Length
    requires 3 * |rows[|rows| - 1 - y]| <= rowSize
    requires forall i :: at <= i < data.Length ==> data[i] == 0
    requires HoldsRows(data[..], rows, rowSize, y)
    modifies data
    ensures HoldsRows(data[..], rows, rowSize, y + 1)
    ensures forall i :: 0 <= i < at ==> data[i] == old(data[i])
    ensures forall i :: at + rowSize <= i < data.Length ==> data[i] == 0
  {
    ghost var before := data[..];
    WriteRow(data, at, rows[|rows| - 1 - y], rowSize);
    KeepsRows(before, data[..], rows, rowSize, y);
    OneMoreRow(data[..], rows, rowSize, y);
  }

  lemma OneMoreRow(s: seq<byte>, rows: seq<seq<u32>>, rowSize: nat, y: nat)
    requires y < |rows| && HoldsRows(s, rows, rowSize, y)
    requires HoldsRow(s, RowAt(HEADERS, rowSize, y), rows[|rows| - 1 - y], rowSize)
    ensures HoldsRows(s, rows, rowSize, y + 1)
  {
  }

  lemma NextRowFits(offset: nat, rowSize: nat, y: nat, n: nat)
    requires y < n
    ensures offset <= RowAt(offset, rowSize, y) && RowAt(offset, rowSize, y) + rowSize == RowAt(offset, rowSize, y + 1)
    ensures RowAt(offset, rowSize, y + 1) <= RowAt(offset, rowSize, n)
  {
    Arithmetic.MulMonotone(y + 1, n, rowSize);
  }

  lemma KeepsRows(s: seq<byte>, t: seq<byte>, rows: seq<seq<u32>>, rowSize: nat, n: nat)
    requires n <= |rows| && HoldsRows(s, rows, rowSize, n) && |t| == |s|
    requires forall i :: 0 <= i < RowAt(HEADERS, rowSize, n) && i < |s| ==> t[i] == s[i]
    ensures HoldsRows(t, rows, rowSize, n)
  {
    forall y | 0 <= y < n
      ensures HoldsRow(t, RowAt(HEADERS, rowSize, y), rows[|rows| - 1 - y], rowSize)
    {
      NextRowFits(HEADERS, rowSize, y, n);
      KeepsRow(s, t, RowAt(HEADERS, rowSize, y), rows[|rows| - 1 - y], rowSize);
    }
  }

  method BmpBufferSaver(image: Image) returns (r: SaveResult)
    requires WellShaped(image) && FileSize(image.width, image.height) < TWO_32
    ensures r.Failed? <==> image.width == 0 || image.height == 0
    ensures r.Saved? ==> IsFileOf(r.bytes, image)
  {
    if image.width == 0 || image.height == 0 {
      return Failed;
    }
    SizesFit(image);
    RowSizesAgree(image.width);
    var size := FileSize(image.width, image.height);
    var bytes := Assemble(Header(image.width, image.height, size, size - HEADERS), image.rows, RowSize(image.width));
    r := Saved(bytes);
  }

  /** Headers, rows and padding in one zero-filled buffer. */
  method Assemble(header: seq<byte>, rows: seq<seq<u32>>, rowSize: nat) returns (bytes: seq<byte>)
    requires |header| == HEADERS && forall y :: 0 <= y < |rows| ==> 3 * |rows[y]| <= rowSize
    ensures |bytes| == RowAt(HEADERS, rowSize, |rows|) && bytes[..HEADERS] == header
    ensures HoldsRows(bytes, rows, rowSize, |rows|)
  {
    var data := new byte[RowAt(HEADERS, rowSize, |rows|)](_ => 0);
    CopyInto(data, 0, header);
    assert data[..HEADERS] == header;
    WriteRows(data, rows, rowSize);
    bytes := data[..];
    assert bytes[..HEADERS] == header;
  }

  lemma KeepsRow(s: seq<byte>, t: seq<byte>, at: nat, row: seq<u32>, rowSize: nat)
    requires HoldsRow(s, at, row, rowSize) && |t| == |s|
    requires forall i :: 0 <= i < at + rowSize ==> t[i] == s[i]
    ensures HoldsRow(t, at, row, rowSize)
  {
  }
}
