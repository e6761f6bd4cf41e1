/**
  The binary PPM ("P6") framing of a tile file: an ASCII header naming the
  magic number, width, height and maximum channel value, then the raster.
  `Header` is what the backend writes; `ParseHeader` and `Raster` are a reader
  of that framing, the partner against which the header is checked.
 */
module Netpbm {
  import opened Wrappers
  import opened Ascii

  const MAGIC: seq<byte> := [80, 54]        // "P6"
  const MAXVAL: seq<byte> := [50, 53, 53]   // "255"

  /** `"P6\n%u %u\n255\n"` formatted with the tile edge twice. */
  function Header(res: nat): (h: seq<byte>)
    ensures |h| == 9 + 2 * |Decimal(res)|
  {
    MAGIC + [NEWLINE] + Decimal(res) + [SPACE] + Decimal(res) + [NEWLINE] + (MAXVAL + [NEWLINE])
  }

  /** What a reader finds in a header: dimensions, maximum value and where the raster begins. */
  datatype PpmHeader = PpmHeader(width: nat, height: nat, maxval: nat, dataOffset: nat)

  /** A decimal field at the front of `s`, ended by exactly one whitespace byte; yields its value and what follows. */
  function Field(s: seq<byte>): (r: Option<(nat, seq<byte>)>)
    ensures r.Some? ==> |r.value.1| < |s|
  {
    var k := ScanDigits(s);
    if k == 0 || k >= |s| || !IsSpace(s[k]) then None
    else Some((ValueFrom(0, s[..k]), s[k + 1..]))
  }

  /** Reads magic number, width, height and maximum value; the raster starts where the header's bytes end. */
  function ParseHeader(f: seq<byte>): Option<PpmHeader> {
    if |f| < 3 || f[..2] != MAGIC || !IsSpace(f[2]) then None
    else
      match Field(f[3..])
      case None => None
      case Some(width) =>
        match Field(width.1)
        case None => None
        case Some(height) =>
          match Field(height.1)
          case None => None
          case Some(maxval) => Some(PpmHeader(width.0, height.0, maxval.0, |f| - |maxval.1|))
  }

  /** The raster of a header's image: three bytes per pixel. */
  function RasterLen(hd: PpmHeader): nat {
    3 * hd.width * hd.height
  }

  /** The raster a reader extracts: `3*width*height` bytes after the header when the maximum value is below 256. */
  function Raster(f: seq<byte>): Option<seq<byte>> {
    var hd :- ParseHeader(f);
    var len := RasterLen(hd);
    if hd.maxval == 0 || hd.maxval >= 256 || hd.dataOffset + len > |f| then None
    else Some(f[hd.dataOffset..hd.dataOffset + len])
  }

  /** A written decimal followed by a separator reads back as its value, leaving the bytes after the separator. */
  lemma FieldDecimal(n: nat, sep: byte, rest: seq<byte>)
    requires IsSpace(sep)
    ensures Field(Decimal(n) + ([sep] + rest)) == Some((n, rest))
  {
    var s := Decimal(n) + ([sep] + rest);
    ReadDecimal(n, [sep] + rest);
    assert s[|Decimal(n)| + 1..] == rest;
  }

  /** The header followed by data, grouped field by field from the front. */
  lemma HeaderFields(res: nat, data: seq<byte>)
    ensures var d := Decimal(res);
            Header(res) + data == MAGIC + ([NEWLINE] + (d + ([SPACE] + (d + ([NEWLINE] + (MAXVAL + ([NEWLINE] + data)))))))
  {
  }

  /** The magic number and its separator in front of the rest of a header. */
  lemma MagicFront(f: seq<byte>, s1: seq<byte>)
    requires f == MAGIC + ([NEWLINE] + s1)
    ensures |f| >= 3 && f[..2] == MAGIC && f[2] == NEWLINE && f[3..] == s1
  {
    assert f[..2] == MAGIC;
    assert f[3..] == s1;
  }

  /** The reader's verdict on a file whose three fields read successfully. */
  lemma ParseFields(f: seq<byte>, s1: seq<byte>, w: nat, s2: seq<byte>, h: nat, s3: seq<byte>, m: nat, rest: seq<byte>)
    requires |f| >= 3 && f[..2] == MAGIC && IsSpace(f[2]) && f[3..] == s1
    requires Field(s1) == Some((w, s2)) && Field(s2) == Some((h, s3)) && Field(s3) == Some((m, rest))
    ensures ParseHeader(f) == Some(PpmHeader(w, h, m, |f| - |rest|))
  {
  }

  /** A reader of the header the backend writes sees a `res x res` image with maximum value 255 whose raster starts right after the header. */
  lemma HeaderRoundTrip(res: nat, data: seq<byte>)
    ensures ParseHeader(Header(res) + data) == Some(PpmHeader(res, res, 255, |Header(res)|))
  {
    var d := Decimal(res);
    var f := Header(res) + data;
    var s3 := MAXVAL + ([NEWLINE] + data);
    var s2 := d + ([NEWLINE] + s3);
    var s1 := d + ([SPACE] + s2);
    HeaderFields(res, data);
    MagicFront(f, s1);
    FieldDecimal(res, SPACE, s2);
    FieldDecimal(res, NEWLINE, s3);
    MaxvalIsDecimal();
    FieldDecimal(255, NEWLINE, data);
    ParseFields(f, s1, res, s2, res, s3, 255, data);
    assert PpmHeader(res, res, 255, |f| - |data|) == PpmHeader(res, res, 255, |Header(res)|);
  }

  lemma MaxvalIsDecimal()
    ensures Decimal(255) == MAXVAL
  {
    assert Decimal(25) == [DigitChar(2), DigitChar(5)];
  }

  /** The raster a reader returns once the header has been read. */
  lemma RasterAfter(f: seq<byte>, hd: PpmHeader, data: seq<byte>)
    requires ParseHeader(f) == Some(hd) && 0 < hd.maxval < 256
    requires |data| == 3 * hd.width * hd.height && f == f[..hd.dataOffset] + data
    ensures Raster(f) == Some(data)
  {
    assert f[hd.dataOffset..hd.dataOffset + |data|] == data;
  }

  /** A tile file holding the header and `3*res*res` bytes presents exactly those bytes as its raster. */
  lemma RasterOfTileFile(res: nat, data: seq<byte>)
    requires 0 < res && |data| == 3 * res * res
    ensures Raster(Header(res) + data) == Some(data)
  {
    HeaderRoundTrip(res, data);
    var f := Header(res) + data;
    assert f[..|Header(res)|] == Header(res);
    RasterAfter(f, PpmHeader(res, res, 255, |Header(res)|), data);
  }
}
