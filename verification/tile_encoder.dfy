/**
  The per-frame tile encoder: every tile of the grid receives the RGB bytes of
  the frame pixels it covers, zero bytes where it overhangs the frame, written
  into its file just after the PPM header.
 */
module TileEncoder {
  import opened Ascii
  import opened Geometry

  /** One frame-buffer pixel; the fourth channel is carried but never encoded. */
  datatype Color = Color(r: byte, g: byte, b: byte, a: byte)

  /** Channel 0, 1, 2 of a pixel as it is laid out in the raster: red, green, blue. */
  function Channel(p: Color, c: nat): byte
    requires c < 3
  {
    if c == 0 then p.r else if c == 1 then p.g else p.b
  }

  function Min(a: nat, b: nat): nat {
    if a <= b then a else b
  }

  /** The frame buffer holds `width*height` pixels, row-major. */
  predicate FrameFits(g: Grid, pixels: seq<Color>) {
    |pixels| == g.width * g.height
  }

  lemma PixelIndexBound(width: nat, height: nat, px: int, py: int)
    requires 0 <= px < width && 0 <= py < height
    ensures 0 <= py * width + px
    ensures py * width + px < width * height
  {
    MulMono(py + 1, height, width);
  }

  /** Channel `c` of frame pixel `(px, py)`, or zero for a position outside the frame. */
  function FrameByte(g: Grid, pixels: seq<Color>, px: int, py: int, c: nat): byte
    requires FrameFits(g, pixels) && c < 3
  {
    if 0 <= px < g.width && 0 <= py < g.height then
      PixelIndexBound(g.width, g.height, px, py);
      Channel(pixels[py * g.width + px], c)
    else 0
  }

  /** The three raster bytes of frame position `(px, py)`: its red, green and blue, or zeros outside the frame. */
  function PixelBytes(g: Grid, pixels: seq<Color>, px: int, py: int): (r: seq<byte>)
    requires FrameFits(g, pixels)
    ensures |r| == 3
  {
    [FrameByte(g, pixels, px, py, 0), FrameByte(g, pixels, px, py, 1), FrameByte(g, pixels, px, py, 2)]
  }

  /** The first `n` pixels of the tile row that starts at frame position `(x0, py)`, left to right. */
  function RowBytes(g: Grid, pixels: seq<Color>, x0: int, py: int, n: nat): (r: seq<byte>)
    requires FrameFits(g, pixels)
    ensures |r| == 3 * n
    decreases n
  {
    if n == 0 then []
    else RowBytes(g, pixels, x0, py, n - 1) + PixelBytes(g, pixels, x0 + n - 1, py)
  }

  /** The first `n` rows of the tile whose top-left pixel is frame position `(x0, y0)`, top to bottom. */
  function RowsBytes(g: Grid, pixels: seq<Color>, x0: int, y0: int, n: nat): seq<byte>
    requires FrameFits(g, pixels)
    decreases n
  {
    if n == 0 then []
    else RowsBytes(g, pixels, x0, y0, n - 1) + RowBytes(g, pixels, x0, y0 + n - 1, g.res)
  }

  lemma {:induction false} RowsBytesLen(g: Grid, pixels: seq<Color>, x0: int, y0: int, n: nat)
    requires FrameFits(g, pixels)
    ensures |RowsBytes(g, pixels, x0, y0, n)| == 3 * g.res * n
    decreases n
  {
    if n > 0 {
      RowsBytesLen(g, pixels, x0, y0, n - 1);
    }
  }

  /** The pixel data of tile `(tx, ty)`: its `res` rows of `res` RGB triples, row-major. */
  function TileBytes(g: Grid, pixels: seq<Color>, tx: nat, ty: nat): (r: seq<byte>)
    requires FrameFits(g, pixels)
    ensures |r| == g.BufferLen()
  {
    RowsBytesLen(g, pixels, tx * g.res, ty * g.res, g.res);
    RowsBytes(g, pixels, tx * g.res, ty * g.res, g.res)
  }

  lemma {:induction false} RowBytesAt(g: Grid, pixels: seq<Color>, x0: int, py: int, n: nat, imgx: nat, c: nat)
    requires FrameFits(g, pixels) && imgx < n && c < 3
    ensures RowBytes(g, pixels, x0, py, n)[3 * imgx + c] == FrameByte(g, pixels, x0 + imgx, py, c)
    decreases n
  {
    if imgx < n - 1 {
      RowBytesAt(g, pixels, x0, py, n - 1, imgx, c);
    }
  }

  /** Byte `j` of row `imgy` sits just after the rows above it. */
  lemma {:induction false} RowsBytesAt(g: Grid, pixels: seq<Color>, x0: int, y0: int, n: nat, imgy: nat, j: int)
    requires FrameFits(g, pixels) && imgy < n && 0 <= j < 3 * g.res
    ensures |RowsBytes(g, pixels, x0, y0, imgy)| + j < |RowsBytes(g, pixels, x0, y0, n)|
    ensures RowsBytes(g, pixels, x0, y0, n)[|RowsBytes(g, pixels, x0, y0, imgy)| + j]
         == RowBytes(g, pixels, x0, y0 + imgy, g.res)[j]
    decreases n
  {
    if imgy < n - 1 {
      RowsBytesAt(g, pixels, x0, y0, n - 1, imgy, j);
    }
  }

  /** The rows above row `imgy` of a tile fill `3*res*imgy` bytes. */
  lemma RowsBytesAtOffset(g: Grid, pixels: seq<Color>, x0: int, y0: int, n: nat, imgy: nat, j: int)
    requires FrameFits(g, pixels) && imgy < n && 0 <= j < 3 * g.res
    ensures 0 <= 3 * g.res * imgy + j < |RowsBytes(g, pixels, x0, y0, n)|
    ensures RowsBytes(g, pixels, x0, y0, n)[3 * g.res * imgy + j] == RowBytes(g, pixels, x0, y0 + imgy, g.res)[j]
  {
    RowsBytesLen(g, pixels, x0, y0, imgy);
    RowsBytesAt(g, pixels, x0, y0, n, imgy, j);
  }

  /** The byte at offset `Slot(res, imgx, imgy, c)` of a tile is channel `c` of the frame position under `(imgx, imgy)`. */
  lemma TileByteAt(g: Grid, pixels: seq<Color>, tx: nat, ty: nat, imgx: nat, imgy: nat, c: nat)
    requires FrameFits(g, pixels)
    requires imgx < g.res && imgy < g.res && c < 3
    ensures Slot(g.res, imgx, imgy, c) < g.BufferLen()
    ensures TileBytes(g, pixels, tx, ty)[Slot(g.res, imgx, imgy, c)]
         == FrameByte(g, pixels, tx * g.res + imgx, ty * g.res + imgy, c)
  {
    SlotInRange(g.res, imgx, imgy, c);
    SlotIsOffset(g.res, imgx, imgy, c);
    TileChannelAt(g, pixels, tx * g.res, ty * g.res, imgx, imgy, c);
  }

  /**
    Pixel placement: in the data of tile `(tx, ty)`, the byte at
    `(imgy*res + imgx)*3 + c` is channel `c` (red, green, blue; alpha is
    dropped) of frame pixel `(tx*res + imgx, ty*res + imgy)`, and zero where
    the tile overhangs the frame.
   */
  lemma TilePlacement(g: Grid, pixels: seq<Color>, tx: nat, ty: nat)
    requires FrameFits(g, pixels)
    ensures forall imgx, imgy, c | 0 <= imgx < g.res && 0 <= imgy < g.res && 0 <= c < 3 ::
      && Slot(g.res, imgx, imgy, c) < |TileBytes(g, pixels, tx, ty)|
      && TileBytes(g, pixels, tx, ty)[Slot(g.res, imgx, imgy, c)]
         == FrameByte(g, pixels, tx * g.res + imgx, ty * g.res + imgy, c)
  {
    forall imgx, imgy, c | 0 <= imgx < g.res && 0 <= imgy < g.res && 0 <= c < 3
      ensures Slot(g.res, imgx, imgy, c) < |TileBytes(g, pixels, tx, ty)|
      ensures TileBytes(g, pixels, tx, ty)[Slot(g.res, imgx, imgy, c)]
           == FrameByte(g, pixels, tx * g.res + imgx, ty * g.res + imgy, c)
    {
      TileByteAt(g, pixels, tx, ty, imgx, imgy, c);
    }
  }

  /** Positions of a tile beyond the right or bottom edge of the frame carry zero bytes. */
  lemma PaddingIsZero(g: Grid, pixels: seq<Color>, tx: nat, ty: nat, imgx: nat, imgy: nat, c: nat)
    requires FrameFits(g, pixels)
    requires imgx < g.res && imgy < g.res && c < 3
    requires tx * g.res + imgx >= g.width || ty * g.res + imgy >= g.height
    ensures Slot(g.res, imgx, imgy, c) < |TileBytes(g, pixels, tx, ty)|
    ensures TileBytes(g, pixels, tx, ty)[Slot(g.res, imgx, imgy, c)] == 0
  {
    TileByteAt(g, pixels, tx, ty, imgx, imgy, c);
  }

  /** The loop bound `total - t*res` of a tile inside the grid neither underflows nor is zero. */
  lemma SpanNoUnderflow(total: nat, res: nat, t: nat)
    requires 0 < res && total < UINT32 && t < CeilDiv(total, res)
    ensures 0 < U32(total - t * res) == total - t * res
  {
    CeilDivNoOverrun(total, res, t);
  }

  /** The partial buffer the encoding loop keeps: the first `n` bytes hold their final value, the rest are still cleared. */
  predicate FilledUpTo(buf: seq<byte>, want: seq<byte>, n: int) {
    && |buf| == |want|
    && forall k | 0 <= k < |buf| :: buf[k] == (if k < n then want[k] else 0)
  }

  /** Writing the three channel bytes of the next pixel advances the filled prefix by three bytes. */
  lemma WritePixelStep(buf: seq<byte>, want: seq<byte>, n: int, r: byte, g: byte, b: byte)
    requires FilledUpTo(buf, want, n) && 0 <= n && n + 3 <= |want|
    requires want[n] == r && want[n + 1] == g && want[n + 2] == b
    ensures FilledUpTo(buf[n := r][n + 1 := g][n + 2 := b], want, n + 3)
  {
  }

  /** `n` zero bytes: the buffer as `memset` leaves it. */
  function Zeros(n: nat): (r: seq<byte>)
    ensures |r| == n && forall k | 0 <= k < n :: r[k] == 0
  {
    seq(n, _ => 0)
  }

  /** The cleared buffer has an empty filled prefix. */
  lemma Cleared(want: seq<byte>, n: nat)
    requires n == |want|
    ensures FilledUpTo(Zeros(n), want, 0)
  {
  }

  /** Once every offset is filled, the buffer is the expected data. */
  lemma FilledAll(buf: seq<byte>, want: seq<byte>)
    requires FilledUpTo(buf, want, |want|)
    ensures buf == want
  {
  }

  /** Offsets `lo` up to `hi` of `s` exist and hold zero. */
  predicate ZeroSpan(s: seq<byte>, lo: int, hi: int) {
    0 <= lo <= hi <= |s| && forall k | lo <= k < hi :: s[k] == 0
  }

  /** Offsets whose final byte is zero need no write: the filled prefix extends over them. */
  lemma SkipPadding(buf: seq<byte>, want: seq<byte>, n: int, m: int)
    requires FilledUpTo(buf, want, n) && ZeroSpan(want, n, m)
    ensures FilledUpTo(buf, want, m)
  {
  }

  /** The loop bounds `MIN(res, total - t*res)` are exactly the in-frame extent of a tile that starts inside the frame. */
  lemma SpanIsInFrame(total: nat, res: nat, t: nat, i: nat)
    requires t * res < total < UINT32
    ensures i < Min(res, U32(total - t * res)) <==> i < res && t * res + i < total
  {
    SpanIsInFrame0(total, res, t * res, i);
  }

  lemma SpanIsInFrame0(total: nat, res: nat, t0: int, i: nat)
    requires 0 <= t0 < total < UINT32
    ensures i < Min(res, U32(total - t0)) <==> i < res && t0 + i < total
  {
  }

  /** The loop's offset `(imgy*res + imgx)*3` and the row bounds, in the form the raster lemmas use. */
  lemma RowOffsets(res: int, imgy: int, imgx: int)
    ensures (imgy * res + imgx) * 3 == 3 * res * imgy + 3 * imgx
    ensures 3 * (imgy * res + imgx) == 3 * res * imgy + 3 * imgx
    ensures 3 * ((imgy + 1) * res) == 3 * res * imgy + 3 * res
    ensures 3 * res * (imgy + 1) == 3 * res * imgy + 3 * res
    ensures imgy == 0 ==> 3 * res * imgy == 0
  {
  }

  /** Rows `0..m` of a tile end inside its pixel data. */
  lemma RowsWithinTile(res: nat, m: nat)
    requires m <= res
    ensures 3 * res * m <= 3 * res * res
  {
    MulMono(m, res, 3 * res);
  }

  /** Channel `c` of in-tile pixel `(imgx, imgy)` sits at offset `3*res*imgy + 3*imgx + c` of the tile's data. */
  lemma TileChannelAt(g: Grid, pixels: seq<Color>, x0: int, y0: int, imgx: nat, imgy: nat, c: nat)
    requires FrameFits(g, pixels)
    requires imgx < g.res && imgy < g.res && c < 3
    ensures 0 <= 3 * g.res * imgy + 3 * imgx + c < |RowsBytes(g, pixels, x0, y0, g.res)|
    ensures RowsBytes(g, pixels, x0, y0, g.res)[3 * g.res * imgy + 3 * imgx + c]
         == FrameByte(g, pixels, x0 + imgx, y0 + imgy, c)
  {
    RowsBytesAtOffset(g, pixels, x0, y0, g.res, imgy, 3 * imgx + c);
    RowBytesAt(g, pixels, x0, y0 + imgy, g.res, imgx, c);
  }

  /** Inside the frame, the bytes of position `(px, py)` are the red, green and blue of pixel `py*width + px`. */
  lemma InFrameBytes(g: Grid, pixels: seq<Color>, px: int, py: int)
    requires FrameFits(g, pixels)
    requires 0 <= px < g.width && 0 <= py < g.height
    ensures 0 <= py * g.width + px < |pixels|
    ensures FrameByte(g, pixels, px, py, 0) == pixels[py * g.width + px].r
    ensures FrameByte(g, pixels, px, py, 1) == pixels[py * g.width + px].g
    ensures FrameByte(g, pixels, px, py, 2) == pixels[py * g.width + px].b
  {
    PixelIndexBound(g.width, g.height, px, py);
  }

  /** Where the loop copies pixel `(imgx, imgy)`, it is inside the frame and its bytes are the next three of the tile. */
  lemma CopyPixel(g: Grid, pixels: seq<Color>, x0: int, y0: int, imgx: nat, imgy: nat, spanX: nat, spanY: nat)
    requires g.Dims() && FrameFits(g, pixels)
    requires 0 <= x0 < g.width && 0 <= y0 < g.height
    requires spanX == Min(g.res, U32(g.width - x0)) && spanY == Min(g.res, U32(g.height - y0))
    requires imgx < spanX && imgy < spanY
    ensures x0 + imgx < g.width && y0 + imgy < g.height
    ensures var want := RowsBytes(g, pixels, x0, y0, g.res);
            var i := 3 * g.res * imgy + 3 * imgx;
            && 0 <= i && i + 3 <= |want|
            && want[i] == FrameByte(g, pixels, x0 + imgx, y0 + imgy, 0)
            && want[i + 1] == FrameByte(g, pixels, x0 + imgx, y0 + imgy, 1)
            && want[i + 2] == FrameByte(g, pixels, x0 + imgx, y0 + imgy, 2)
  {
    SpanIsInFrame0(g.width, g.res, x0, imgx);
    SpanIsInFrame0(g.height, g.res, y0, imgy);
    TileChannelAt(g, pixels, x0, y0, imgx, imgy, 0);
    TileChannelAt(g, pixels, x0, y0, imgx, imgy, 1);
    TileChannelAt(g, pixels, x0, y0, imgx, imgy, 2);
  }

  /**
    One pass of the inner loop: pixel `pi` of the frame is inside it, and its
    red, green and blue are the tile's bytes at offset `i`, the next three
    after the filled prefix.
   */
  lemma CopyStep(g: Grid, pixels: seq<Color>, x0: int, y0: int, imgx: nat, imgy: nat, spanX: nat, spanY: nat,
                 i: int, pi: int)
    requires g.Dims() && FrameFits(g, pixels)
    requires 0 <= x0 < g.width && 0 <= y0 < g.height
    requires spanX == Min(g.res, U32(g.width - x0)) && spanY == Min(g.res, U32(g.height - y0))
    requires imgx < spanX && imgy < spanY
    requires i == (imgy * g.res + imgx) * 3 && pi == (y0 + imgy) * g.width + (x0 + imgx)
    ensures 0 <= pi < |pixels|
    ensures 0 <= i == 3 * g.res * imgy + 3 * imgx
    ensures var want := RowsBytes(g, pixels, x0, y0, g.res);
            && i + 3 <= |want|
            && want[i] == pixels[pi].r && want[i + 1] == pixels[pi].g && want[i + 2] == pixels[pi].b
  {
    CopyPixel(g, pixels, x0, y0, imgx, imgy, spanX, spanY);
    InFrameBytes(g, pixels, x0 + imgx, y0 + imgy);
    RowOffsets(g.res, imgy, imgx);
  }

  /** Pixels of a row from column `m` on contribute zeros when they lie right of the frame or the row lies below it. */
  lemma {:induction false} RowTailZero(g: Grid, pixels: seq<Color>, x0: int, py: int, n: nat, m: nat, j: int)
    requires FrameFits(g, pixels)
    requires x0 + m >= g.width || py >= g.height
    requires 3 * m <= j < 3 * n
    ensures RowBytes(g, pixels, x0, py, n)[j] == 0
    decreases n
  {
    if j < 3 * (n - 1) {
      RowTailZero(g, pixels, x0, py, n - 1, m, j);
    }
  }

  /** Rows from `m` on that lie below the frame contribute zeros. */
  lemma {:induction false} RowsTailZero(g: Grid, pixels: seq<Color>, x0: int, y0: int, n: nat, m: nat, k: int)
    requires FrameFits(g, pixels)
    requires y0 + m >= g.height && m <= n
    requires |RowsBytes(g, pixels, x0, y0, m)| <= k < |RowsBytes(g, pixels, x0, y0, n)|
    ensures RowsBytes(g, pixels, x0, y0, n)[k] == 0
    decreases n
  {
    var prefix := RowsBytes(g, pixels, x0, y0, n - 1);
    if k < |prefix| {
      RowsTailZero(g, pixels, x0, y0, n - 1, m, k);
    } else {
      RowTailZero(g, pixels, x0, y0 + n - 1, g.res, 0, k - |prefix|);
    }
  }

  /** Where a tile's loop bound `MIN(res, total - t0)` stops short of `res`, the next position is already outside the frame. */
  lemma SpanEnd(total: nat, res: nat, t0: int, span: nat)
    requires 0 <= t0 < total < UINT32
    requires span == Min(res, U32(total - t0))
    ensures span <= res
    ensures span < res ==> t0 + span >= total
  {
  }

  /** Byte `j` of row `imgy` of a tile, at or right of column `spanX`, is padding. */
  lemma RowPaddingAt(g: Grid, pixels: seq<Color>, x0: int, y0: int, imgy: nat, spanX: nat, j: nat)
    requires g.Dims() && FrameFits(g, pixels)
    requires 0 <= x0 < g.width && imgy < g.res && spanX == Min(g.res, U32(g.width - x0))
    requires 3 * spanX <= j < 3 * g.res
    ensures 0 <= 3 * g.res * imgy + j < |RowsBytes(g, pixels, x0, y0, g.res)|
    ensures RowsBytes(g, pixels, x0, y0, g.res)[3 * g.res * imgy + j] == 0
  {
    SpanEnd(g.width, g.res, x0, spanX);
    RowsBytesAtOffset(g, pixels, x0, y0, g.res, imgy, j);
    RowTailZero(g, pixels, x0, y0 + imgy, g.res, spanX, j);
  }

  /** Row `imgy` of a tile starts at a non-negative offset and ends inside the tile's data. */
  lemma RowBase(res: nat, imgy: nat)
    requires imgy < res
    ensures 0 <= 3 * res * imgy && 3 * res * imgy + 3 * res <= 3 * res * res
  {
    RowOffsets(res, imgy, 0);
    RowsWithinTile(res, imgy + 1);
  }

  /** In row `imgy` of a tile, the columns from `spanX` on lie right of the frame and are padding. */
  lemma RowPadding(g: Grid, pixels: seq<Color>, x0: int, y0: int, imgy: nat, spanX: nat)
    requires g.Dims() && FrameFits(g, pixels)
    requires 0 <= x0 < g.width && imgy < g.res && spanX == Min(g.res, U32(g.width - x0))
    ensures ZeroSpan(RowsBytes(g, pixels, x0, y0, g.res), 3 * g.res * imgy + 3 * spanX, 3 * g.res * imgy + 3 * g.res)
  {
    var want := RowsBytes(g, pixels, x0, y0, g.res);
    var base := 3 * g.res * imgy;
    SpanEnd(g.width, g.res, x0, spanX);
    RowBase(g.res, imgy);
    RowsBytesLen(g, pixels, x0, y0, g.res);
    forall k | base + 3 * spanX <= k < base + 3 * g.res
      ensures want[k] == 0
    {
      RowPaddingAt(g, pixels, x0, y0, imgy, spanX, k - base);
    }
  }

  /** The rows of a tile from `spanY` on lie below the frame and are padding. */
  lemma BottomPadding(g: Grid, pixels: seq<Color>, x0: int, y0: int, spanY: nat)
    requires g.Dims() && FrameFits(g, pixels)
    requires 0 <= y0 < g.height && spanY == Min(g.res, U32(g.height - y0))
    ensures ZeroSpan(RowsBytes(g, pixels, x0, y0, g.res), 3 * g.res * spanY, 3 * g.res * g.res)
  {
    SpanEnd(g.height, g.res, y0, spanY);
    RowsWithinTile(g.res, spanY);
    RowsBytesLen(g, pixels, x0, y0, g.res);
    RowsBytesLen(g, pixels, x0, y0, spanY);
    forall k | 3 * g.res * spanY <= k < 3 * g.res * g.res {
      RowsTailZero(g, pixels, x0, y0, g.res, spanY, k);
    }
  }

  /**
    The inner loop of the frame encoder for row `imgy` of a tile: the
    columns inside the frame are copied pixel by pixel, and the row's
    remaining bytes keep the zero the buffer was cleared to. On entry the
    rows above, `from = 3*res*imgy` bytes, are filled; on exit this row is too.
   */
  method CopyRow(g: Grid, pixels: seq<Color>, x0: int, y0: int, imgy: nat, spanX: nat, spanY: nat,
                 buf: seq<byte>, ghost from: int)
    returns (out: seq<byte>)
    requires g.Dims() && FrameFits(g, pixels)
    requires 0 <= x0 < g.width && 0 <= y0 < g.height
    requires spanX == Min(g.res, U32(g.width - x0)) && spanY == Min(g.res, U32(g.height - y0))
    requires imgy < spanY && from == |RowsBytes(g, pixels, x0, y0, imgy)|
    requires FilledUpTo(buf, RowsBytes(g, pixels, x0, y0, g.res), from)
    ensures FilledUpTo(out, RowsBytes(g, pixels, x0, y0, g.res), from + 3 * g.res)
  {
    var res := g.res;
    ghost var want := RowsBytes(g, pixels, x0, y0, res);
    RowsBytesLen(g, pixels, x0, y0, imgy);
    SpanEnd(g.width, res, x0, spanX);
    out := buf;
    ghost var filled := from;
    var imgx := 0;
    while imgx < spanX
      invariant imgx <= spanX && filled == from + 3 * imgx
      invariant FilledUpTo(out, want, filled)
    {
      var imgi := (imgy * res + imgx) * 3;
      var fbi := (y0 + imgy) * g.width + (x0 + imgx);
      CopyStep(g, pixels, x0, y0, imgx, imgy, spanX, spanY, imgi, fbi);
      var pix := pixels[fbi];
      WritePixelStep(out, want, imgi, pix.r, pix.g, pix.b);
      out := out[imgi := pix.r][imgi + 1 := pix.g][imgi + 2 := pix.b];
      filled := filled + 3;
      imgx := imgx + 1;
    }
    RowPadding(g, pixels, x0, y0, imgy, spanX);
    SkipPadding(out, want, filled, from + 3 * res);
  }

  /** The outer loop of the frame encoder: the rows of a tile that lie inside the frame, top to bottom. */
  method CopyRows(g: Grid, pixels: seq<Color>, x0: int, y0: int, spanX: nat, spanY: nat, buf: seq<byte>)
    returns (out: seq<byte>)
    requires g.Dims() && FrameFits(g, pixels)
    requires 0 <= x0 < g.width && 0 <= y0 < g.height
    requires spanX == Min(g.res, U32(g.width - x0)) && spanY == Min(g.res, U32(g.height - y0))
    requires FilledUpTo(buf, RowsBytes(g, pixels, x0, y0, g.res), 0)
    ensures FilledUpTo(out, RowsBytes(g, pixels, x0, y0, g.res), |RowsBytes(g, pixels, x0, y0, spanY)|)
  {
    ghost var want := RowsBytes(g, pixels, x0, y0, g.res);
    out := buf;
    var imgy := 0;
    while imgy < spanY
      invariant imgy <= spanY
      invariant FilledUpTo(out, want, |RowsBytes(g, pixels, x0, y0, imgy)|)
    {
      out := CopyRow(g, pixels, x0, y0, imgy, spanX, spanY, out, |RowsBytes(g, pixels, x0, y0, imgy)|);
      imgy := imgy + 1;
    }
  }

  /**
    One tile as the frame loop encodes it: the buffer is cleared, then the
    rows and columns that lie inside the frame are copied pixel by pixel.
    Whatever the frame, the result is the tile's expected pixel data.
   */
  method EncodeTile(g: Grid, pixels: seq<Color>, tx: nat, ty: nat) returns (buf: seq<byte>)
    requires g.Dims() && FrameFits(g, pixels)
    requires tx < g.Cols() && ty < g.Rows()
    ensures buf == TileBytes(g, pixels, tx, ty)
  {
    var res := g.res;
    CeilDivNoOverrun(g.width, res, tx);
    CeilDivNoOverrun(g.height, res, ty);
    var x0 := tx * res;
    var y0 := ty * res;
    ghost var want := RowsBytes(g, pixels, x0, y0, res);
    RowsBytesLen(g, pixels, x0, y0, res);
    buf := Zeros(3 * res * res);
    Cleared(want, 3 * res * res);
    var spanY := Min(res, U32(g.height - y0));
    var spanX := Min(res, U32(g.width - x0));
    buf := CopyRows(g, pixels, x0, y0, spanX, spanY, buf);
    BottomPadding(g, pixels, x0, y0, spanY);
    RowsBytesLen(g, pixels, x0, y0, spanY);
    SkipPadding(buf, want, |RowsBytes(g, pixels, x0, y0, spanY)|, |want|);
    FilledAll(buf, want);
  }
}
