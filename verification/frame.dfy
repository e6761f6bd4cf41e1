/**
  One frame of the desktop display: every tile file of the grid is opened,
  positioned just after its PPM header and overwritten with the tile's pixel
  data; the key-marker files that follow the tiles in the name table are left
  alone.
 */
module Frame {
  import opened Ascii
  import opened Geometry
  import Netpbm
  import opened TileEncoder

  function Max(a: nat, b: nat): nat {
    if a < b then b else a
  }

  /**
    `fseek(f, off, SEEK_SET)` followed by `fwrite(data)` on a file opened
    "r+": bytes before `off` are kept, a gap past the old end reads as zeros,
    `data` replaces what was at `off`, and whatever lay beyond it survives.
   */
  function WriteAt(file: seq<byte>, off: nat, data: seq<byte>): (r: seq<byte>)
    ensures |r| == Max(|file|, off + |data|)
    ensures forall i | 0 <= i < |r| ::
      r[i] == (if off <= i < off + |data| then data[i - off] else if i < |file| then file[i] else 0)
  {
    var front := if off <= |file| then file[..off] else file + Zeros(off - |file|);
    var back := if off + |data| <= |file| then file[off + |data|..] else [];
    front + data + back
  }

  /** Read-after-write: the written range holds exactly the data, and an existing prefix is untouched. */
  lemma WriteAtReadBack(file: seq<byte>, off: nat, data: seq<byte>)
    ensures off + |data| <= |WriteAt(file, off, data)|
    ensures WriteAt(file, off, data)[off..off + |data|] == data
    ensures off <= |file| ==> WriteAt(file, off, data)[..off] == file[..off]
  {
    var r := WriteAt(file, off, data);
    assert r[off..off + |data|] == data;
    if off <= |file| {
      assert r[..off] == file[..off];
    }
  }

  /**
    The pixel write of a frame leaves a tile file holding exactly the header
    and the new pixel data, whether the file held only the header (the first
    frame) or the header and an earlier frame of the same size.
   */
  lemma TileFileAfterWrite(header: seq<byte>, previous: seq<byte>, data: seq<byte>)
    requires |previous| == 0 || |previous| == |data|
    ensures WriteAt(header + previous, |header|, data) == header + data
  {
    var r := WriteAt(header + previous, |header|, data);
    assert |r| == |header + data|;
    forall i | 0 <= i < |r|
      ensures r[i] == (header + data)[i]
    {
    }
  }

  /** What the frame loop leaves in entry `i` of the file table: tiles are redrawn, markers kept. */
  function Drawn(g: Grid, pixels: seq<Color>, files: seq<seq<byte>>, headerLen: nat, i: nat): seq<byte>
    requires g.Dims() && FrameFits(g, pixels) && i < |files|
  {
    if i < g.Tiles() then
      var cols := g.Cols();
      assert 0 < cols by { TileIndexOnto(cols, g.Rows(), i); }
      WriteAt(files[i], headerLen, TileBytes(g, pixels, i % cols, i / cols))
    else files[i]
  }

  /** The frame loop has handled the first `n` entries of the table and not yet touched the others. */
  predicate DrawnUpTo(g: Grid, pixels: seq<Color>, files: seq<seq<byte>>, headerLen: nat, out: seq<seq<byte>>, n: int)
    requires g.Dims() && FrameFits(g, pixels)
  {
    && |out| == |files|
    && forall i | 0 <= i < |files| :: out[i] == (if i < n then Drawn(g, pixels, files, headerLen, i) else files[i])
  }

  /** Entry `TileIndex(cols, x, y)` is drawn from tile `(x, y)`. */
  lemma DrawnTile(g: Grid, pixels: seq<Color>, files: seq<seq<byte>>, headerLen: nat, x: nat, y: nat)
    requires g.Dims() && FrameFits(g, pixels)
    requires x < g.Cols() && y < g.Rows() && g.Tiles() <= |files|
    ensures TileIndex(g.Cols(), x, y) < g.Tiles()
    ensures Drawn(g, pixels, files, headerLen, TileIndex(g.Cols(), x, y))
         == WriteAt(files[TileIndex(g.Cols(), x, y)], headerLen, TileBytes(g, pixels, x, y))
  {
    TileIndexBounds(g.Cols(), g.Rows(), x, y);
  }

  /** One pass of the inner loop: tile `(x, y)` is encoded and written to its entry, the next one in table order. */
  lemma DrawStep(g: Grid, pixels: seq<Color>, files: seq<seq<byte>>, headerLen: nat, out: seq<seq<byte>>,
                 x: nat, y: nat, fi: int, tile: seq<byte>)
    requires g.Dims() && FrameFits(g, pixels)
    requires x < g.Cols() && y < g.Rows() && g.Tiles() <= |files|
    requires fi == TileIndex(g.Cols(), x, y) && tile == TileBytes(g, pixels, x, y)
    requires DrawnUpTo(g, pixels, files, headerLen, out, fi)
    ensures 0 <= fi < |out| && out[fi] == files[fi]
    ensures DrawnUpTo(g, pixels, files, headerLen, out[fi := WriteAt(out[fi], headerLen, tile)], fi + 1)
  {
    DrawnTile(g, pixels, files, headerLen, x, y);
  }

  /** The inner loop of the frame loop: the tiles of grid row `y`, left to right. */
  method DrawRow(g: Grid, pixels: seq<Color>, files: seq<seq<byte>>, headerLen: nat, y: nat,
                 out: seq<seq<byte>>, ghost from: int)
    returns (next: seq<seq<byte>>)
    requires g.Dims() && FrameFits(g, pixels)
    requires y < g.Rows() && g.Tiles() <= |files|
    requires from == TileIndex(g.Cols(), 0, y)
    requires DrawnUpTo(g, pixels, files, headerLen, out, from)
    ensures DrawnUpTo(g, pixels, files, headerLen, next, from + g.Cols())
  {
    var cols := g.Cols();
    next := out;
    var x := 0;
    while x < cols
      invariant x <= cols
      invariant DrawnUpTo(g, pixels, files, headerLen, next, from + x)
    {
      var fi := y * cols + x;
      var tile := EncodeTile(g, pixels, x, y);
      DrawStep(g, pixels, files, headerLen, next, x, y, fi, tile);
      next := next[fi := WriteAt(next[fi], headerLen, tile)];
      x := x + 1;
    }
  }

  /** Grid row `y + 1` starts `cols` entries after row `y`. */
  lemma NextTileRow(cols: nat, a: nat, b: nat)
    requires b == a + 1
    ensures TileIndex(cols, 0, b) == TileIndex(cols, 0, a) + cols
  {
  }

  /** The row after the last one starts just past the tiles. */
  lemma PastLastTileRow(g: Grid)
    requires g.Dims()
    ensures TileIndex(g.Cols(), 0, g.Rows()) == g.Tiles()
  {
  }

  /**
    The frame loop: every tile `(x, y)` of the grid, in row-major order, is
    encoded and written at offset `headerLen` of table entry `y*cols + x`.
   */
  method DrawFrame(g: Grid, pixels: seq<Color>, files: seq<seq<byte>>, headerLen: nat) returns (out: seq<seq<byte>>)
    requires g.Dims() && FrameFits(g, pixels) && g.Tiles() <= |files|
    ensures |out| == |files|
    ensures forall i | 0 <= i < |files| :: out[i] == Drawn(g, pixels, files, headerLen, i)
  {
    var rows := g.Rows();
    out := files;
    var y := 0;
    while y < rows
      invariant y <= rows
      invariant DrawnUpTo(g, pixels, files, headerLen, out, TileIndex(g.Cols(), 0, y))
    {
      out := DrawRow(g, pixels, files, headerLen, y, out, TileIndex(g.Cols(), 0, y));
      ghost var row := y;
      y := y + 1;
      NextTileRow(g.Cols(), row, y);
    }
    PastLastTileRow(g);
  }

  /**
    Every frame pixel `(px, py)` lands in tile `(px/res, py/res)` at
    intra-tile position `(px%res, py%res)`: that tile exists, and the three
    bytes there are the pixel's red, green and blue.
   */
  lemma PixelPlaced(g: Grid, pixels: seq<Color>, px: nat, py: nat, c: nat)
    requires g.Dims() && g.NoWrap() && FrameFits(g, pixels)
    requires px < g.width && py < g.height && c < 3
    ensures TileOfCoord(px, g.res) < g.Cols() && TileOfCoord(py, g.res) < g.Rows()
    ensures 0 <= py * g.width + px < |pixels|
    ensures Slot(g.res, OffsetInTile(px, g.res), OffsetInTile(py, g.res), c) < g.BufferLen()
    ensures TileBytes(g, pixels, TileOfCoord(px, g.res), TileOfCoord(py, g.res))[Slot(g.res, OffsetInTile(px, g.res), OffsetInTile(py, g.res), c)]
         == Channel(pixels[py * g.width + px], c)
  {
    var res := g.res;
    var tx, imgx, ty, imgy := TileOfCoord(px, res), OffsetInTile(px, res), TileOfCoord(py, res), OffsetInTile(py, res);
    CeilDivIsCeiling(g.width, res);
    CeilDivIsCeiling(g.height, res);
    TileBelow(res, px, g.Cols());
    TileBelow(res, py, g.Rows());
    PixelIndexBound(g.width, g.height, px, py);
    TileByteAt(g, pixels, tx, ty, imgx, imgy, c);
  }

  /** A frame coordinate below `n*res` falls in one of the first `n` tiles. */
  lemma TileBelow(res: nat, p: nat, n: nat)
    requires 0 < res && p < n * res
    ensures TileOfCoord(p, res) < n
  {
    if TileOfCoord(p, res) >= n {
      MulMono(n, TileOfCoord(p, res), res);
    }
  }

  /** No other tile or intra-tile position covers the same frame coordinate. */
  lemma PixelPlacedOnce(res: nat, p: nat, t: nat, i: nat)
    requires 0 < res && i < res && t * res + i == p
    ensures t == TileOfCoord(p, res) && i == OffsetInTile(p, res)
  {
    DivModUnique(p, res, t, i);
  }

  /** A tile file holds its header, followed either by nothing (before the first frame) or by one tile of data. */
  predicate TileFile(g: Grid, file: seq<byte>) {
    var h := Netpbm.Header(g.res);
    |h| <= |file| && file[..|h|] == h && (|file| == |h| || |file| == |h| + g.BufferLen())
  }

  /**
    After a frame, the tile file that holds frame pixel `(px, py)` is the
    header followed by the tile's data, and the pixel's channel `c` is the
    byte at `headerLen + Slot(...)` of that file.
   */
  lemma PixelInTileFile(g: Grid, pixels: seq<Color>, files: seq<seq<byte>>, out: seq<seq<byte>>,
                        px: nat, py: nat, c: nat)
    requires g.Dims() && g.NoWrap() && FrameFits(g, pixels) && g.Tiles() <= |files|
    requires forall i | 0 <= i < g.Tiles() :: TileFile(g, files[i])
    requires |out| == |files| && forall i | 0 <= i < |files| :: out[i] == Drawn(g, pixels, files, |Netpbm.Header(g.res)|, i)
    requires px < g.width && py < g.height && c < 3
    ensures var fi := TileIndex(g.Cols(), TileOfCoord(px, g.res), TileOfCoord(py, g.res));
            var k := |Netpbm.Header(g.res)| + Slot(g.res, OffsetInTile(px, g.res), OffsetInTile(py, g.res), c);
            && fi < g.Tiles()
            && out[fi] == Netpbm.Header(g.res) + TileBytes(g, pixels, TileOfCoord(px, g.res), TileOfCoord(py, g.res))
            && 0 <= py * g.width + px < |pixels|
            && k < |out[fi]|
            && out[fi][k] == Channel(pixels[py * g.width + px], c)
  {
    var h := Netpbm.Header(g.res);
    var tx, ty := TileOfCoord(px, g.res), TileOfCoord(py, g.res);
    PixelPlaced(g, pixels, px, py, c);
    DrawnTile(g, pixels, files, |h|, tx, ty);
    var fi := TileIndex(g.Cols(), tx, ty);
    var data := TileBytes(g, pixels, tx, ty);
    assert files[fi] == h + files[fi][|h|..];
    TileFileAfterWrite(h, files[fi][|h|..], data);
  }
}
