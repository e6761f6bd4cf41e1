/**
  Tile geometry of the desktop display: the frame buffer is cut into a grid of
  `res`-square tiles, stored row-major in a flat table, and every tile's pixel
  data is an array of `res*res` RGB triples.
 */
module Geometry {

  /** `guint` arithmetic wraps modulo 2^32. */
  const UINT32: nat := 0x1_0000_0000

  function U32(n: int): (r: nat)
    ensures r < UINT32
  {
    n % UINT32
  }

  /** The grid computation `(total + res - 1) / res`, evaluated in `guint`. */
  function CeilDiv(total: nat, res: nat): nat
    requires 0 < res
  {
    U32(total + res - 1) / res
  }

  /** A frame of `width * height` pixels cut into `res`-square tiles; one tile's pixel buffer holds `3*res*res` bytes. */
  datatype Grid = Grid(width: nat, height: nat, res: nat) {

    /** The frame dimensions and the tile edge are `guint` values, and the tiles are not empty. */
    predicate Dims() {
      0 < res < UINT32 && width < UINT32 && height < UINT32
    }

    /** Both ceiling computations stay below 2^32. */
    predicate NoWrap() {
      0 < res && width + res <= UINT32 && height + res <= UINT32
    }

    function Cols(): nat
      requires Dims()
    {
      CeilDiv(width, res)
    }

    function Rows(): nat
      requires Dims()
    {
      CeilDiv(height, res)
    }

    function Tiles(): nat
      requires Dims()
    {
      Cols() * Rows()
    }

    function BufferLen(): nat {
      3 * res * res
    }
  }

  lemma MulMono(a: nat, b: nat, c: nat)
    requires a <= b
    ensures a * c <= b * c
  {
  }

  /** Without wrap the grid is the exact ceiling: `n*res >= total > (n-1)*res`. */
  lemma CeilDivIsCeiling(total: nat, res: nat)
    requires 0 < res && total + res <= UINT32
    ensures CeilDiv(total, res) * res >= total
    ensures (CeilDiv(total, res) - 1) * res < total
  {
    var n := CeilDiv(total, res);
    assert U32(total + res - 1) == total + res - 1;
    assert n * res <= total + res - 1 < n * res + res;
  }

  /** Wrapped or not, the last tile row/column starts inside the frame. */
  lemma CeilDivNoOverrun(total: nat, res: nat, t: nat)
    requires 0 < res
    requires t < CeilDiv(total, res)
    ensures 0 <= t * res < total
  {
    var m := U32(total + res - 1);
    var n := m / res;
    assert m <= total + res - 1;
    assert n * res <= m;
    MulMono(t + 1, n, res);
  }

  /** The tile row or column that frame coordinate `p` falls in. */
  function TileOfCoord(p: nat, res: nat): (t: nat)
    requires 0 < res
    ensures t * res <= p < t * res + res
  {
    p / res
  }

  /** The offset of frame coordinate `p` inside its tile. */
  function OffsetInTile(p: nat, res: nat): (i: nat)
    requires 0 < res
    ensures i < res && TileOfCoord(p, res) * res + i == p
  {
    p % res
  }

  /** Tile `(x, y)` lives at index `y*cols + x` of the flat table. */
  function TileIndex(cols: nat, x: nat, y: nat): nat {
    y * cols + x
  }

  /** The flat index is a bijection from `[0,cols) x [0,rows)` onto `[0, cols*rows)`. */
  lemma TileIndexBounds(cols: nat, rows: nat, x: nat, y: nat)
    requires x < cols && y < rows
    ensures TileIndex(cols, x, y) < cols * rows
    ensures TileIndex(cols, x, y) / cols == y
    ensures TileIndex(cols, x, y) % cols == x
  {
    MulMono(y + 1, rows, cols);
    DivModUnique(TileIndex(cols, x, y), cols, y, x);
  }

  lemma TileIndexOnto(cols: nat, rows: nat, i: nat)
    requires i < cols * rows
    ensures 0 < cols
    ensures i % cols < cols && i / cols < rows
    ensures TileIndex(cols, i % cols, i / cols) == i
  {
    if i / cols >= rows {
      MulMono(rows, i / cols, cols);
    }
  }

  /** The column and row of flat index `i`. */
  lemma TileCoords(cols: nat, rows: nat, i: nat) returns (x: nat, y: nat)
    requires i < cols * rows
    ensures x < cols && y < rows && TileIndex(cols, x, y) == i
  {
    TileIndexOnto(cols, rows, i);
    x, y := i % cols, i / cols;
  }

  /** Euclidean division has exactly one quotient/remainder pair. */
  lemma DivModUnique(n: nat, d: nat, q: nat, r: nat)
    requires 0 <= r < d
    requires n == q * d + r
    ensures n / d == q && n % d == r
  {
    var q', r' := n / d, n % d;
    assert q' * d + r' == q * d + r;
    if q' < q {
      MulMono(q' + 1, q, d);
    } else if q < q' {
      MulMono(q + 1, q', d);
    }
  }

  /** Offset of channel `c` of intra-tile pixel `(imgx, imgy)` in a tile's pixel data. */
  function Slot(res: nat, imgx: nat, imgy: nat, c: nat): nat {
    (imgy * res + imgx) * 3 + c
  }

  /** The slot of `(imgx, imgy, c)` follows the `imgy` full rows above it. */
  lemma SlotIsOffset(res: nat, imgx: nat, imgy: nat, c: nat)
    ensures Slot(res, imgx, imgy, c) == 3 * res * imgy + 3 * imgx + c
  {
  }

  lemma SlotInRange(res: nat, imgx: nat, imgy: nat, c: nat)
    requires imgx < res && imgy < res && c < 3
    ensures Slot(res, imgx, imgy, c) < 3 * res * res
  {
    MulMono(imgy + 1, res, res);
  }

  /** Pixel-data offset `k` decoded back to its column, row and channel. */
  function SlotColumn(res: nat, k: nat): nat
    requires 0 < res
  {
    (k / 3) % res
  }

  function SlotRow(res: nat, k: nat): nat
    requires 0 < res
  {
    (k / 3) / res
  }

  function SlotChannel(k: nat): nat {
    k % 3
  }

  /** Every in-tile position has exactly one offset, inside the `3*res*res` buffer. */
  lemma SlotDecode(res: nat, imgx: nat, imgy: nat, c: nat)
    requires imgx < res && imgy < res && c < 3
    ensures Slot(res, imgx, imgy, c) < 3 * res * res
    ensures SlotColumn(res, Slot(res, imgx, imgy, c)) == imgx
    ensures SlotRow(res, Slot(res, imgx, imgy, c)) == imgy
    ensures SlotChannel(Slot(res, imgx, imgy, c)) == c
  {
    var p := imgy * res + imgx;
    MulMono(imgy + 1, res, res);
    assert p < res * res;
    DivModUnique(p * 3 + c, 3, p, c);
    DivModUnique(p, res, imgy, imgx);
  }

  /** Every offset of the buffer is the offset of exactly one in-tile position. */
  lemma SlotEncode(res: nat, k: nat)
    requires 0 < res && k < 3 * res * res
    ensures SlotColumn(res, k) < res && SlotRow(res, k) < res && SlotChannel(k) < 3
    ensures Slot(res, SlotColumn(res, k), SlotRow(res, k), SlotChannel(k)) == k
  {
    var p := k / 3;
    assert p < res * res;
    if p / res >= res {
      MulMono(res, p / res, res);
    }
  }

  /** The three bytes of pixel `(imgx, imgy)` are the offsets `3*(imgy*res+imgx) ..+2` and no others. */
  lemma SlotsOfPixel(res: nat, imgx: nat, imgy: nat, k: nat)
    requires imgx < res && imgy < res
    ensures (SlotRow(res, k) == imgy && SlotColumn(res, k) == imgx)
        <==> Slot(res, imgx, imgy, 0) <= k < Slot(res, imgx, imgy, 0) + 3
  {
    var p := imgy * res + imgx;
    var q := k / 3;
    assert q == p <==> 3 * p <= k < 3 * p + 3;
    assert q == (q / res) * res + q % res;
    if q / res == imgy && q % res == imgx {
      assert q == p;
    }
    if q == p {
      DivModUnique(q, res, imgy, imgx);
    }
  }
}
