/**
  The desktop file names: one PPM file per tile, named by two letters for
  its column and row, then one file per control, all kept in one table in
  the order they are created. Names are modelled without the desktop
  directory they are placed in.
 */
module Names {
  import opened Geometry
  import opened Keys

  /** The character `%c` prints for the integer `v + 'a'`: its low 8 bits. */
  function Letter(v: nat): char {
    ((v + 97) % 256) as char
  }

  /** A C string ends at its first NUL: the part of `s` before it. */
  function UpToNul(s: string): (r: string)
    ensures |r| <= |s| && r == s[..|r|]
    ensures |r| < |s| ==> s[|r|] == 0 as char
    ensures forall i :: 0 <= i < |r| ==> r[i] != 0 as char
    decreases |s|
  {
    if |s| == 0 || s[0] == 0 as char then [] else [s[0]] + UpToNul(s[1..])
  }

  /** The basename `"%c%c.ppm"` of tile `(x, y)`, as the C string it becomes. */
  function TileName(x: nat, y: nat): string {
    UpToNul([Letter(x), Letter(y)] + ".ppm")
  }

  /** Tile coordinates whose letters are neither NUL nor repeated: below 159, since 159 + 'a' is 256. */
  const LETTERS: nat := 159

  /** Below the limit, a tile name is its two letters and the extension. */
  lemma TileNameFull(x: nat, y: nat)
    requires x < LETTERS && y < LETTERS
    ensures TileName(x, y) == [Letter(x), Letter(y)] + ".ppm"
    ensures |TileName(x, y)| == 6
  {
    var s := [Letter(x), Letter(y)] + ".ppm";
    assert UpToNul(s[5..]) == [s[5]] + UpToNul(s[6..]);
    assert UpToNul(s[4..]) == [s[4]] + UpToNul(s[5..]);
    assert UpToNul(s[3..]) == [s[3]] + UpToNul(s[4..]);
    assert UpToNul(s[2..]) == [s[2]] + UpToNul(s[3..]);
    assert UpToNul(s[1..]) == [s[1]] + UpToNul(s[2..]);
  }

  /** Below the limit, distinct tiles get distinct names. */
  lemma TileNamesDistinct(x1: nat, y1: nat, x2: nat, y2: nat)
    requires x1 < LETTERS && y1 < LETTERS && x2 < LETTERS && y2 < LETTERS
    requires (x1, y1) != (x2, y2)
    ensures TileName(x1, y1) != TileName(x2, y2)
  {
    TileNameFull(x1, y1);
    TileNameFull(x2, y2);
    if x1 != x2 {
      assert TileName(x1, y1)[0] != TileName(x2, y2)[0];
    } else {
      assert TileName(x1, y1)[1] != TileName(x2, y2)[1];
    }
  }

  /** At column 159 the first letter is NUL and the name is empty; at column 256 the letters repeat. */
  lemma TileNameLimit(y: nat)
    ensures TileName(LETTERS, y) == []
    ensures TileName(256, y) == TileName(0, y)
  {
  }

  /** The name of entry `j` of a table for a `cols x rows` grid: tiles row-major, then the controls. */
  function NameAt(cols: nat, rows: nat, j: nat): string
    requires j < cols * rows + KEY_COUNT
  {
    if j < cols * rows then TileName(j % cols, j / cols) else KEYS[j - cols * rows].name
  }

  /** The first `n` entries of the table are in place. */
  predicate NamedUpTo(cols: nat, rows: nat, t: seq<string>, n: nat)
    requires n <= cols * rows + KEY_COUNT
  {
    && |t| == n
    && forall j :: 0 <= j < n ==> t[j] == NameAt(cols, rows, j)
  }

  /** Appending tile `(x, y)` at entry `y*cols + x` extends the filled part by one. */
  lemma NameStep(cols: nat, rows: nat, t: seq<string>, x: nat, y: nat, n: nat)
    requires x < cols && y < rows && n == TileIndex(cols, x, y)
    requires n < cols * rows
    requires NamedUpTo(cols, rows, t, n)
    ensures NamedUpTo(cols, rows, t + [TileName(x, y)], n + 1)
  {
    TileNameAt(cols, rows, x, y);
    var t2 := t + [TileName(x, y)];
    forall j | 0 <= j < n + 1
      ensures t2[j] == NameAt(cols, rows, j)
    {
      if j < n {
        assert t2[j] == t[j];
      }
    }
  }

  /** Entry `TileIndex(cols, x, y)` of the table is the name of tile `(x, y)`. */
  lemma TileNameAt(cols: nat, rows: nat, x: nat, y: nat)
    requires x < cols && y < rows
    ensures TileIndex(cols, x, y) < cols * rows
    ensures NameAt(cols, rows, TileIndex(cols, x, y)) == TileName(x, y)
  {
    TileIndexBounds(cols, rows, x, y);
  }

  /** Row `y` of the grid fills entries `y*cols .. y*cols + cols`, inside the tile part of the table. */
  lemma RowEntries(cols: nat, rows: nat, y: nat)
    requires y < rows
    ensures TileIndex(cols, 0, y) + cols == TileIndex(cols, 0, y + 1) <= cols * rows
  {
    MulMono(y + 1, rows, cols);
  }

  /** The inner creation loop: tiles `(0, y) .. (cols-1, y)`, each at the next free entry. */
  method NameRow(cols: nat, rows: nat, y: nat, t: seq<string>, ghost from: nat) returns (out: seq<string>)
    requires y < rows && from == TileIndex(cols, 0, y)
    requires from + cols <= cols * rows
    requires NamedUpTo(cols, rows, t, from)
    ensures NamedUpTo(cols, rows, out, from + cols)
  {
    out := t;
    var x := 0;
    while x < cols
      invariant x <= cols
      invariant NamedUpTo(cols, rows, out, from + x)
    {
      NameStep(cols, rows, out, x, y, from + x);
      out := out + [TileName(x, y)];
      x := x + 1;
    }
  }

  /**
    Builds the file-name table as the setup code does, with a running
    index: tile `(x, y)` lands at `y*cols + x`, and control `i` at
    `cols*rows + i`.
   */
  method NameTable(cols: nat, rows: nat) returns (t: seq<string>)
    ensures |t| == cols * rows + KEY_COUNT
    ensures forall j :: 0 <= j < |t| ==> t[j] == NameAt(cols, rows, j)
    ensures forall x, y :: 0 <= x < cols && 0 <= y < rows ==>
      TileIndex(cols, x, y) < cols * rows && t[TileIndex(cols, x, y)] == TileName(x, y)
    ensures forall i :: 0 <= i < KEY_COUNT ==> t[cols * rows + i] == KEYS[i].name
  {
    t := [];
    var y := 0;
    while y < rows
      invariant y <= rows
      invariant NamedUpTo(cols, rows, t, TileIndex(cols, 0, y))
    {
      RowEntries(cols, rows, y);
      t := NameRow(cols, rows, y, t, TileIndex(cols, 0, y));
      y := y + 1;
    }
    var i := 0;
    while i < KEY_COUNT
      invariant i <= KEY_COUNT
      invariant NamedUpTo(cols, rows, t, cols * rows + i)
    {
      t := t + [KEYS[i].name];
      i := i + 1;
    }
    forall x, y | 0 <= x < cols && 0 <= y < rows
      ensures TileIndex(cols, x, y) < cols * rows && t[TileIndex(cols, x, y)] == TileName(x, y)
    {
      TileNameAt(cols, rows, x, y);
    }
  }

  /** Tile names have length 6, control names do not, so no tile shares a name with a control. */
  lemma ControlNamesDiffer(x: nat, y: nat, i: nat)
    requires x < LETTERS && y < LETTERS && i < KEY_COUNT
    ensures TileName(x, y) != KEYS[i].name
  {
    TileNameFull(x, y);
  }

  /** Entry `j` of the tile part of the table is the tile at column `j % cols`, row `j / cols`. */
  lemma TileEntry(cols: nat, rows: nat, j: nat) returns (x: nat, y: nat)
    requires j < cols * rows
    ensures x < cols && y < rows && TileIndex(cols, x, y) == j
    ensures NameAt(cols, rows, j) == TileName(x, y)
  {
    x, y := TileCoords(cols, rows, j);
    TileNameAt(cols, rows, x, y);
  }

  /** For grids of at most 159 columns and rows every entry of the table names a different file. */
  lemma NameTableDistinct(cols: nat, rows: nat, j1: nat, j2: nat)
    requires cols <= LETTERS && rows <= LETTERS
    requires j1 < j2 < cols * rows + KEY_COUNT
    ensures NameAt(cols, rows, j1) != NameAt(cols, rows, j2)
  {
    var tiles := cols * rows;
    if j2 < tiles {
      var x1, y1 := TileEntry(cols, rows, j1);
      var x2, y2 := TileEntry(cols, rows, j2);
      TileNamesDistinct(x1, y1, x2, y2);
    } else if j1 < tiles {
      var x1, y1 := TileEntry(cols, rows, j1);
      ControlNamesDiffer(x1, y1, j2 - tiles);
    } else {
      KeysDistinct(j1 - tiles, j2 - tiles);
    }
  }
}
