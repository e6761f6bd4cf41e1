/**
  The desktop display backend as a whole: setup creates the tile files and
  the file-name table, each frame rewrites every tile file, and each poll
  serves one key event from the controls.
 */
module Desktop {
  import opened Wrappers
  import opened Ascii
  import opened Geometry
  import Netpbm
  import opened TileEncoder
  import opened Frame
  import opened Keys
  import opened Names
  import opened ControlFile
  import opened Backlog

  /**
    The backend's state: the tile grid, the header length every tile write
    skips, the file-name table, the contents of the tile files (entry `i`
    for table entry `i`), and the input poller's state.
   */
  datatype Display = Display(grid: Grid, headerLen: nat, names: seq<string>, tiles: seq<seq<byte>>, input: State)

  /** No key queued or pressed, every control under its plain name, an empty control file. */
  function Released(): (s: State)
    ensures Ready(s) && Mirrored(s)
    ensures |s.backlog| == 0 && |s.control| == 0
    ensures forall i :: 0 <= i < KEY_COUNT ==> !s.pressed[i] && s.markers[i] == Plain
  {
    State([], [false, false, false, false, false, false], [Plain, Plain, Plain, Plain, Plain, Plain], [])
  }

  /**
    What holds between calls: a grid small enough that every tile has a file
    of its own, tile files framed by the header, and the poller's assumptions.
   */
  predicate Good(d: Display) {
    && d.grid.Dims()
    && d.grid.Cols() <= LETTERS && d.grid.Rows() <= LETTERS
    && d.headerLen == |Netpbm.Header(d.grid.res)|
    && |d.tiles| == d.grid.Tiles()
    && (forall i :: 0 <= i < |d.tiles| ==> TileFile(d.grid, d.tiles[i]))
    && Ready(d.input)
  }

  /**
    Setup for a `width x height` frame and `res`-pixel tiles: the grid is
    the ceiling of the frame over the tile size, every tile file holds just
    the header, the name table lists the tiles row-major and then the
    controls, and input starts released.
   */
  method Init(width: nat, height: nat, res: nat) returns (d: Display)
    requires 0 < res < UINT32 && width < UINT32 && height < UINT32
    requires CeilDiv(width, res) <= LETTERS && CeilDiv(height, res) <= LETTERS
    ensures Good(d) && Mirrored(d.input)
    ensures d.grid == Grid(width, height, res)
    ensures d.headerLen == 9 + 2 * |Decimal(res)|
    ensures |d.names| == d.grid.Tiles() + KEY_COUNT
    ensures forall x, y :: 0 <= x < d.grid.Cols() && 0 <= y < d.grid.Rows() ==>
      TileIndex(d.grid.Cols(), x, y) < d.grid.Tiles() && d.names[TileIndex(d.grid.Cols(), x, y)] == TileName(x, y)
    ensures forall i :: 0 <= i < KEY_COUNT ==> d.names[d.grid.Tiles() + i] == KEYS[i].name
    ensures forall j1, j2 :: 0 <= j1 < j2 < |d.names| ==> d.names[j1] != d.names[j2]
    ensures forall i :: 0 <= i < |d.tiles| ==> d.tiles[i] == Netpbm.Header(res)
    ensures d.input == Released()
  {
    var g := Grid(width, height, res);
    var header := Netpbm.Header(res);
    var names := NameTable(g.Cols(), g.Rows());
    var tiles := seq(g.Tiles(), _ => header);
    d := Display(g, |header|, names, tiles, Released());
    forall j1, j2 | 0 <= j1 < j2 < |names|
      ensures names[j1] != names[j2]
    {
      NameTableDistinct(g.Cols(), g.Rows(), j1, j2);
    }
    forall i | 0 <= i < |tiles|
      ensures TileFile(g, tiles[i])
    {
      assert tiles[i][..|header|] == header;
    }
  }

  /** The frame call: every tile file is rewritten behind its header; names and input are untouched. */
  method DrawFrame(d: Display, pixels: seq<Color>) returns (d': Display)
    requires Good(d) && FrameFits(d.grid, pixels)
    ensures Good(d')
    ensures d'.grid == d.grid && d'.names == d.names && d'.input == d.input
    ensures forall x, y :: 0 <= x < d.grid.Cols() && 0 <= y < d.grid.Rows() ==>
      && TileIndex(d.grid.Cols(), x, y) < |d'.tiles|
      && d'.tiles[TileIndex(d.grid.Cols(), x, y)] == Netpbm.Header(d.grid.res) + TileBytes(d.grid, pixels, x, y)
  {
    var out := Frame.DrawFrame(d.grid, pixels, d.tiles, d.headerLen);
    d' := d.(tiles := out);
    forall x, y | 0 <= x < d.grid.Cols() && 0 <= y < d.grid.Rows()
      ensures TileIndex(d.grid.Cols(), x, y) < |out|
      ensures out[TileIndex(d.grid.Cols(), x, y)] == Netpbm.Header(d.grid.res) + TileBytes(d.grid, pixels, x, y)
    {
      RedrawnTile(d, pixels, out, x, y);
    }
    forall i | 0 <= i < |out|
      ensures TileFile(d.grid, out[i])
    {
      RedrawnEntry(d, pixels, out, i);
    }
  }

  /** Every entry of the tile table is still a framed tile file after the frame loop. */
  lemma RedrawnEntry(d: Display, pixels: seq<Color>, out: seq<seq<byte>>, i: nat)
    requires Good(d) && FrameFits(d.grid, pixels)
    requires |out| == |d.tiles| && forall i | 0 <= i < |d.tiles| :: out[i] == Drawn(d.grid, pixels, d.tiles, d.headerLen, i)
    requires i < |out|
    ensures TileFile(d.grid, out[i])
  {
    var x, y := TileCoords(d.grid.Cols(), d.grid.Rows(), i);
    RedrawnTile(d, pixels, out, x, y);
  }

  /** After the frame loop, tile `(x, y)`'s file is its header followed by its fresh pixel data. */
  lemma RedrawnTile(d: Display, pixels: seq<Color>, out: seq<seq<byte>>, x: nat, y: nat)
    requires Good(d) && FrameFits(d.grid, pixels)
    requires |out| == |d.tiles| && forall i | 0 <= i < |d.tiles| :: out[i] == Drawn(d.grid, pixels, d.tiles, d.headerLen, i)
    requires x < d.grid.Cols() && y < d.grid.Rows()
    ensures TileIndex(d.grid.Cols(), x, y) < |out|
    ensures out[TileIndex(d.grid.Cols(), x, y)] == Netpbm.Header(d.grid.res) + TileBytes(d.grid, pixels, x, y)
    ensures TileFile(d.grid, out[TileIndex(d.grid.Cols(), x, y)])
  {
    var h := Netpbm.Header(d.grid.res);
    var fi := TileIndex(d.grid.Cols(), x, y);
    DrawnTile(d.grid, pixels, d.tiles, d.headerLen, x, y);
    assert d.tiles[fi] == h + d.tiles[fi][|h|..];
    TileFileAfterWrite(h, d.tiles[fi][|h|..], TileBytes(d.grid, pixels, x, y));
    assert (h + TileBytes(d.grid, pixels, x, y))[..|h|] == h;
  }

  /** After a frame, a PPM reader opening tile `(x, y)`'s file sees exactly that tile's pixel data. */
  lemma FrameReadsBack(d: Display, pixels: seq<Color>, d': Display, x: nat, y: nat)
    requires Good(d) && FrameFits(d.grid, pixels) && d'.grid == d.grid
    requires x < d.grid.Cols() && y < d.grid.Rows()
    requires TileIndex(d.grid.Cols(), x, y) < |d'.tiles|
    requires d'.tiles[TileIndex(d.grid.Cols(), x, y)] == Netpbm.Header(d.grid.res) + TileBytes(d.grid, pixels, x, y)
    ensures Netpbm.Raster(d'.tiles[TileIndex(d.grid.Cols(), x, y)]) == Some(TileBytes(d.grid, pixels, x, y))
  {
    Netpbm.RasterOfTileFile(d.grid.res, TileBytes(d.grid, pixels, x, y));
  }

  /** One poll of the input; `None` is the fatal rename failure. */
  function PollKey(d: Display): (r: Option<(Display, Reply)>)
    requires Ready(d.input)
    ensures Mirrored(d.input) ==> r.Some?
    ensures r.Some? ==> Ready(r.value.0.input) && r.value.0.tiles == d.tiles && r.value.0.names == d.names
  {
    var p :- GetKey(d.input);
    Some((d.(input := p.next), p.reply))
  }

  /** The icon name of control `i`: its plain name, with "(ACTIVE)" appended while pressed. */
  function MarkerName(i: nat, m: Marker): (r: string)
    requires i < KEY_COUNT
    ensures |KEYS[i].name| <= |r| && r[..|KEYS[i].name|] == KEYS[i].name
    ensures m == Plain <==> |r| == |KEYS[i].name|
    ensures m == Active ==> r[|KEYS[i].name|..] == "(ACTIVE)"
  {
    KEYS[i].name + (if m == Active then "(ACTIVE)" else "")
  }

  /** The two names of a control's icon differ, so the rename really moves the file. */
  lemma MarkerNamesDiffer(i: nat)
    requires i < KEY_COUNT
    ensures MarkerName(i, Plain) != MarkerName(i, Active)
  {
    assert |MarkerName(i, Plain)| != |MarkerName(i, Active)|;
  }

  predicate Black(pixels: seq<Color>) {
    forall i :: 0 <= i < |pixels| ==> pixels[i].r == 0 && pixels[i].g == 0 && pixels[i].b == 0
  }

  lemma BlackFrameByte(g: Grid, pixels: seq<Color>, px: int, py: int, c: nat)
    requires FrameFits(g, pixels) && Black(pixels) && c < 3
    ensures FrameByte(g, pixels, px, py, c) == 0
  {
    if 0 <= px < g.width && 0 <= py < g.height {
      PixelIndexBound(g.width, g.height, px, py);
      var i := py * g.width + px;
      assert pixels[i].r == 0 && pixels[i].g == 0 && pixels[i].b == 0;
    }
  }

  lemma BlackByte(g: Grid, pixels: seq<Color>, tx: nat, ty: nat, imgx: nat, imgy: nat, c: nat)
    requires FrameFits(g, pixels) && Black(pixels)
    requires imgx < g.res && imgy < g.res && c < 3
    ensures Slot(g.res, imgx, imgy, c) < g.BufferLen()
    ensures TileBytes(g, pixels, tx, ty)[Slot(g.res, imgx, imgy, c)] == 0
  {
    TileByteAt(g, pixels, tx, ty, imgx, imgy, c);
    BlackFrameByte(g, pixels, tx * g.res + imgx, ty * g.res + imgy, c);
  }

  /** A black frame writes only zero bytes: every tile's data is all zeros. */
  lemma BlackTile(g: Grid, pixels: seq<Color>, tx: nat, ty: nat)
    requires 0 < g.res && FrameFits(g, pixels) && Black(pixels)
    ensures TileBytes(g, pixels, tx, ty) == Zeros(g.BufferLen())
  {
    var t := TileBytes(g, pixels, tx, ty);
    forall k | 0 <= k < |t|
      ensures t[k] == 0
    {
      SlotEncode(g.res, k);
      BlackByte(g, pixels, tx, ty, SlotColumn(g.res, k), SlotRow(g.res, k), SlotChannel(k));
    }
  }

  /** The default 320x200 frame with 64-pixel tiles: a 5x4 grid whose files start with the 13-byte header "P6\n64 64\n255\n". */
  lemma DefaultGrid()
    ensures Grid(320, 200, 64).Cols() == 5 && Grid(320, 200, 64).Rows() == 4 && Grid(320, 200, 64).Tiles() == 20
    ensures Netpbm.Header(64) == [80, 54, 10, 54, 52, 32, 54, 52, 10, 50, 53, 53, 10]
    ensures |Netpbm.Header(64)| == 13
  {
    assert Decimal(64) == Decimal(6) + [DigitChar(4)];
  }

  /** A user runs control `i`'s script and the game then polls once. */
  function Click(s: State, i: nat): (r: Option<Poll>)
    requires Ready(s) && Separated(s.control) && i < KEY_COUNT
    ensures Mirrored(s) ==> r.Some?
    ensures r.Some? ==> Ready(r.value.next)
  {
    PressQueues(s, i);
    GetKey(Press(s, i))
  }

  /**
    With nothing queued and an empty control file, a click is reported by
    the very next poll: the control's state flips, its icon follows, and
    the poller is idle again afterwards.
   */
  lemma ClickServes(s: State, i: nat)
    requires Ready(s) && Mirrored(s) && |s.backlog| == 0 && s.control == [] && i < KEY_COUNT
    ensures Click(s, i).Some?
    ensures var n := Click(s, i).value.next;
            && Click(s, i).value.reply == KeyEvent(!s.pressed[i], KEYS[i].doomKey)
            && n.pressed == s.pressed[i := !s.pressed[i]]
            && n.markers[i] == MarkerFor(!s.pressed[i])
            && Mirrored(n) && n.backlog == [] && n.control == []
  {
    PressQueues(s, i);
    var s1 := Press(s, i);
    assert [] + [i as byte] == [i as byte];
    RefillServesLast(s1, [i as byte]);
  }

  /**
    Clicking FIRE with nothing queued reports FIRE pressed and marks its
    icon active; clicking it again reports FIRE released and restores the
    plain name.
   */
  lemma FireTwice()
    ensures var p1 := Click(Released(), FIRE);
            && p1.Some? && p1.value.reply == KeyEvent(true, Fire) && p1.value.next.markers[FIRE] == Active
            && p1.value.next.control == []
            && var p2 := Click(p1.value.next, FIRE);
               && p2.Some? && p2.value.reply == KeyEvent(false, Fire) && p2.value.next.markers[FIRE] == Plain
               && p2.value.next.pressed == Released().pressed
  {
    var s0 := Released();
    ClickServes(s0, FIRE);
    var s1 := Click(s0, FIRE).value.next;
    ClickServes(s1, FIRE);
    assert s0.pressed[FIRE := true][FIRE := false] == s0.pressed;
  }

  /** The control text "2 0 5". */
  const SAMPLE: seq<byte> := [50, 32, 48, 32, 53]

  /** A single digit and what follows it: the digit's value, then whatever the rest yields. */
  lemma ParseDigit(d: byte, rest: seq<byte>)
    requires d < 10 && StopsDigits(rest)
    ensures Parse([DigitChar(d as nat)] + rest) == Join(Some([d]), Parse(rest))
  {
    ParseDecimal(d, rest);
  }

  /** A single digit and a space in front of more text: the digit's value, then whatever the rest yields. */
  lemma ParseSpaced(d: byte, rest: seq<byte>)
    requires d < 10
    ensures Parse([DigitChar(d as nat), SPACE] + rest) == Join(Some([d]), Parse(rest))
  {
    var spaced := [SPACE] + rest;
    ParseDigit(d, spaced);
    assert spaced[1..] == rest;
    assert [DigitChar(d as nat), SPACE] + rest == [DigitChar(d as nat)] + spaced;
  }

  /** A lone digit reads as its value. */
  lemma ParseSingle(d: byte)
    requires d < 10
    ensures Parse([DigitChar(d as nat)]) == Some([d])
  {
    assert [DigitChar(d as nat)] + [] == [DigitChar(d as nat)];
    ParseDigit(d, []);
    assert [d] + [] == [d];
  }

  /** Three single digits, each followed by a space except the last, read as those three values. */
  lemma ParseThreeDigits(a: byte, b: byte, c: byte)
    requires a < 10 && b < 10 && c < 10
    ensures Parse([DigitChar(a as nat), SPACE, DigitChar(b as nat), SPACE, DigitChar(c as nat)]) == Some([a, b, c])
  {
    var tc := [DigitChar(c as nat)];
    var tb := [DigitChar(b as nat), SPACE] + tc;
    assert [DigitChar(a as nat), SPACE] + tb == [DigitChar(a as nat), SPACE, DigitChar(b as nat), SPACE, DigitChar(c as nat)];
    assert [a] + ([b] + [c]) == [a, b, c];
    ParseSingle(c);
    ParseSpaced(b, tc);
    ParseSpaced(a, tb);
  }

  /** The sample text lists controls 2, 0 and 5 in that order. */
  lemma SampleParses()
    ensures Parse(SAMPLE) == Some([2, 0, 5])
  {
    ParseThreeDigits(2, 0, 5);
  }

  /** Served from a released state, controls 2, 0 and 5 queued in that order are each reported pressed, 5 first. */
  lemma SampleExpected(before: seq<bool>)
    requires |before| == KEY_COUNT && forall k :: 0 <= k < KEY_COUNT ==> !before[k]
    ensures Indexed([2, 0, 5])
    ensures Expected(before, [2, 0, 5], 0) == KeyEvent(true, Use)
    ensures Expected(before, [2, 0, 5], 1) == KeyEvent(true, UpArrow)
    ensures Expected(before, [2, 0, 5], 2) == KeyEvent(true, DownArrow)
  {
    var b: seq<byte> := [2, 0, 5];
    assert b[2..] == [5] && b[1..] == [0, 5] && b[0..] == b;
    assert multiset(b[2..])[5] == 1 && multiset(b[1..])[0] == 1 && multiset(b[0..])[2] == 1;
  }

  /** Replies that follow the queue 2, 0, 5 from released controls are USE, FORWARD, DOWN, all pressed. */
  lemma SampleReplies(replies: seq<Reply>, before: seq<bool>)
    requires |before| == KEY_COUNT && forall k :: 0 <= k < KEY_COUNT ==> !before[k]
    requires Indexed([2, 0, 5]) && NewestFirst(replies, before, [2, 0, 5])
    ensures replies == [KeyEvent(true, Use), KeyEvent(true, UpArrow), KeyEvent(true, DownArrow)]
  {
    SampleExpected(before);
  }

  /**
    With a control file reading as 2, 0, 5 (such as the sample text), all
    controls released and nothing queued, three polls report USE, FORWARD
    and DOWN pressed, in that order, reading the file only once and leaving
    it empty; a fourth poll then reports no key.
   */
  lemma SampleOrder(s0: State)
    requires Ready(s0) && Mirrored(s0) && |s0.backlog| == 0
    requires forall k :: 0 <= k < KEY_COUNT ==> !s0.pressed[k]
    requires Parse(s0.control) == Some([2, 0, 5])
    ensures Run(s0, 3).Some?
    ensures var t := Run(s0, 3).value;
            && t.replies == [KeyEvent(true, Use), KeyEvent(true, UpArrow), KeyEvent(true, DownArrow)]
            && t.fileReads == 1
            && t.final.backlog == [] && t.final.control == []
            && GetKey(t.final) == Some(Poll(t.final, NoKey, true))
  {
    ReadOnceServeAll(s0, [2, 0, 5]);
    var t := Run(s0, 3).value;
    SampleReplies(t.replies, s0.pressed);
    NothingQueued(t.final);
  }
}
