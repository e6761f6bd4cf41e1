# Desktop-icon display backend for Doom, modelled in Dafny

The backend shows the game on an Xfce desktop. At setup the frame is cut
into a grid of square tiles. Each tile becomes a small binary PPM file
(`aa.ppm`, `ba.ppm`, …) placed on the desktop, and six executable control
icons (FORWARD, LEFT, DOWN, RIGHT, FIRE, USE) go below the grid. On every
frame each tile file is rewritten behind its PPM header with the RGB bytes
of the pixels it covers. Where a tile overhangs the frame it gets zero
bytes. Running a control icon appends the control's index to a temporary
control file. When the game polls for input, the backend serves one queued
index per call, newest first. It refills the queue from the control file
when the queue is empty, and then empties the file. Each served control
flips its pressed state, and its icon is renamed between `NAME` and
`NAME(ACTIVE)` to match.

The model is functional. Files are byte sequences, the file-name table is a
sequence of strings, and the poller's state is a value passed from call to
call. The loops of setup and of the frame call are methods whose loop
invariants tie them to reference definitions.

| module | file | what it models |
|---|---|---|
| `Wrappers` | wrappers.dfy | `Option` with early return |
| `Ascii` | ascii.dfy | bytes, printf's `%u` text, scanf's digit scanning |
| `Geometry` | geometry.dfy | the ceiling grid in `guint`, the row-major tile index, and the offsets within the pixel buffer |
| `Netpbm` | netpbm.dfy | the `P6` header the backend writes and a PPM reader, used as its partner |
| `TileEncoder` | tile_encoder.dfy | the pixels of one tile: the reference bytes and the clear-then-copy loop |
| `Frame` | frame.dfy | the frame loop: a seek-and-write into every tile file |
| `Keys` | keys.dfy | the control table |
| `Names` | names.dfy | the `%c%c.ppm` tile names and the file-name table built at setup |
| `ControlFile` | controlfile.dfy | the text the key scripts append and the `%hhu` read loop |
| `Backlog` | backlog.dfy | the input poller's state machine |
| `Desktop` | desktop.dfy | setup, one frame and one poll on the whole state, plus concrete scenarios |

## Model

| member | source | states |
|---|---|---|
| Geometry.CeilDivIsCeiling | src/doomgeneric_desktop.c:194-195 | When `width + res - 1` does not wrap, the tile count `n` is the exact ceiling: `n*res >= width > (n-1)*res`. The same holds for height. |
| Geometry.CeilDivNoOverrun | src/doomgeneric_desktop.c:194-195 | Whether or not the `guint` sum wraps, every tile column or row `t` below the computed count starts inside the frame: `t*res < width`. |
| Geometry.TileOfCoord | src/doomgeneric_desktop.c:303 | Frame coordinate `p` lies in tile `t` with `t*res <= p < t*res + res`. |
| Geometry.OffsetInTile | src/doomgeneric_desktop.c:303 | The offset of `p` within its tile is below `res` and adds back to `p`. |
| Geometry.TileIndexBounds | src/doomgeneric_desktop.c:296 | The file index `y*cols + x` of a grid tile is below `cols*rows`, and division and remainder by `cols` give back `(y, x)`. |
| Geometry.TileIndexOnto | src/doomgeneric_desktop.c:296 | Every index below `cols*rows` is the file index of some grid tile, so the flat table is covered. |
| Geometry.TileCoords | src/doomgeneric_desktop.c:296 | Every index below `cols*rows` has a column and row in the grid that map to it. |
| Geometry.SlotDecode | src/doomgeneric_desktop.c:304 | The offset `(imgy*res + imgx)*3 + c` of an in-tile position is inside the `3*res*res` buffer and decodes back to `imgx`, `imgy` and `c`. |
| Geometry.SlotEncode | src/doomgeneric_desktop.c:304 | Every offset of the buffer is the offset of an in-tile position, so the slots fill the buffer with no gaps. |
| Geometry.SlotsOfPixel | src/doomgeneric_desktop.c:304-307 | Exactly three consecutive offsets belong to one pixel, and they are its red, green and blue. |
| Geometry.SlotInRange | src/doomgeneric_desktop.c:304-307 | Each of the three writes stays inside the buffer. |
| Ascii.Decimal | src/doomgeneric_desktop.c:247 | `%u` text is a non-empty run of digits with no leading zero, and it is one byte long exactly for values below 10. |
| Ascii.ScanDigits | src/doomgeneric_desktop.c:352 | The scanner takes the longest digit prefix: all digits, and stopped at a non-digit or at the end. |
| Ascii.DecimalValue | src/doomgeneric_desktop.c:247 | Reading back the `%u` text of `n` gives `n` (round trip). |
| Ascii.ReadDecimal | src/doomgeneric_desktop.c:352 | When `%u` text is followed by a non-digit, the scanner consumes exactly its digits and yields the printed number. |
| Netpbm.Header | src/doomgeneric_desktop.c:247-248 | The header is `9 + 2*digits(res)` bytes long. This is the `header_len` every frame write seeks past. |
| Netpbm.FieldDecimal | src/doomgeneric_desktop.c:247 | One decimal field of the header, with its separator, reads back as its value and the bytes after it. |
| Netpbm.MaxvalIsDecimal | src/doomgeneric_desktop.c:247 | The literal `255` in the header is the `%u` text of 255. |
| Netpbm.HeaderRoundTrip | src/doomgeneric_desktop.c:247-248 | A PPM reader given the header and any data sees a `res x res` image with maximum value 255 and raster offset `header_len`. |
| Netpbm.RasterOfTileFile | src/doomgeneric_desktop.c:311 | A file holding the header and `3*res*res` bytes gives exactly those bytes as its raster. |
| TileEncoder.TileBytes | src/doomgeneric_desktop.c:311 | The reference pixel data of a tile is `3*res*res` bytes, the amount the write emits. |
| TileEncoder.TileByteAt | src/doomgeneric_desktop.c:303-307 | The byte at slot `(imgx, imgy, c)` of tile `(tx, ty)` is channel `c` of frame pixel `(tx*res+imgx, ty*res+imgy)`, or zero outside the frame. |
| TileEncoder.TilePlacement | src/doomgeneric_desktop.c:301-307 | The same for every in-tile position at once. |
| TileEncoder.PaddingIsZero | src/doomgeneric_desktop.c:299-302 | In-tile positions past the right or bottom edge of the frame hold zero. |
| TileEncoder.SpanNoUnderflow | src/doomgeneric_desktop.c:301-302 | For a tile inside the grid, the loop bound `total - t*res` does not wrap in `guint` and is positive. |
| TileEncoder.CopyPixel | src/doomgeneric_desktop.c:301-303 | Every pixel the two loops read lies inside the frame, and its three channels are the tile's next three reference bytes. |
| TileEncoder.CopyRow | src/doomgeneric_desktop.c:302-308 | The column loop fills one more tile row of the buffer to match the reference bytes. The columns past the frame keep their zeros. |
| TileEncoder.CopyRows | src/doomgeneric_desktop.c:301-309 | The row loop fills the rows that lie in the frame to match the reference bytes. |
| TileEncoder.EncodeTile | src/doomgeneric_desktop.c:299-309 | Clearing the buffer and then running the two copy loops yields exactly the reference pixel data of the tile, for every frame and every tile in the grid. |
| Frame.WriteAt | src/doomgeneric_desktop.c:297 | A seek followed by a write on an `r+` file replaces the written range. Earlier bytes are kept, later bytes survive, and a gap reads as zeros. |
| Frame.WriteAtReadBack | src/doomgeneric_desktop.c:311 | Reading back the written range gives the data, and the existing prefix is unchanged. |
| Frame.TileFileAfterWrite | src/doomgeneric_desktop.c:296-311 | Writing a tile behind its header leaves the file as header plus data. This holds on the first frame and after an earlier frame. |
| Frame.DrawRow | src/doomgeneric_desktop.c:295-313 | The inner frame loop redraws the tiles of one grid row, at the next `cols` table entries. |
| Frame.DrawFrame | src/doomgeneric_desktop.c:294-314 | Every tile entry of the table is rewritten at `header_len` with its tile's data. The marker entries after the tiles are untouched. |
| Frame.PixelPlaced | src/doomgeneric_desktop.c:301-307 | When `width + res` and `height + res` do not wrap in `guint`, every frame pixel lies in a grid tile, `(px/res, py/res)`. At in-tile position `(px%res, py%res)` that tile holds the pixel's red, green and blue. |
| Frame.PixelPlacedOnce | src/doomgeneric_desktop.c:301-303 | No other tile and in-tile position covers the same frame coordinate, so every pixel is in exactly one slot. |
| Frame.PixelInTileFile | src/doomgeneric_desktop.c:294-311 | When `width + res` and `height + res` do not wrap in `guint`, after a frame the file of the tile holding pixel `(px, py)` has the pixel's channel `c` at byte `header_len + slot`. |
| Keys.KeysDistinct | src/doomgeneric_desktop.c:104-141 | No two controls share a name, a game key or an icon position. |
| Names.UpToNul | src/doomgeneric_desktop.c:254 | A C string ends at its first NUL: the result is the NUL-free prefix. |
| Names.TileNameFull | src/doomgeneric_desktop.c:254 | For columns and rows below 159 a tile name is its two letters followed by `.ppm`, six bytes in all. |
| Names.TileNamesDistinct | src/doomgeneric_desktop.c:254 | Below that limit, distinct tiles get distinct names. |
| Names.TileNameLimit | src/doomgeneric_desktop.c:254 | At column 159 the `%c` byte is NUL and the name is empty. At column 256 the letters repeat those of column 0. |
| Names.NameRow | src/doomgeneric_desktop.c:252-255 | The inner setup loop puts tile `(x, y)` at entry `y*cols + x`. |
| Names.NameTable | src/doomgeneric_desktop.c:250-274 | With its running index, setup stores tile `(x, y)` at entry `y*cols + x` and control `i` at `cols*rows + i`, for `cols*rows + 6` entries. Entry `j` is the `j`-th name of that layout. |
| Names.ControlNamesDiffer | src/doomgeneric_desktop.c:268 | No control's file name is a tile's file name. |
| Names.NameTableDistinct | src/doomgeneric_desktop.c:244-274 | For grids of at most 159 columns and rows, all entries of the table name different files. |
| ControlFile.Hhu | src/doomgeneric_desktop.c:352 | `%hhu` stores a value below 256 unchanged and a saturated overflow as 255. |
| ControlFile.Parse | src/doomgeneric_desktop.c:352-353 | The read loop yields a result exactly when the text holds only digits and whitespace, with at most one value per byte. |
| ControlFile.Line | src/doomgeneric_desktop.c:270 | A key script appends its index, a space and a newline. |
| ControlFile.Lines | src/doomgeneric_desktop.c:270 | The text left by running scripts is empty exactly when none ran, and otherwise ends in whitespace. |
| ControlFile.ParseAppend | src/doomgeneric_desktop.c:352 | Reading a file is reading its two halves in turn, provided the first half ends in whitespace. |
| ControlFile.ParseDecimal | src/doomgeneric_desktop.c:352 | `%u` text of a byte value, followed by a non-digit, yields that value first. |
| ControlFile.ParseLine | src/doomgeneric_desktop.c:270 | One script's line reads back as its index (round trip). |
| ControlFile.AppendLine | src/doomgeneric_desktop.c:270 | Running a script after a whitespace-terminated file adds its index at the end of what is read. |
| ControlFile.ParseLines | src/doomgeneric_desktop.c:352-353 | The file the scripts leave reads back as the pressed indices in press order (round trip). |
| ControlFile.ParseBlank | src/doomgeneric_desktop.c:352 | Whitespace alone yields no values. |
| Backlog.Rename | src/doomgeneric_desktop.c:344 | The rename succeeds exactly when the icon carries the source name. Afterwards it carries the target name, and the other icons are unchanged. |
| Backlog.GetKey | src/doomgeneric_desktop.c:332-362 | A poll never fails while icons mirror pressed states, and it keeps them mirrored. It reads the control file exactly when the backlog is empty, and it reports no key exactly when both the backlog and the file are empty. |
| Backlog.ServeKeeps | src/doomgeneric_desktop.c:336-344 | Serving keeps the poller's assumptions and the mirror invariant, and it cannot hit the fatal rename while icons mirror pressed states. |
| Backlog.ServeLast | src/doomgeneric_desktop.c:334-345 | Pop: the last queued index is removed and nothing else. That control's pressed state flips and is reported with its game key, and its icon follows. The control file is untouched. |
| Backlog.PopTwice | src/doomgeneric_desktop.c:339-344 | Two pops of the same control report opposite pressed states for the same game key. Afterwards its pressed state and icon name are as they were. |
| Backlog.RefillServesLast | src/doomgeneric_desktop.c:349-359 | Refill: with an empty backlog, the file's values are queued in file order and the file is emptied. The last value is served in the same call. |
| Backlog.NothingQueued | src/doomgeneric_desktop.c:356-361 | With nothing queued and nothing to read, the poll returns 0 and changes nothing. |
| Backlog.Press | src/doomgeneric_desktop.c:270 | A script run appends exactly its line to the control file and changes nothing else. |
| Backlog.PressQueues | src/doomgeneric_desktop.c:270 | After a script run, the control file reads as before with the control's index added at the end. |
| Backlog.Run | src/doomgeneric_desktop.c:332-362 | `n` polls in a row yield `n` replies and read the file at most `n` times. While icons mirror pressed states they never fail. |
| Backlog.Drain | src/doomgeneric_desktop.c:334-345 | `|backlog|` polls never read the file and empty the backlog. They report the queued controls newest first, and each control ends pressed according to how many times it was served. |
| Backlog.ReadOnceServeAll | src/doomgeneric_desktop.c:349-359 | With an empty backlog and values `vs` in the file, `|vs|` polls read the file exactly once and leave it empty. They report `vs` last-first and toggle each control by its count. |
| Desktop.Released | src/doomgeneric_desktop.c:199-201 | The starting input state satisfies the poller's assumptions. Nothing is queued and the new temporary file is empty. No key is pressed, because the static `pressed` fields start at zero, and every icon carries its plain name. |
| Desktop.Init | src/doomgeneric_desktop.c:194-274 | Setup yields the ceiling grid. Every tile file holds just the header of length `9 + 2*digits(res)`. The name table lists the tiles row-major and then the controls, with no two entries alike, and input starts released. |
| Desktop.DrawFrame | src/doomgeneric_desktop.c:289-317 | After a frame every tile file is its header followed by its tile's data. The grid, names and input are unchanged. |
| Desktop.RedrawnTile | src/doomgeneric_desktop.c:296-311 | After the frame loop the file of tile `(x, y)` is its header followed by its new data. |
| Desktop.FrameReadsBack | src/doomgeneric_desktop.c:311 | A PPM reader opening a redrawn tile file sees exactly that tile's pixel data. |
| Desktop.PollKey | src/doomgeneric_desktop.c:332-362 | A poll on the whole display cannot fail while icons mirror pressed states, and it leaves the tile files and names alone. |
| Desktop.MarkerName | src/doomgeneric_desktop.c:342-343 | A control's icon name starts with its plain name. It is exactly the plain name when the marker is plain, and the plain name followed by `(ACTIVE)` when it is active. |
| Desktop.MarkerNamesDiffer | src/doomgeneric_desktop.c:342-344 | The two names of a control's icon differ, so the rename moves the file. |
| Desktop.BlackTile | src/doomgeneric_desktop.c:299-309 | A black frame produces only zero bytes in every tile. |
| Desktop.DefaultGrid | src/doomgeneric_desktop.c:194-195 | A 320x200 frame with 64-pixel tiles gives a 5x4 grid, and the header is the 13 bytes of `P6\n64 64\n255\n`. |
| Desktop.Click | src/doomgeneric_desktop.c:270 | Running a script and then polling never fails while icons mirror pressed states. |
| Desktop.ClickServes | src/doomgeneric_desktop.c:349-359 | When idle, a script run is reported by the very next poll. The control flips, its icon follows, and the poller is idle again. |
| Desktop.FireTwice | src/doomgeneric_desktop.c:336-344 | Clicking FIRE reports it pressed and marks the icon active. Clicking it again reports it released and restores the plain name. |
| Desktop.ParseThreeDigits | src/doomgeneric_desktop.c:352-353 | Three single-digit values separated by spaces read as those values, in order. |
| Desktop.SampleParses | src/doomgeneric_desktop.c:352-353 | The text `2 0 5` reads as 2, 0, 5. |
| Desktop.SampleOrder | src/doomgeneric_desktop.c:332-362 | From released controls with nothing queued and `2 0 5` in the file, three polls report USE, FORWARD and DOWN pressed, in that order (5, 0, 2). They read the file once and leave it empty, and a fourth poll reports no key. |

## Left out

- The error macros (`CALL_ERRNO`, `CALL_GERROR`, `CALL_MSG`) and every failing `fopen`, `fwrite`, `fseek`, `fclose` or `chmod`. File operations always succeed in the model. A rename of an icon not under the expected name is a failure that follows from the program's own state, and it is modelled as `None`. An empty tile basename, which makes setup open the desktop directory itself, is the other such failure; `Desktop.Init` excludes it, as the next line says.
- Argument parsing with `atoi`, and `-delay`. The tile edge is a parameter of `Init`. A tile edge of 0, which makes the source divide by zero, is excluded by `Init`'s precondition.
- The frame dimensions come from the engine's compile-time constants, which are not part of this model. They are parameters `width` and `height`.
- Setup of the desktop configuration: finding it, following its symlink, the backup, moving existing icons out of the way, the per-file row and column entries in the key file, and restarting the desktop. These are external I/O with no effect on the modelled state.
- The key scripts: the model keeps only the `echo "%u "` line they append (and echo's newline). The shebang, the quoting of the control file path and `chmod` are out.
- Cleanup at exit, the `atexit` and `SIGINT` handlers, the timing calls (`DG_SleepMs`, `DG_GetTicksMs`, the frame delay) and `DG_SetWindowTitle`.
- The desktop directory prefix of every path. Names are modelled as basenames.
- The numeric codes of the game keys, which live in the engine's headers. `DoomKey` is an enumeration of the six keys used.
- The bit-field layout of `struct Color` in memory. A pixel is a record of four bytes, and the model relies on the field names only.
- Concurrency: a script appending between the read and the truncation of the control file loses its line. The model treats a poll as atomic.
- Desktop.Init: requires the grid to have at most 159 columns and 159 rows, and `Desktop.Good` carries the same bound. With 160 or more columns, column 159's `%c` byte is NUL and its name is empty: the source then opens the desktop directory for writing, and that setup aborts. Past 159 the letters also take control values and `/`, and with more than 256 rows or columns they repeat, so two tiles share a file and the later write wins. The model keeps one file per table entry, so it covers only grids where every tile has a file of its own (see `Names.NameTableDistinct`).
- Backlog.GetKey: requires, through `Ready`, every queued index and every index in the control file to be below 6. The source indexes the control table without a bounds check, so an out-of-range index is undefined behaviour there. A bounds-checked version would report an error instead. The model follows the code and makes the bound a precondition.
- ControlFile.Parse: returns `None` for text containing anything but digits and whitespace. On such text the source's `fscanf` loop stops matching without reaching end of file and spins forever; the model does not loop. Text with a sign, which `%hhu` would accept, is treated the same way.
- Geometry.CeilDivIsCeiling: the exact-ceiling property needs `width + res - 1` not to wrap in `guint`. Only `CeilDivNoOverrun` is proved for the wrapped case.
- Names.NameTableDistinct: holds only for grids of at most 159 columns and rows. Beyond that the `%c` byte wraps or becomes NUL, and names collide, as `TileNameLimit` shows.
- The `guint` products `iconsx * iconsy`, `icon_res * icon_res * 3` and the pixel index are taken as unbounded. Their wrap-around, which needs tile edges or frames far beyond any real screen, is not modelled.
