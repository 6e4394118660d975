/** The tiled test pattern (lab5.c, video_test_pattern). */
module Pattern {
  import opened CTypes
  import opened Screen
  import opened Colors

  // ----- how often the loops run

  /** The loop condition after `k` rounds: the counter is a uint8_t. */
  predicate Goes(total: nat, tile: nat, k: nat) {
    (k % 256 + 1) * tile <= total
  }

  /** A tile loop ends exactly when tiles are not empty and there are at most 255 of them. */
  lemma LoopEnds(total: nat, tile: nat)
    ensures (exists k: nat :: !Goes(total, tile, k)) <==> tile > 0 && total / tile <= 255
  {
    if k: nat :| !Goes(total, tile, k) {
      if tile > 0 {
        TooMany(total, tile, k % 256);
      }
    }
    if tile > 0 && total / tile <= 255 {
      var k := total / tile;
      TileCountBounds(total, tile);
      assert !Goes(total, tile, k);
    }
  }

  lemma TooMany(total: nat, tile: nat, c: nat)
    requires tile > 0 && c <= 255 && (c + 1) * tile > total
    ensures total / tile <= 255
  {
    if total / tile > c {
      MulMonotone(tile, c + 1, total / tile);
    }
  }

  lemma TileCountBounds(total: nat, tile: nat)
    requires tile > 0
    ensures (total / tile) * tile <= total < (total / tile + 1) * tile
  {
    assert total == tile * (total / tile) + total % tile;
  }

  /** Tile-count arithmetic: a screen cut into n parts is covered by n + (W mod n) / (W div n) tiles, which is
      n exactly when W mod n < W div n. */
  lemma TileCount(total: nat, n: nat)
    requires n > 0 && total / n > 0
    ensures total / (total / n) == n + (total % n) / (total / n)
    ensures total / (total / n) == n <==> total % n < total / n
  {
    var q, r := total / n, total % n;
    var c, s := r / q, r % q;
    assert total == n * q + r && r == q * c + s;
    assert total == q * (n + c) + s by {
      assert q * (n + c) == n * q + q * c;
    }
    DivModUnique(total, q, n + c, s);
    if r < q {
      DivModUnique(r, q, 0, r);
    }
  }

  // ----- colours

  /** A pattern: whether the video mode is the indexed one, its channels, and the arguments of the test. */
  datatype Parameters = Parameters(indexed: bool, channels: Channels, n: byte, first: u32, step: byte)

  /** The number of a tile, counted row by row. */
  function TileNumber(col: nat, row: nat, n: nat): nat {
    row * n + col
  }

  /** The colour of tile (col, row). */
  function TileColor(m: Mode, p: Parameters, col: nat, row: nat): (color: u32) {
    LowBitsBound(p.first, m.bitsPerPixel);
    var first: u32 := NormalizeColor(m.bitsPerPixel, p.first);
    if p.indexed then Stepped(first, TileNumber(col, row, p.n), p.step, m.bitsPerPixel)
    else
      var red := ChannelStep(first, p.channels.red, col, p.step);
      var green := ChannelStep(first, p.channels.green, row, p.step);
      var blue := ChannelStep(first, p.channels.blue, col + row, p.step);
      DirectFits(p.channels, red, green, blue);
      DirectMode(p.channels, red, green, blue)
  }

  /** The pixels of the tiles. */
  type Ink = (nat, nat) -> Pixel

  function InkOf(m: Mode, p: Parameters): Ink {
    (col, row) => ToLE(TileColor(m, p, col, row), BytesPerPixel(m))
  }

  /** Over the whole grid, red depends on the column alone, green on the row, and blue on their sum; each
      step of a channel adds the step modulo 2 to the size of the channel (ChannelAdvances). */
  lemma GridColors(m: Mode, p: Parameters, col: nat, row: nat)
    requires WellPlaced(p.channels) && !p.indexed
    ensures
      var ch, color, first := p.channels, TileColor(m, p, col, row), NormalizeColor(m.bitsPerPixel, p.first);
      && first < 0x1_0000_0000
      && Unpack(color, ch.red) == ChannelStep(first, ch.red, col, p.step)
      && Unpack(color, ch.green) == ChannelStep(first, ch.green, row, p.step)
      && Unpack(color, ch.blue) == ChannelStep(first, ch.blue, col + row, p.step)
  {
    LowBitsBound(p.first, m.bitsPerPixel);
    var first: u32 := NormalizeColor(m.bitsPerPixel, p.first);
    ChannelNext(first, p.channels.red, col, p.step);
    ChannelNext(first, p.channels.green, row, p.step);
    ChannelNext(first, p.channels.blue, col + row, p.step);
    PackUnpack(p.channels, ChannelStep(first, p.channels.red, col, p.step),
               ChannelStep(first, p.channels.green, row, p.step),
               ChannelStep(first, p.channels.blue, col + row, p.step));
  }

  /** The first colour and as many steps as there are tiles before (col, row), counted row by row. */
  function IndexedValue(first: nat, n: nat, step: nat, col: nat, row: nat, colors: nat): nat
    requires colors > 0
  {
    (first % colors + (row * n + col) * step) % colors
  }

  lemma IndexedColors(m: Mode, p: Parameters, col: nat, row: nat)
    requires p.indexed && m.bitsPerPixel <= 32
    ensures TileColor(m, p, col, row) == IndexedValue(p.first, p.n, p.step, col, row, Pow2(m.bitsPerPixel))
  {
    NormalizeIs(m.bitsPerPixel, p.first);
    LowBitsBound(p.first, m.bitsPerPixel);
    SteppedIs(NormalizeColor(m.bitsPerPixel, p.first), TileNumber(col, row, p.n), p.step, m.bitsPerPixel);
  }

  /** One channel of the first colour, `k` steps on. */
  function ChannelValue(first: nat, f: Field, k: nat, step: nat): nat {
    ((first / Pow2(f.position)) % Pow2(f.size) + k * step) % Pow2(f.size)
  }

  /** That channel in its field. */
  function Weighted(first: nat, f: Field, k: nat, step: nat): nat {
    ChannelValue(first, f, k, step) * Pow2(f.position)
  }

  lemma ChannelIs(first: u32, f: Field, k: nat, step: byte)
    requires f.size <= 32
    ensures ChannelStep(first, f, k, step) == ChannelValue(first, f, k, step)
    ensures ChannelValue(first, f, k, step) < Pow2(f.size)
  {
    UnpackIs(first, f);
    UnpackBound(first, f);
    SteppedIs(Unpack(first, f), k, step, f.size);
  }

  function DirectValue(p: Parameters, first: nat, col: nat, row: nat): nat {
    Weighted(first, p.channels.red, col, p.step) + Weighted(first, p.channels.green, row, p.step)
    + Weighted(first, p.channels.blue, col + row, p.step)
  }

  /** In a direct mode the colour of a tile is the sum of its channels, each with the weight of its field. */
  lemma DirectColors(m: Mode, p: Parameters, col: nat, row: nat)
    requires WellPlaced(p.channels) && !p.indexed && m.bitsPerPixel <= 32
    ensures TileColor(m, p, col, row) == DirectValue(p, p.first % Pow2(m.bitsPerPixel), col, row)
  {
    NormalizeIs(m.bitsPerPixel, p.first);
    LowBitsBound(p.first, m.bitsPerPixel);
    var ch, first: u32 := p.channels, NormalizeColor(m.bitsPerPixel, p.first);
    ChannelIs(first, ch.red, col, p.step);
    ChannelIs(first, ch.green, row, p.step);
    ChannelIs(first, ch.blue, col + row, p.step);
    DirectIs(ch, ChannelStep(first, ch.red, col, p.step), ChannelStep(first, ch.green, row, p.step),
             ChannelStep(first, ch.blue, col + row, p.step));
  }

  // ----- the image

  /** Pixel (px, py) is in a finished column, or in a finished tile of the current one. */
  predicate Covered(px: nat, py: nat, width: nat, height: nat, rows: nat, col: nat, row: nat)
    requires width > 0 && height > 0
  {
    var c, r := Tile(px, width), Tile(py, height);
    (c < col && r < rows) || (c == col && r < row)
  }

  /** What such a pixel shows. */
  ghost function InkOver(ink: Ink, under: Pixel, px: nat, py: nat, width: nat, height: nat, rows: nat, col: nat, row: nat)
    : Pixel
    requires width > 0 && height > 0
  {
    if Covered(px, py, width, height, rows, col, row) then ink(Tile(px, width), Tile(py, height)) else under
  }

  /** `after` is `before` with those tiles drawn over it. */
  ghost predicate Tiled(m: Mode, ink: Ink, before: Picture, after: Picture,
                        width: nat, height: nat, rows: nat, col: nat, row: nat)
    requires width > 0 && height > 0
  {
    && Sized(m, before) && Sized(m, after)
    && forall px, py | 0 <= px < m.xRes && 0 <= py < m.yRes ::
         after[py][px] == InkOver(ink, before[py][px], px, py, width, height, rows, col, row)
  }

  lemma NothingTiled(m: Mode, ink: Ink, picture: Picture, width: nat, height: nat, rows: nat)
    requires width > 0 && height > 0 && Sized(m, picture)
    ensures Tiled(m, ink, picture, picture, width, height, rows, 0, 0)
  {
  }

  /** Drawing tile (col, row) as a rectangle. */
  lemma AddTile(m: Mode, ink: Ink, before: Picture, mid: Picture, after: Picture, s: Shape,
                rows: nat, col: nat, row: nat)
    requires s.width > 0 && s.height > 0 && row < rows
    requires Tiled(m, ink, before, mid, s.width, s.height, rows, col, row)
    requires s.x == Times(col, s.width) && s.y == Times(row, s.height)
    requires s.source.Solid? && ink(col, row) == ToLE(s.source.color, BytesPerPixel(m))
    requires Drawn(m, mid, after, s, s.height, 0)
    ensures Tiled(m, ink, before, after, s.width, s.height, rows, col, row + 1)
  {
    forall px, py | 0 <= px < m.xRes && 0 <= py < m.yRes
      ensures after[py][px] == InkOver(ink, before[py][px], px, py, s.width, s.height, rows, col, row + 1)
    {
      AddTileAt(m, ink, before[py][px], mid[py][px], after[py][px], s, rows, col, row, px, py);
    }
  }

  lemma AddTileAt(m: Mode, ink: Ink, before: Pixel, mid: Pixel, after: Pixel, s: Shape,
                  rows: nat, col: nat, row: nat, px: nat, py: nat)
    requires s.width > 0 && s.height > 0 && row < rows
    requires s.x == Times(col, s.width) && s.y == Times(row, s.height)
    requires s.source.Solid? && ink(col, row) == ToLE(s.source.color, BytesPerPixel(m))
    requires mid == InkOver(ink, before, px, py, s.width, s.height, rows, col, row)
    requires after == if Reached(s, s.height, 0, px, py) then ToLE(s.source.color, BytesPerPixel(m)) else mid
    ensures after == InkOver(ink, before, px, py, s.width, s.height, rows, col, row + 1)
  {
    InTile(s, col, row, px, py);
  }

  lemma InTile(s: Shape, col: nat, row: nat, px: nat, py: nat)
    requires s.width > 0 && s.height > 0 && s.x == Times(col, s.width) && s.y == Times(row, s.height)
    ensures Reached(s, s.height, 0, px, py) <==> Tile(px, s.width) == col && Tile(py, s.height) == row
  {
    TileOf(px, s.width, col);
    TileOf(py, s.height, row);
  }

  lemma ColumnDone(m: Mode, ink: Ink, before: Picture, mid: Picture,
                   width: nat, height: nat, rows: nat, col: nat)
    requires width > 0 && height > 0 && Tiled(m, ink, before, mid, width, height, rows, col, rows)
    ensures Tiled(m, ink, before, mid, width, height, rows, col + 1, 0)
  {
    forall px, py | 0 <= px < m.xRes && 0 <= py < m.yRes
      ensures mid[py][px] == InkOver(ink, before[py][px], px, py, width, height, rows, col + 1, 0)
    {
      ColumnCovered(ink, before[py][px], px, py, width, height, rows, col);
    }
  }

  lemma ColumnCovered(ink: Ink, under: Pixel, px: nat, py: nat, width: nat, height: nat, rows: nat, col: nat)
    requires width > 0 && height > 0
    ensures InkOver(ink, under, px, py, width, height, rows, col, rows) ==
            InkOver(ink, under, px, py, width, height, rows, col + 1, 0)
  {
  }

  /** The closed-form image. With Tile(p, size) = p / size and Times(n, size) = n * size: pixel (px, py) inside
      the grid has the colour of tile (px / width, py / height), and every pixel outside is unchanged. */
  ghost predicate PatternImage(m: Mode, ink: Ink, before: Picture, after: Picture, width: nat, height: nat)
    requires width > 0 && height > 0
  {
    && Sized(m, before) && Sized(m, after)
    && forall px, py | 0 <= px < m.xRes && 0 <= py < m.yRes ::
         after[py][px] ==
         if px < Times(Tile(m.xRes, width), width) && py < Times(Tile(m.yRes, height), height)
         then ink(Tile(px, width), Tile(py, height))
         else before[py][px]
  }

  lemma AllTiled(m: Mode, ink: Ink, before: Picture, after: Picture, width: nat, height: nat)
    requires width > 0 && height > 0
    requires Tiled(m, ink, before, after, width, height, Tile(m.yRes, height), Tile(m.xRes, width), 0)
    ensures PatternImage(m, ink, before, after, width, height)
  {
    forall px, py | 0 <= px < m.xRes && 0 <= py < m.yRes
      ensures Covered(px, py, width, height, Tile(m.yRes, height), Tile(m.xRes, width), 0) <==>
        px < Times(Tile(m.xRes, width), width) && py < Times(Tile(m.yRes, height), height)
    {
      TileOf(px, width, Tile(m.xRes, width));
      TileOf(py, height, Tile(m.yRes, height));
    }
  }

  /** The colour of tile (col, row), in numbers. */
  function TileValue(m: Mode, p: Parameters, col: nat, row: nat): nat {
    if p.indexed then IndexedValue(p.first, p.n, p.step, col, row, Pow2(m.bitsPerPixel))
    else DirectValue(p, p.first % Pow2(m.bitsPerPixel), col, row)
  }

  /** The bytes of that colour. */
  function TileBytes(m: Mode, p: Parameters, col: nat, row: nat): Pixel {
    ToLE(TileValue(m, p, col, row), BytesPerPixel(m))
  }

  /** The ink of the pattern test, for every tile. */
  lemma InkIs(m: Mode, p: Parameters, col: nat, row: nat)
    requires m.bitsPerPixel <= 32 && (!p.indexed ==> WellPlaced(p.channels))
    ensures InkOf(m, p)(col, row) == TileBytes(m, p, col, row)
  {
    if p.indexed {
      IndexedColors(m, p, col, row);
    } else {
      DirectColors(m, p, col, row);
    }
  }

  /** The tile pixel `p` lies in, in one direction. */
  function TileIndex(p: nat, size: nat): nat
    requires size > 0
  {
    p / size
  }

  /** The pixels of all the tiles that fit, in one direction. */
  function GridSize(total: nat, size: nat): nat
    requires size > 0
  {
    (total / size) * size
  }

  lemma InGrid(p: nat, total: nat, size: nat)
    requires size > 0
    ensures Tile(p, size) == TileIndex(p, size) && Times(Tile(total, size), size) == GridSize(total, size)
  {
    TileIs(p, size);
    TileIs(total, size);
    TimesIs(total / size, size);
  }

  /** Every pixel of the image in plain numbers. */
  lemma PatternAt(m: Mode, ink: Ink, before: Picture, after: Picture, width: nat, height: nat, px: nat, py: nat)
    requires width > 0 && height > 0 && px < m.xRes && py < m.yRes
    requires PatternImage(m, ink, before, after, width, height)
    ensures after[py][px] ==
      if px < GridSize(m.xRes, width) && py < GridSize(m.yRes, height)
      then ink(TileIndex(px, width), TileIndex(py, height)) else before[py][px]
  {
    InGrid(px, m.xRes, width);
    InGrid(py, m.yRes, height);
  }

  // ----- the loops

  /** col++ and row++ on a uint8_t. */
  function Increment(counter: byte): byte {
    if counter == 255 then 0 else counter + 1
  }

  /** The loop condition says that there is another tile. */
  lemma AnotherTile(counter: nat, total: nat, size: nat)
    requires size > 0
    ensures Times(counter + 1, size) <= total <==> counter < Tile(total, size)
  {
    TileOf(total, size, counter + 1);
  }

  /** The body of the inner loop. */
  method DrawTile(d: Display, p: Parameters, width: u16, height: u16, col: byte, row: byte,
                  ghost rows: nat, ghost before: Picture, ghost ink: Ink)
    returns (failed: bool)
    requires ink == InkOf(d.mode, p)
    requires d.Valid() && width > 0 && height > 0 && row < rows
    requires Times(col + 1, width) <= d.mode.xRes && Times(row + 1, height) <= d.mode.yRes
    requires Tiled(d.mode, ink, before, d.picture, width, height, rows, col, row)
    modifies d, d.frameBuffer
    ensures d.Valid() && !failed && Tiled(d.mode, ink, before, d.picture, width, height, rows, col, row + 1)
  {
    ghost var mid := d.picture;
    var color := TileColor(d.mode, p, col, row);
    var x, y := Cast16(Times(col, width)), Cast16(Times(row, height));
    assert x == Times(col, width) && y == Times(row, height);
    failed := d.DrawRectangle(x, y, width, height, color);
    AddTile(d.mode, ink, before, mid, d.picture, Shape(x, y, width, height, Solid(color)), rows, col, row);
  }

  /** The tiles of one column: the inner loop. */
  method PatternColumn(d: Display, p: Parameters, width: u16, height: u16, col: byte,
                       ghost rows: nat, ghost before: Picture, ghost ink: Ink)
    returns (failed: bool)
    requires ink == InkOf(d.mode, p)
    requires width > 0 && height > 0 && rows == Tile(d.mode.yRes, height) <= 255
    requires Times(col + 1, width) <= d.mode.xRes && Painted(d, ink, before, width, height, rows, col)
    modifies d, d.frameBuffer
    ensures !failed && Painted(d, ink, before, width, height, rows, col + 1)
  {
    var row: byte := 0;
    while Times(row + 1, height) <= d.mode.yRes
      invariant d.Valid() && row <= rows
      invariant Tiled(d.mode, ink, before, d.picture, width, height, rows, col, row)
      decreases rows - row
    {
      AnotherTile(row, d.mode.yRes, height);
      failed := DrawTile(d, p, width, height, col, row, rows, before, ink);
      if failed {
        return true;
      }
      row := Increment(row);
    }
    AnotherTile(row, d.mode.yRes, height);
    ColumnDone(d.mode, ink, before, d.picture, width, height, rows, col);
    failed := false;
  }

  /** The first `col` columns are complete. */
  ghost predicate Painted(d: Display, ink: Ink, before: Picture, width: nat, height: nat, rows: nat, col: nat)
    requires width > 0 && height > 0
    reads d, d.frameBuffer
  {
    d.Valid() && Tiled(d.mode, ink, before, d.picture, width, height, rows, col, 0)
  }

  /** The two nested loops, for tiles of a given size. */
  method DrawTiles(d: Display, p: Parameters, width: u16, height: u16, ghost cols: nat, ghost rows: nat,
                   ghost ink: Ink)
    returns (failed: bool)
    requires ink == InkOf(d.mode, p)
    requires d.Valid() && width > 0 && height > 0
    requires cols == Tile(d.mode.xRes, width) <= 255 && rows == Tile(d.mode.yRes, height) <= 255
    modifies d, d.frameBuffer
    ensures d.Valid() && !failed && Tiled(d.mode, ink, old(d.picture), d.picture, width, height, rows, cols, 0)
  {
    ghost var before := d.picture;
    NothingTiled(d.mode, ink, before, width, height, rows);
    var col: byte := 0;
    while Times(col + 1, width) <= d.mode.xRes
      invariant col <= cols && Painted(d, ink, before, width, height, rows, col)
      decreases cols - col
    {
      AnotherTile(col, d.mode.xRes, width);
      failed := PatternColumn(d, p, width, height, col, rows, before, ink);
      if failed {
        return true;
      }
      col := Increment(col);
    }
    AnotherTile(col, d.mode.xRes, width);
    failed := false;
  }

  /** The pattern test draws the closed-form image, and no rectangle fails, whenever its loops end. */
  method VideoTestPattern(d: Display, p: Parameters) returns (failed: bool)
    requires d.Valid()
    requires p.n > 0 ==>
      && d.mode.xRes / p.n > 0 && d.mode.xRes / (d.mode.xRes / p.n) <= 255
      && d.mode.yRes / p.n > 0 && d.mode.yRes / (d.mode.yRes / p.n) <= 255
    modifies d, d.frameBuffer
    ensures d.Valid() && (failed <==> p.n == 0)
    ensures failed ==> d.picture == old(d.picture)
    ensures !failed ==>
      PatternImage(d.mode, InkOf(d.mode, p), old(d.picture), d.picture, d.mode.xRes / p.n, d.mode.yRes / p.n)
  {
    if p.n == 0 {
      return true;
    }
    var width, height := d.mode.xRes / p.n, d.mode.yRes / p.n;
    TileIs(d.mode.xRes, width);
    TileIs(d.mode.yRes, height);
    ghost var before := d.picture;
    failed := DrawTiles(d, p, width, height, Tile(d.mode.xRes, width), Tile(d.mode.yRes, height),
                        InkOf(d.mode, p));
    AllTiled(d.mode, InkOf(d.mode, p), before, d.picture, width, height);
  }
}
