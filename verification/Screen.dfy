/** Drawing into a flat frame buffer of any depth (lab5 graphics.c). */
module Screen {
  import opened CTypes

  datatype Mode = Mode(xRes: u16, yRes: u16, bitsPerPixel: byte)

  function BytesPerPixel(m: Mode): nat {
    (m.bitsPerPixel + 7) / 8
  }

  function FrameSize(m: Mode): nat {
    m.xRes * m.yRes * BytesPerPixel(m)
  }

  /** A depth of 1 to 32 bits, and a frame whose size does not overflow the ints it is computed in. */
  predicate Supported(m: Mode) {
    1 <= m.bitsPerPixel <= 32 && FrameSize(m) < 0x8000_0000
  }

  /** The bytes of one pixel. */
  type Pixel = seq<byte>

  /** Rows of pixels. */
  type Picture = seq<seq<Pixel>>

  /** Where pixel (x, y) begins. */
  function Index(m: Mode, x: nat, y: nat): nat {
    (m.xRes * y + x) * BytesPerPixel(m)
  }

  lemma CellBound(m: Mode, x: nat, y: nat)
    requires x < m.xRes && y < m.yRes
    ensures m.xRes * y + x + 1 <= m.xRes * m.yRes
  {
    MulMonotone(m.xRes, y + 1, m.yRes);
  }

  /** Every pixel lies inside the mapped frame. */
  lemma PixelInFrame(m: Mode, x: nat, y: nat)
    requires x < m.xRes && y < m.yRes
    ensures Index(m, x, y) + BytesPerPixel(m) <= FrameSize(m)
  {
    CellBound(m, x, y);
    MulMonotone(BytesPerPixel(m), m.xRes * y + x + 1, m.xRes * m.yRes);
  }

  lemma CellsDistinct(m: Mode, x: nat, y: nat, x': nat, y': nat)
    requires x < m.xRes && x' < m.xRes && (x != x' || y != y')
    ensures m.xRes * y + x != m.xRes * y' + x'
  {
    if y < y' {
      MulMonotone(m.xRes, y + 1, y');
    } else if y' < y {
      MulMonotone(m.xRes, y' + 1, y);
    }
  }

  /** The byte ranges of distinct pixels are disjoint. */
  lemma PixelsDisjoint(m: Mode, x: nat, y: nat, x': nat, y': nat)
    requires x < m.xRes && x' < m.xRes && (x != x' || y != y')
    ensures Index(m, x, y) + BytesPerPixel(m) <= Index(m, x', y') || Index(m, x', y') + BytesPerPixel(m) <= Index(m, x, y)
  {
    CellsDistinct(m, x, y, x', y');
    Apart(m.xRes * y + x, m.xRes * y' + x', BytesPerPixel(m));
  }

  lemma Apart(p: nat, q: nat, b: nat)
    requires p != q
    ensures p * b + b <= q * b || q * b + b <= p * b
  {
    if p < q {
      MulMonotone(b, p + 1, q);
    } else {
      MulMonotone(b, q + 1, p);
    }
  }

  /** Pixel (x, y) of a frame. */
  function PixelAt(m: Mode, buffer: seq<byte>, x: nat, y: nat): Pixel
    requires |buffer| == FrameSize(m) && x < m.xRes && y < m.yRes
  {
    PixelInFrame(m, x, y);
    buffer[Index(m, x, y)..Index(m, x, y) + BytesPerPixel(m)]
  }

  function RowOf(m: Mode, buffer: seq<byte>, y: nat): (row: seq<Pixel>)
    requires |buffer| == FrameSize(m) && y < m.yRes
    ensures |row| == m.xRes && forall x | 0 <= x < m.xRes :: row[x] == PixelAt(m, buffer, x, y)
  {
    seq(m.xRes, x requires 0 <= x < m.xRes => PixelAt(m, buffer, x, y))
  }

  /** The picture a frame shows. */
  function PictureOf(m: Mode, buffer: seq<byte>): (rows: Picture)
    requires |buffer| == FrameSize(m)
    ensures |rows| == m.yRes && forall y | 0 <= y < m.yRes :: rows[y] == RowOf(m, buffer, y)
  {
    seq(m.yRes, y requires 0 <= y < m.yRes => RowOf(m, buffer, y))
  }

  /** The bytes of pixel (x, y) lie in the frame from (xRes * y + x) * b on. */
  lemma PictureAt(m: Mode, buffer: seq<byte>, x: nat, y: nat, k: nat, b: nat)
    requires |buffer| == FrameSize(m) && x < m.xRes && y < m.yRes && k < b && Holds(m, b)
    ensures |PictureOf(m, buffer)[y][x]| == b && (m.xRes * y + x) * b + k < |buffer|
    ensures PictureOf(m, buffer)[y][x][k] == buffer[(m.xRes * y + x) * b + k]
  {
    assert b == BytesPerPixel(m);
    PixelInFrame(m, x, y);
    assert PictureOf(m, buffer)[y][x] == PixelAt(m, buffer, x, y);
  }

  ghost predicate Sized(m: Mode, picture: Picture) {
    |picture| == m.yRes && forall y | 0 <= y < |picture| :: |picture[y]| == m.xRes
  }

  /** The coordinate-to-colour map with one pixel set. */
  function SetPixel(picture: Picture, x: nat, y: nat, p: Pixel): Picture
    requires y < |picture| && x < |picture[y]|
  {
    picture[y := picture[y][x := p]]
  }

  /** Writing the bytes of one pixel is setting that pixel and no other. */
  lemma {:induction false} WriteIsSetPixel(m: Mode, before: seq<byte>, after: seq<byte>, x: nat, y: nat, p: Pixel)
    requires |before| == |after| == FrameSize(m) && x < m.xRes && y < m.yRes && |p| == BytesPerPixel(m)
    requires Index(m, x, y) + |p| <= |before|
    requires forall i | 0 <= i < |before| ::
      after[i] == if Index(m, x, y) <= i < Index(m, x, y) + |p| then p[i - Index(m, x, y)] else before[i]
    ensures PictureOf(m, after) == SetPixel(PictureOf(m, before), x, y, p)
  {
    var old_, new_ := PictureOf(m, before), PictureOf(m, after);
    forall x', y' | 0 <= x' < m.xRes && 0 <= y' < m.yRes
      ensures PixelAt(m, after, x', y') == if x' == x && y' == y then p else PixelAt(m, before, x', y')
    {
      PixelInFrame(m, x', y');
      if x' != x || y' != y {
        PixelsDisjoint(m, x, y, x', y');
      }
    }
    forall y' | 0 <= y' < m.yRes ensures new_[y'] == SetPixel(old_, x, y, p)[y'] {
      assert forall x' | 0 <= x' < m.xRes :: new_[y'][x'] == PixelAt(m, after, x', y');
      assert forall x' | 0 <= x' < m.xRes :: old_[y'][x'] == PixelAt(m, before, x', y');
    }
  }

  /** The picture determines the frame: every byte belongs to a pixel. */
  lemma {:induction false} PictureDeterminesFrame(m: Mode, f: seq<byte>, g: seq<byte>)
    requires |f| == |g| == FrameSize(m) && PictureOf(m, f) == PictureOf(m, g)
    ensures f == g
  {
    var b := BytesPerPixel(m);
    forall i | 0 <= i < |f| ensures f[i] == g[i] {
      var x, y := Locate(m, i);
      var j := Index(m, x, y);
      assert PictureOf(m, f)[y][x] == PictureOf(m, g)[y][x];
      assert PixelAt(m, f, x, y) == PixelAt(m, g, x, y);
      assert f[j..j + b][i - j] == g[j..j + b][i - j];
    }
  }

  /** The pixel a byte of the frame belongs to. */
  lemma Locate(m: Mode, i: nat) returns (x: nat, y: nat)
    requires i < FrameSize(m)
    ensures x < m.xRes && y < m.yRes
    ensures Index(m, x, y) <= i < Index(m, x, y) + BytesPerPixel(m)
    ensures Index(m, x, y) + BytesPerPixel(m) <= FrameSize(m)
  {
    x, y := LocateCell(i, BytesPerPixel(m), m.xRes, m.yRes);
    PixelInFrame(m, x, y);
  }

  lemma LocateCell(i: nat, b: nat, w: nat, h: nat) returns (x: nat, y: nat)
    requires i < (w * h) * b
    ensures x < w && y < h && (w * y + x) * b <= i < (w * y + x) * b + b
  {
    PositiveFactors(w, h, b);
    DivBound(i, b, w * h);
    var cell := i / b;
    MulCommutes(w, h);
    DivBound(cell, w, h);
    x, y := cell % w, cell / w;
    assert w * y + x == cell;
    MulCommutes(cell, b);
  }

  lemma MulCommutes(a: nat, b: nat)
    ensures a * b == b * a
  {
  }

  lemma PositiveFactors(w: nat, h: nat, b: nat)
    requires w * h * b > 0
    ensures w > 0 && h > 0 && b > 0
  {
  }

  lemma DivBound(i: nat, d: nat, n: nat)
    requires d > 0 && i < n * d
    ensures i / d < n && d * (i / d) + i % d == i && i % d < d
  {
    if i / d >= n {
      MulMonotone(d, n, i / d);
    }
  }

  // ----- shapes

  /** What a shape is filled with: one colour, or the texels of a sprite, row by row. */
  datatype Source = Solid(color: u32) | Sprite(width: u16, height: u16, texels: seq<byte>)

  ghost predicate SourceValid(s: Source) {
    s.Sprite? ==> |s.texels| == Times(s.height, s.width)
  }

  /** The colour at column `dx`, row `dy` of a shape. */
  function Texel(s: Source, dx: nat, dy: nat): (color: u32)
    requires SourceValid(s)
    requires s.Sprite? ==> dx < s.width && dy < s.height
    ensures s.Sprite? ==> color < 0x100
  {
    match s
    case Solid(color) => color
    case Sprite(width, height, texels) =>
      TimesMonotone(dy + 1, height, width);
      texels[Times(dy, width) + dx]
  }

  /** Texels run along the rows. */
  lemma TexelAt(s: Source, dx: nat, dy: nat)
    requires SourceValid(s) && s.Sprite? && dx < s.width && dy < s.height
    ensures dy * s.width + dx < |s.texels| && Texel(s, dx, dy) == s.texels[dy * s.width + dx]
  {
    TimesIs(dy, s.width);
    TimesMonotone(dy + 1, s.height, s.width);
  }

  /** A shape of a given size with its top left corner at (x, y). */
  datatype Shape = Shape(x: u16, y: u16, width: u16, height: u16, source: Source)

  ghost predicate ShapeValid(s: Shape) {
    && SourceValid(s.source)
    && (s.source.Sprite? ==> s.width <= s.source.width && s.height <= s.source.height)
  }

  /** Pixel (px, py) is among the first `rows` rows of the shape, or among the first `extra` pixels of the
      next row. */
  predicate Reached(s: Shape, rows: nat, extra: nat, px: nat, py: nat) {
    && s.x <= px && s.y <= py
    && ((px < s.x + s.width && py < s.y + rows) || (px < s.x + extra && py == s.y + rows))
  }

  /** The bytes the shape gives pixel (px, py). */
  function InkAt(m: Mode, s: Shape, px: nat, py: nat): Pixel
    requires ShapeValid(s) && s.x <= px < s.x + s.width && s.y <= py < s.y + s.height
  {
    ToLE(Texel(s.source, px - s.x, py - s.y), BytesPerPixel(m))
  }

  /** `after` is `before` with exactly that part of the shape drawn over it. */
  ghost predicate Drawn(m: Mode, before: Picture, after: Picture, s: Shape, rows: nat, extra: nat)
    requires ShapeValid(s) && rows <= s.height && extra <= s.width && (extra > 0 ==> rows < s.height)
  {
    && Sized(m, before) && Sized(m, after)
    && forall px, py | 0 <= px < m.xRes && 0 <= py < m.yRes ::
         after[py][px] ==
         if Reached(s, rows, extra, px, py) then InkAt(m, s, px, py) else before[py][px]
  }

  predicate Fits(m: Mode, s: Shape) {
    s.width == 0 || s.height == 0 || (s.x + s.width <= m.xRes && s.y + s.height <= m.yRes)
  }

  /** How far drawing gets: everything when the shape fits; when it sticks out to the right, the visible part
      of its first row; when it only sticks out below, the visible rows. */
  function Progress(m: Mode, s: Shape): (p: (nat, nat))
    ensures p.0 <= s.height && p.1 <= s.width && (p.1 > 0 ==> p.0 < s.height)
  {
    if Fits(m, s) then (s.height, 0)
    else if s.y >= m.yRes then (0, 0)
    else if s.x + s.width > m.xRes then (0, if s.x < m.xRes then m.xRes - s.x else 0)
    else (m.yRes - s.y, 0)
  }

  /** The outcome of drawing a shape: success exactly when it fits, and exactly the pixels it got to. */
  ghost predicate DrawResult(m: Mode, before: Picture, after: Picture, s: Shape, failed: bool)
    requires ShapeValid(s)
  {
    failed == !Fits(m, s) && Drawn(m, before, after, s, Progress(m, s).0, Progress(m, s).1)
  }

  lemma DrawNothing(m: Mode, picture: Picture, s: Shape)
    requires ShapeValid(s) && Sized(m, picture)
    ensures Drawn(m, picture, picture, s, 0, 0)
  {
  }

  /** Drawing the next pixel of the current row. */
  lemma DrawNext(m: Mode, before: Picture, mid: Picture, s: Shape, rows: nat, extra: nat, p: Pixel)
    requires ShapeValid(s) && rows < s.height && extra < s.width && Drawn(m, before, mid, s, rows, extra)
    requires s.x + extra < m.xRes && s.y + rows < m.yRes
    requires p == InkAt(m, s, s.x + extra, s.y + rows)
    ensures Drawn(m, before, SetPixel(mid, s.x + extra, s.y + rows, p), s, rows, extra + 1)
  {
    var after := SetPixel(mid, s.x + extra, s.y + rows, p);
    forall px, py | 0 <= px < m.xRes && 0 <= py < m.yRes
      ensures after[py][px] == if Reached(s, rows, extra + 1, px, py) then InkAt(m, s, px, py) else before[py][px]
    {
      SetPixelAt(mid, s.x + extra, s.y + rows, p, px, py);
      if Reached(s, rows, extra + 1, px, py) {
        DrawNextAt(before[py][px], mid[py][px], after[py][px], InkAt(m, s, px, py), p, s, rows, extra, px, py);
      }
    }
  }

  lemma DrawNextAt(before: Pixel, mid: Pixel, after: Pixel, wanted: Pixel, p: Pixel, s: Shape, rows: nat, extra: nat,
                   px: nat, py: nat)
    requires extra < s.width && (px == s.x + extra && py == s.y + rows ==> wanted == p)
    requires mid == if Reached(s, rows, extra, px, py) then wanted else before
    requires after == if px == s.x + extra && py == s.y + rows then p else mid
    ensures after == if Reached(s, rows, extra + 1, px, py) then wanted else before
  {
  }

  lemma SetPixelAt(picture: Picture, x: nat, y: nat, p: Pixel, px: nat, py: nat)
    requires y < |picture| && x < |picture[y]| && py < |picture| && px < |picture[py]|
    ensures |SetPixel(picture, x, y, p)[py]| == |picture[py]|
    ensures SetPixel(picture, x, y, p)[py][px] == if px == x && py == y then p else picture[py][px]
  {
  }

  /** A row of `width` pixels is a complete row. */
  lemma RowDone(m: Mode, before: Picture, mid: Picture, s: Shape, rows: nat)
    requires ShapeValid(s) && rows < s.height && Drawn(m, before, mid, s, rows, s.width)
    ensures Drawn(m, before, mid, s, rows + 1, 0)
  {
  }

  /** One row of a rectangle, as a shape of its own. */
  function RowShape(s: Shape, row: u16): Shape {
    Shape(s.x, row, s.width, 1, s.source)
  }

  /** Drawing one more row, or part of it, over the rows already drawn. */
  lemma DrawRow(m: Mode, before: Picture, mid: Picture, after: Picture, s: Shape, rows: nat, full: bool, extra: nat)
    requires s.source.Solid? && rows < s.height && extra <= s.width && Drawn(m, before, mid, s, rows, 0)
    requires s.width > 0 ==> s.y + rows < 0x1_0000
    requires
      var row := RowShape(s, Cast16(s.y + rows));
      if full then Drawn(m, mid, after, row, 1, 0) else Drawn(m, mid, after, row, 0, extra)
    ensures if full then Drawn(m, before, after, s, rows + 1, 0) else Drawn(m, before, after, s, rows, extra)
  {
  }

  /** While drawing, everything drawn so far was on the screen. */
  predicate OnScreen(m: Mode, s: Shape, rows: nat, extra: nat) {
    && (rows > 0 && s.width > 0 ==> s.x + s.width <= m.xRes && s.y + rows <= m.yRes)
    && (extra > 0 ==> s.x + extra <= m.xRes && s.y + rows < m.yRes)
  }

  /** A pixel that is off the screen ends the drawing with the progress stated; the 16-bit conversion of its
      coordinates never matters. */
  lemma Stuck(m: Mode, before: Picture, mid: Picture, s: Shape, rows: nat, extra: nat)
    requires ShapeValid(s) && rows < s.height && extra < s.width && Drawn(m, before, mid, s, rows, extra)
    requires OnScreen(m, s, rows, extra)
    requires Cast16(s.x + extra) >= m.xRes || Cast16(s.y + rows) >= m.yRes
    ensures DrawResult(m, before, mid, s, true)
  {
  }

  lemma Finished(m: Mode, before: Picture, mid: Picture, s: Shape)
    requires ShapeValid(s) && Drawn(m, before, mid, s, s.height, 0) && OnScreen(m, s, s.height, 0)
    ensures DrawResult(m, before, mid, s, false)
  {
  }

  // ----- the display

  /** The least number of bytes that holds the bits of a pixel. */
  predicate Holds(m: Mode, b: nat) {
    8 * b >= m.bitsPerPixel && (b > 0 ==> 8 * (b - 1) < m.bitsPerPixel)
  }

  /** In so many bytes: the colour lies at (xRes * y + x) * b, lowest byte first, and nothing else has changed. */
  ghost predicate PixelWritten(m: Mode, before: seq<byte>, after: seq<byte>, x: nat, y: nat, color: nat) {
    exists b: nat | Holds(m, b) ::
      var first := (m.xRes * y + x) * b;
      && first + b <= |before| == |after|
      && forall i | 0 <= i < |before| ::
           after[i] == if first <= i < first + b then (color / Pow256(i - first)) % 256 else before[i]
  }

  lemma {:induction false} WrittenLiterally(m: Mode, before: seq<byte>, after: seq<byte>, x: nat, y: nat, color: nat)
    requires |before| == |after| && Index(m, x, y) + BytesPerPixel(m) <= |before|
    requires forall i | 0 <= i < |before| ::
      after[i] == if Index(m, x, y) <= i < Index(m, x, y) + BytesPerPixel(m)
                  then ToLE(color, BytesPerPixel(m))[i - Index(m, x, y)] else before[i]
    ensures PixelWritten(m, before, after, x, y, color)
  {
    var b, first := BytesPerPixel(m), Index(m, x, y);
    assert Holds(m, b);
    forall i | 0 <= i < |before|
      ensures after[i] == if first <= i < first + b then (color / Pow256(i - first)) % 256 else before[i]
    {
      if first <= i < first + b {
        ToLEAt(color, b, i - first);
      }
    }
  }

  /** What a sprite at (x, y) looks like: it is all on the screen, and pixel (px, py) has the texel
      (py - y) * width + (px - x). */
  ghost predicate SpriteShown(m: Mode, picture: Picture, width: nat, height: nat, texels: seq<byte>, x: nat, y: nat)
    requires Sized(m, picture)
  {
    && (width > 0 && height > 0 ==> x + width <= m.xRes && y + height <= m.yRes)
    && forall px, py | x <= px < x + width && y <= py < y + height ::
         TexelShown(m, picture[py][px], width, texels, px - x, py - y)
  }

  predicate TexelShown(m: Mode, p: Pixel, width: nat, texels: seq<byte>, dx: nat, dy: nat) {
    0 <= dy * width + dx < |texels| && p == ToLE(texels[dy * width + dx], BytesPerPixel(m))
  }

  lemma TexelShows(m: Mode, s: Source, dx: nat, dy: nat)
    requires SourceValid(s) && s.Sprite? && dx < s.width && dy < s.height
    ensures TexelShown(m, ToLE(Texel(s, dx, dy), BytesPerPixel(m)), s.width, s.texels, dx, dy)
  {
    TexelAt(s, dx, dy);
  }

  lemma {:induction false} SpriteTexel(m: Mode, before: Picture, after: Picture, s: Shape, px: nat, py: nat)
    requires s.source.Sprite? && ShapeValid(s) && s.width == s.source.width && s.height == s.source.height
    requires Fits(m, s) && Drawn(m, before, after, s, s.height, 0)
    requires s.x <= px < s.x + s.width && s.y <= py < s.y + s.height
    ensures after[py][px] == ToLE(Texel(s.source, px - s.x, py - s.y), BytesPerPixel(m))
  {
    assert Reached(s, s.height, 0, px, py);
    assert after[py][px] == InkAt(m, s, px, py);
  }

  lemma {:induction false} SpriteExact(m: Mode, before: Picture, after: Picture, s: Shape)
    requires s.source.Sprite? && ShapeValid(s) && s.width == s.source.width && s.height == s.source.height
    requires DrawResult(m, before, after, s, false)
    ensures SpriteShown(m, after, s.width, s.height, s.source.texels, s.x, s.y)
  {
    forall px, py | s.x <= px < s.x + s.width && s.y <= py < s.y + s.height
      ensures TexelShown(m, after[py][px], s.width, s.source.texels, px - s.x, py - s.y)
    {
      SpriteTexel(m, before, after, s, px, py);
      TexelShows(m, s.source, px - s.x, py - s.y);
    }
  }

  /** What a rectangle looks like, pixel by pixel: all of it when it fits, the visible part of its first row when it
      sticks out to the right of a visible row, the visible rows when it sticks out below, and nothing otherwise. */
  lemma {:induction false} RectangleExact(m: Mode, before: Picture, after: Picture, x: u16, y: u16,
                                          width: u16, height: u16, color: u32, failed: bool, px: nat, py: nat)
    requires DrawResult(m, before, after, Shape(x, y, width, height, Solid(color)), failed)
    requires px < m.xRes && py < m.yRes
    ensures failed <==> width > 0 && height > 0 && (x + width > m.xRes || y + height > m.yRes)
    ensures after[py][px] ==
      if x <= px < x + width && (if x + width <= m.xRes then y <= py < y + height else py == y && height > 0)
      then ToLE(color, BytesPerPixel(m)) else before[py][px]
  {
    var s := Shape(x, y, width, height, Solid(color));
    var rows, extra := Progress(m, s).0, Progress(m, s).1;
    ReachedExact(m, s, px, py);
    assert after[py][px] == if Reached(s, rows, extra, px, py) then InkAt(m, s, px, py) else before[py][px];
  }

  lemma ReachedExact(m: Mode, s: Shape, px: nat, py: nat)
    requires px < m.xRes && py < m.yRes
    ensures Reached(s, Progress(m, s).0, Progress(m, s).1, px, py) <==>
      s.x <= px < s.x + s.width &&
      if s.x + s.width <= m.xRes then s.y <= py < s.y + s.height else py == s.y && s.height > 0
  {
  }

  class Display {
    const mode: Mode
    const frameBuffer: array<byte>

    ghost var picture: Picture

    /** `picture` is what the frame buffer shows. */
    ghost predicate Valid()
      reads this, frameBuffer
    {
      && Supported(mode) && frameBuffer.Length == FrameSize(mode)
      && picture == PictureOf(mode, frameBuffer[..]) && Sized(mode, picture)
    }

    /** Mapping the frame of a mode; the mapped memory starts blank. */
    constructor (mode: Mode)
      requires Supported(mode)
      ensures Valid() && this.mode == mode && fresh(frameBuffer)
      ensures exists b: nat | Holds(mode, b) :: frameBuffer.Length == mode.xRes * mode.yRes * b
      ensures forall i | 0 <= i < frameBuffer.Length :: frameBuffer[i] == 0
    {
      this.mode := mode;
      var bytesPerPixel := (mode.bitsPerPixel + 7) / 8;
      var frameSize := mode.xRes * mode.yRes * bytesPerPixel;
      frameBuffer := new byte[frameSize](_ => 0);
      new;
      picture := PictureOf(mode, frameBuffer[..]);
      assert Holds(mode, BytesPerPixel(mode));
    }

    method DrawPixel(x: u16, y: u16, color: u32) returns (failed: bool)
      requires Valid()
      modifies this`picture, frameBuffer
      ensures Valid()
      ensures failed <==> x >= mode.xRes || y >= mode.yRes
      ensures picture == if failed then old(picture)
                         else SetPixel(old(picture), x, y, ToLE(color, BytesPerPixel(mode)))
      ensures if failed then frameBuffer[..] == old(frameBuffer[..])
              else PixelWritten(mode, old(frameBuffer[..]), frameBuffer[..], x, y, color)
    {
      if x >= mode.xRes || y >= mode.yRes {
        return true;
      }
      var bytesPerPixel := (mode.bitsPerPixel + 7) / 8;
      PixelInFrame(mode, x, y);
      var index := Cast32((mode.xRes * y + x) * bytesPerPixel);
      ghost var before := frameBuffer[..];
      CopyBytes(index, color, bytesPerPixel);
      ghost var p := ToLE(color, bytesPerPixel);
      WriteIsSetPixel(mode, before, frameBuffer[..], x, y, p);
      WrittenLiterally(mode, before, frameBuffer[..], x, y, color);
      picture := SetPixel(picture, x, y, p);
      failed := false;
    }

    /** memcpy of the low bytes of a colour. */
    method CopyBytes(index: nat, color: u32, count: nat)
      requires index + count <= frameBuffer.Length
      modifies frameBuffer
      ensures forall i | 0 <= i < frameBuffer.Length ::
        frameBuffer[i] == if index <= i < index + count then ToLE(color, count)[i - index] else old(frameBuffer[i])
    {
      ghost var p := ToLE(color, count);
      var rest: nat := color;
      for j := 0 to count
        invariant p[j..] == ToLE(rest, count - j)
        invariant forall i | 0 <= i < frameBuffer.Length ::
          frameBuffer[i] == if index <= i < index + j then p[i - index] else old(frameBuffer[i])
      {
        assert p[j] == p[j..][0] && p[j + 1..] == p[j..][1..];
        frameBuffer[index + j] := rest % 256;
        rest := rest / 256;
      }
    }

    /** The next pixel of a shape. */
    method DrawShapePixel(ghost s: Shape, ghost before: Picture, ghost rows: nat, ghost extra: nat,
                          x: u16, y: u16, color: u32)
      returns (failed: bool)
      requires Valid() && ShapeValid(s) && rows < s.height && extra < s.width
      requires Drawn(mode, before, picture, s, rows, extra) && OnScreen(mode, s, rows, extra)
      requires x == Cast16(s.x + extra) && y == Cast16(s.y + rows) && color == Texel(s.source, extra, rows)
      modifies this`picture, frameBuffer
      ensures Valid()
      ensures failed ==> DrawResult(mode, before, picture, s, true)
      ensures !failed ==> Drawn(mode, before, picture, s, rows, extra + 1) && OnScreen(mode, s, rows, extra + 1)
    {
      ghost var mid := picture;
      assert x == s.x + extra && y == s.y + rows;
      failed := DrawPixel(x, y, color);
      if failed {
        Stuck(mode, before, mid, s, rows, extra);
      } else {
        DrawNext(mode, before, mid, s, rows, extra, ToLE(color, BytesPerPixel(mode)));
      }
    }

    method DrawHLine(x: u16, y: u16, len: u16, color: u32) returns (failed: bool)
      requires Valid()
      modifies this`picture, frameBuffer
      ensures Valid() && DrawResult(mode, old(picture), picture, Shape(x, y, len, 1, Solid(color)), failed)
    {
      ghost var s := Shape(x, y, len, 1, Solid(color));
      ghost var before := picture;
      DrawNothing(mode, before, s);
      var i := 0;
      while i < len
        invariant Valid() && i <= len && Drawn(mode, before, picture, s, 0, i) && OnScreen(mode, s, 0, i)
      {
        failed := DrawShapePixel(s, before, 0, i, Cast16(x + i), y, color);
        if failed {
          return true;
        }
        i := i + 1;
      }
      RowDone(mode, before, picture, s, 0);
      Finished(mode, before, picture, s);
      failed := false;
    }

    /** Rectangle drawing, exact on success and failure. */
    method DrawRectangle(x: u16, y: u16, width: u16, height: u16, color: u32) returns (failed: bool)
      requires Valid()
      modifies this`picture, frameBuffer
      ensures Valid() && DrawResult(mode, old(picture), picture, Shape(x, y, width, height, Solid(color)), failed)
    {
      ghost var s := Shape(x, y, width, height, Solid(color));
      ghost var before := picture;
      DrawNothing(mode, before, s);
      var i := 0;
      while i < height
        invariant Valid() && i <= height && Drawn(mode, before, picture, s, i, 0) && OnScreen(mode, s, i, 0)
      {
        ghost var mid := picture;
        var row := Cast16(y + i);
        failed := DrawHLine(x, row, width, color);
        DrawRow(mode, before, mid, picture, s, i, !failed, Progress(mode, RowShape(s, row)).1);
        if failed {
          return true;
        }
        i := i + 1;
      }
      Finished(mode, before, picture, s);
      failed := false;
    }

    /** One row of a sprite, the inner loop of print_xpm; `colors` runs along the texels. */
    method PrintXpmRow(ghost s: Shape, ghost before: Picture, width: u16, texels: seq<byte>, colors: nat,
                       x: u16, y: u16, h: u16)
      returns (failed: bool)
      requires Valid() && ShapeValid(s) && s == Shape(x, y, width, s.height, Sprite(width, s.height, texels))
      requires h < s.height && colors == Times(h, width)
      requires Drawn(mode, before, picture, s, h, 0) && OnScreen(mode, s, h, 0)
      modifies this`picture, frameBuffer
      ensures Valid()
      ensures failed ==> DrawResult(mode, before, picture, s, true)
      ensures !failed ==> Drawn(mode, before, picture, s, h + 1, 0) && OnScreen(mode, s, h + 1, 0)
    {
      TimesMonotone(h + 1, s.height, width);
      var w := 0;
      while w < width
        invariant Valid() && w <= width && Drawn(mode, before, picture, s, h, w) && OnScreen(mode, s, h, w)
      {
        failed := DrawShapePixel(s, before, h, w, Cast16(x + w), Cast16(y + h), texels[colors + w]);
        if failed {
          return true;
        }
        w := w + 1;
      }
      RowDone(mode, before, picture, s, h);
      failed := false;
    }

    /** Drawing an indexed sprite at (x, y). */
    method PrintXpm(width: u16, height: u16, texels: seq<byte>, x: u16, y: u16) returns (failed: bool)
      requires Valid() && |texels| == Times(height, width)
      modifies this`picture, frameBuffer
      ensures Valid()
      ensures DrawResult(mode, old(picture), picture, Shape(x, y, width, height, Sprite(width, height, texels)), failed)
      ensures !failed ==> SpriteShown(mode, picture, width, height, texels, x, y)
    {
      ghost var s := Shape(x, y, width, height, Sprite(width, height, texels));
      ghost var before := picture;
      DrawNothing(mode, before, s);
      var colors := 0;
      var h := 0;
      while h < height
        invariant Valid() && h <= height && colors == Times(h, width)
        invariant Drawn(mode, before, picture, s, h, 0) && OnScreen(mode, s, h, 0)
      {
        failed := PrintXpmRow(s, before, width, texels, colors, x, y, h);
        if failed {
          return true;
        }
        colors := colors + width;
        h := h + 1;
      }
      Finished(mode, before, picture, s);
      SpriteExact(mode, before, picture, s);
      failed := false;
    }
  }
}
