/** Erase-and-redraw animation of a sprite along one axis (lab5.c, video_test_move). */
module Animation {
  import opened CTypes
  import opened Interrupts
  import opened Motion
  import opened Screen

  const BREAK_ESC: byte := 0x81

  /** The lowest frequency a 16-bit timer can be given. */
  const MIN_RATE: byte := 19

  /** The fixed coordinate of a vertical journey is x, that of a horizontal one y. */
  datatype Journey = Journey(vertical: bool, fixed: u16, rail: Rail)

  /** The journey from (xi, yi) to (xf, yf): none when it is not along an axis, or has no speed. */
  function Plan(xi: u16, yi: u16, xf: u16, yf: u16, speed: i16): (j: Option<Journey>)
    ensures j.None? <==> (xi != xf && yi != yf) || speed == 0
    ensures j.Some? ==> RailValid(j.value.rail) && PlaceAfter(j.value, 0) == (xi, yi)
    ensures j.Some? ==> (if j.value.vertical then (j.value.fixed, j.value.rail.target)
                         else (j.value.rail.target, j.value.fixed)) == (xf, yf)
  {
    if (xi != xf && yi != yf) || speed == 0 then None
    else
      var vertical, slow := xi == xf, speed < 0;
      var start, target := if vertical then yi else xi, if vertical then yf else xf;
      var amount: u16 := if slow then 0 - speed else speed;
      Some(Journey(vertical, if vertical then xi else yi, Rail(target <= start, slow, amount, start, target)))
  }

  /** Where the sprite is after `k` ticks. */
  function PlaceAfter(j: Journey, k: nat): (u16, u16) {
    if j.vertical then (j.fixed, CarAfter(j.rail, k).at) else (CarAfter(j.rail, k).at, j.fixed)
  }

  function SpriteOver(x: u16, y: u16, sprite: Source): Shape
    requires sprite.Sprite?
  {
    Shape(x, y, sprite.width, sprite.height, sprite)
  }

  /** The sprite, drawn where it is after `k` ticks. */
  function SpriteAt(j: Journey, sprite: Source, k: nat): Shape
    requires sprite.Sprite?
  {
    SpriteOver(PlaceAfter(j, k).0, PlaceAfter(j, k).1, sprite)
  }

  function BoxOver(x: u16, y: u16): Shape {
    Shape(x, y, 100, 100, Solid(0))
  }

  /** The box erased on leaving that place. */
  function BoxAt(j: Journey, k: nat): Shape {
    BoxOver(PlaceAfter(j, k).0, PlaceAfter(j, k).1)
  }

  /** A black screen. */
  function Black(m: Mode): (picture: Picture)
    ensures Sized(m, picture)
    ensures forall y, x | 0 <= y < m.yRes && 0 <= x < m.xRes :: picture[y][x] == ToLE(0, BytesPerPixel(m))
  {
    seq(m.yRes, y requires 0 <= y < m.yRes =>
      seq(m.xRes, x requires 0 <= x < m.xRes => ToLE(0, BytesPerPixel(m))))
  }

  lemma {:induction false} ZeroBytes(n: nat, i: nat)
    requires i < n
    ensures ToLE(0, n)[i] == 0
  {
    if i > 0 {
      ZeroBytes(n - 1, i - 1);
    }
  }

  /** A frame of zero bytes, and no other, is a black screen. */
  lemma {:induction false} BlackFrame(m: Mode, frame: seq<byte>)
    requires |frame| == FrameSize(m)
    ensures PictureOf(m, frame) == Black(m) <==> forall i | 0 <= i < |frame| :: frame[i] == 0
  {
    var zero := seq(FrameSize(m), i => 0 as byte);
    forall y | 0 <= y < m.yRes ensures PictureOf(m, zero)[y] == Black(m)[y] {
      forall x | 0 <= x < m.xRes ensures PictureOf(m, zero)[y][x] == Black(m)[y][x] {
        PixelInFrame(m, x, y);
        assert PictureOf(m, zero)[y][x] == PixelAt(m, zero, x, y);
        forall i | 0 <= i < BytesPerPixel(m) ensures PixelAt(m, zero, x, y)[i] == ToLE(0, BytesPerPixel(m))[i] {
          ZeroBytes(BytesPerPixel(m), i);
        }
      }
    }
    assert PictureOf(m, zero) == Black(m);
    if PictureOf(m, frame) == Black(m) {
      PictureDeterminesFrame(m, frame, zero);
    } else {
      assert frame != zero;
    }
  }

  /** Whatever sticks out of the box erased is black. */
  ghost predicate Erasable(sprite: Source)
    requires sprite.Sprite? && SourceValid(sprite)
  {
    forall dx, dy | 0 <= dx < sprite.width && 0 <= dy < sprite.height ::
      Texel(sprite, dx, dy) == 0 || (dx < 100 && dy < 100)
  }

  /** The picture is a black screen with the sprite drawn on it, and nothing else. */
  ghost predicate Fresh(m: Mode, picture: Picture, s: Shape)
    requires ShapeValid(s)
  {
    Drawn(m, Black(m), picture, s, s.height, 0)
  }

  lemma PictureEquals(m: Mode, p: Picture, q: Picture)
    requires Sized(m, p) && Sized(m, q)
    requires forall x, y | 0 <= x < m.xRes && 0 <= y < m.yRes :: p[y][x] == q[y][x]
    ensures p == q
  {
    forall y | 0 <= y < m.yRes ensures p[y] == q[y] {
      assert forall x | 0 <= x < m.xRes :: p[y][x] == q[y][x];
    }
  }

  /** A byte of colour is black only if it is zero. */
  lemma BlackTexel(t: byte, n: nat)
    requires n > 0
    ensures ToLE(t, n) == ToLE(0, n) <==> t == 0
  {
    assert ToLE(t, n)[0] == t && ToLE(0, n)[0] == 0;
  }

  /** Erasing the box over a freshly drawn sprite gives back the black screen exactly when the sprite is erasable. */
  lemma EraseExact(m: Mode, drawn: Picture, erased: Picture, s: Shape)
    requires BytesPerPixel(m) > 0 && s.source.Sprite? && ShapeValid(s)
    requires s.width == s.source.width && s.height == s.source.height && Fits(m, s)
    requires Fresh(m, drawn, s) && Drawn(m, drawn, erased, BoxOver(s.x, s.y), 100, 0)
    ensures erased == Black(m) <==> Erasable(s.source)
  {
    if Erasable(s.source) {
      forall x, y | 0 <= x < m.xRes && 0 <= y < m.yRes ensures erased[y][x] == Black(m)[y][x] {
        ErasedAt(m, drawn, erased, s, x, y);
      }
      PictureEquals(m, erased, Black(m));
    } else {
      var dx: nat, dy: nat :|
        dx < s.width && dy < s.height && Texel(s.source, dx, dy) != 0 && (dx >= 100 || dy >= 100);
      Residue(m, drawn, erased, s, dx, dy);
    }
  }

  lemma SomeBytes(m: Mode)
    requires m.bitsPerPixel >= 1
    ensures BytesPerPixel(m) > 0
  {
  }

  /** A texel outside the box stays. */
  lemma Residue(m: Mode, drawn: Picture, erased: Picture, s: Shape, dx: nat, dy: nat)
    requires BytesPerPixel(m) > 0 && s.source.Sprite? && ShapeValid(s)
    requires s.width == s.source.width && s.height == s.source.height && Fits(m, s)
    requires Fresh(m, drawn, s) && Drawn(m, drawn, erased, BoxOver(s.x, s.y), 100, 0)
    requires dx < s.width && dy < s.height && Texel(s.source, dx, dy) != 0 && (dx >= 100 || dy >= 100)
    ensures erased != Black(m)
  {
    var x, y, t := s.x + dx, s.y + dy, Texel(s.source, dx, dy);
    var ink := ToLE(t, BytesPerPixel(m));
    assert Reached(s, s.height, 0, x, y);
    assert !Reached(BoxOver(s.x, s.y), 100, 0, x, y);
    assert drawn[y][x] == ink by {
      assert x - s.x == dx && y - s.y == dy;
    }
    assert erased[y][x] == ink;
    BlackTexel(t, BytesPerPixel(m));
  }

  lemma ErasedAt(m: Mode, drawn: Picture, erased: Picture, s: Shape, x: nat, y: nat)
    requires s.source.Sprite? && ShapeValid(s) && s.width == s.source.width && s.height == s.source.height
    requires Fresh(m, drawn, s) && Drawn(m, drawn, erased, BoxOver(s.x, s.y), 100, 0)
    requires Erasable(s.source) && x < m.xRes && y < m.yRes
    ensures erased[y][x] == ToLE(0, BytesPerPixel(m))
  {
    if !Reached(BoxOver(s.x, s.y), 100, 0, x, y) && Reached(s, s.height, 0, x, y) {
      assert Texel(s.source, x - s.x, y - s.y) == 0;
    }
  }

  /** Every shape drawn in `ticks` ticks fits: the sprite at every place, the box at every place left. */
  ghost predicate PathFits(m: Mode, j: Journey, sprite: Source, ticks: nat)
    requires sprite.Sprite?
  {
    && (forall k | 0 <= k <= ticks :: Fits(m, SpriteAt(j, sprite, k)))
    && (forall k | 0 <= k < ticks :: Fits(m, BoxAt(j, k)))
  }

  /** A steady journey is at its end from the tick stated on, and at no tick before. */
  lemma ReachesTheEnd(x: u16, y: u16, xf: u16, yf: u16, speed: i16, k: nat)
    requires Plan(x, y, xf, yf, speed).Some? && Steady(Plan(x, y, xf, yf, speed).value.rail)
    ensures
      var j := Plan(x, y, xf, yf, speed).value;
      PlaceAfter(j, k) == (xf, yf) <==>
        if speed < 0 then k >= Times(Gap(j.rail), 0 - speed) else Times(k, speed) >= Gap(j.rail)
  {
    var j := Plan(x, y, xf, yf, speed).value;
    ClosedWhenSteady(j.rail, k);
    Arrival(j.rail, k);
  }

  /** One coordinate, `gone` pixels on its way from `from` to `to`. */
  function Along(from: int, to: int, gone: int): int {
    if from < to then from + gone else if to < from then from - gone else from
  }

  /** Where the sprite is on a steady journey, in numbers: as far along as its speed has carried it, and never beyond
      the end. */
  lemma OnTheWay(x: u16, y: u16, xf: u16, yf: u16, speed: i16, k: nat)
    requires Plan(x, y, xf, yf, speed).Some? && Steady(Plan(x, y, xf, yf, speed).value.rail)
    ensures
      var gap := Abs(xf - x) + Abs(yf - y);
      var carried := if speed > 0 then k * speed else k / (0 - speed);
      var gone := if carried < gap then carried else gap;
      PlaceAfter(Plan(x, y, xf, yf, speed).value, k) == (Along(x, xf, gone), Along(y, yf, gone))
  {
    var r := Plan(x, y, xf, yf, speed).value.rail;
    ClosedWhenSteady(r, k);
    if speed > 0 {
      TimesIs(k, speed);
    } else {
      TileIs(k, 0 - speed);
    }
  }

  /** The sprite and the box fit at both ends of the journey. */
  predicate EndsFit(m: Mode, x: u16, y: u16, xf: u16, yf: u16, sprite: Source)
    requires sprite.Sprite?
  {
    && Fits(m, SpriteOver(x, y, sprite)) && Fits(m, SpriteOver(xf, yf, sprite))
    && Fits(m, BoxOver(x, y)) && Fits(m, BoxOver(xf, yf))
  }

  /** A steady journey never leaves the stretch between its ends: when everything fits at the ends it fits all
      along, and a tick after the arrival it has had to. */
  lemma EndsDecide(m: Mode, x: u16, y: u16, xf: u16, yf: u16, speed: i16, sprite: Source, ticks: nat)
    requires sprite.Sprite?
    requires Plan(x, y, xf, yf, speed).Some? && Steady(Plan(x, y, xf, yf, speed).value.rail)
    ensures
      var j := Plan(x, y, xf, yf, speed).value;
      && (EndsFit(m, x, y, xf, yf, sprite) ==> PathFits(m, j, sprite, ticks))
      && (ticks > 0 && PlaceAfter(j, ticks - 1) == (xf, yf) && PathFits(m, j, sprite, ticks) ==>
            EndsFit(m, x, y, xf, yf, sprite))
  {
    var j := Plan(x, y, xf, yf, speed).value;
    if EndsFit(m, x, y, xf, yf, sprite) {
      forall k: nat | k <= ticks ensures Fits(m, SpriteAt(j, sprite, k)) && Fits(m, BoxAt(j, k)) {
        ClosedWhenSteady(j.rail, k);
        Between(j.rail, k);
      }
    }
    if ticks > 0 && PlaceAfter(j, ticks - 1) == (xf, yf) && PathFits(m, j, sprite, ticks) {
      assert Fits(m, SpriteAt(j, sprite, 0)) && Fits(m, SpriteAt(j, sprite, ticks - 1));
      assert Fits(m, BoxAt(j, 0)) && Fits(m, BoxAt(j, ticks - 1));
    }
  }

  lemma Between(r: Rail, k: nat)
    requires RailValid(r)
    ensures if r.back then r.target <= ClosedForm(r, k) <= r.start else r.start <= ClosedForm(r, k) <= r.target
  {
  }

  datatype Direction = Up | Down | Left | Right

  /** The switch over the direction: a clamped step in 16-bit arithmetic. */
  method Advance(direction: Direction, x: u16, y: u16, xf: u16, yf: u16, amount: u16) returns (xi: u16, yi: u16)
    ensures direction.Up? || direction.Down? ==> xi == x && yi == Moved(direction.Up?, y, amount, yf)
    ensures direction.Left? || direction.Right? ==> yi == y && xi == Moved(direction.Left?, x, amount, xf)
  {
    xi, yi := x, y;
    match direction
    case Up =>
      yi := Cast16(yi - amount);
      if yi < yf {
        yi := yf;
      }
    case Down =>
      yi := Cast16(yi + amount);
      if yi > yf {
        yi := yf;
      }
    case Left =>
      xi := Cast16(xi - amount);
      if xi < xf {
        xi := xf;
      }
    case Right =>
      xi := Cast16(xi + amount);
      if xi > xf {
        xi := xf;
      }
  }

  /** The direction and the end of a journey, as the program holds them. */
  predicate Heads(j: Journey, direction: Direction, xf: u16, yf: u16) {
    if j.vertical then direction == (if j.rail.back then Up else Down) && yf == j.rail.target
    else direction == (if j.rail.back then Left else Right) && xf == j.rail.target
  }

  /** The update of the position and the frame counter at a tick. */
  method Update(ghost j: Journey, ghost k: nat, direction: Direction, slow: bool, amount: u16,
                x: u16, y: u16, xf: u16, yf: u16, frames: byte)
    returns (xi: u16, yi: u16, frameCount: byte)
    requires Heads(j, direction, xf, yf) && slow == j.rail.slow && amount == j.rail.amount
    requires (x, y) == PlaceAfter(j, k) && frames == CarAfter(j.rail, k).frames
    ensures (xi, yi) == PlaceAfter(j, k + 1) && frameCount == CarAfter(j.rail, k + 1).frames
  {
    assert CarAfter(j.rail, k + 1) == RailTick(j.rail, CarAfter(j.rail, k));
    xi, yi, frameCount := x, y, frames;
    if !slow {
      xi, yi := Advance(direction, x, y, xf, yf, amount);
    } else {
      frameCount := if frames == 255 then 0 else frames + 1;
      if frameCount == amount {
        frameCount := 0;
        xi, yi := Advance(direction, x, y, xf, yf, 1);
      }
    }
  }

  /** Drawing the sprite of tick `k`. */
  method DrawFresh(d: Display, ghost j: Journey, ghost k: nat, sprite: Source, x: u16, y: u16)
    returns (failed: bool)
    requires d.Valid() && sprite.Sprite? && SourceValid(sprite) && (x, y) == PlaceAfter(j, k)
    modifies d, d.frameBuffer
    ensures d.Valid() && failed == !Fits(d.mode, SpriteAt(j, sprite, k))
    ensures !failed && old(d.picture) == Black(d.mode) ==> Fresh(d.mode, d.picture, SpriteAt(j, sprite, k))
  {
    failed := d.PrintXpm(sprite.width, sprite.height, sprite.texels, x, y);
  }

  /** Erasing the sprite of tick `k`. */
  method EraseOld(d: Display, ghost j: Journey, ghost k: nat, ghost sprite: Source, x: u16, y: u16)
    returns (failed: bool)
    requires d.Valid() && sprite.Sprite? && SourceValid(sprite) && (x, y) == PlaceAfter(j, k)
    requires Fits(d.mode, SpriteAt(j, sprite, k))
    modifies d, d.frameBuffer
    ensures d.Valid() && failed == !Fits(d.mode, BoxAt(j, k))
    ensures !failed && Erasable(sprite) && old(Fresh(d.mode, d.picture, SpriteAt(j, sprite, k))) ==>
      d.picture == Black(d.mode)
  {
    ghost var drawn := d.picture;
    failed := d.DrawRectangle(x, y, 100, 100, 0);
    if !failed && Fresh(d.mode, drawn, SpriteAt(j, sprite, k)) {
      SomeBytes(d.mode);
      EraseExact(d.mode, drawn, d.picture, SpriteAt(j, sprite, k));
    }
  }

  /** The program's own variables describe the journey. */
  predicate Follows(j: Journey, direction: Direction, slow: bool, amount: u16, xf: u16, yf: u16) {
    Heads(j, direction, xf, yf) && slow == j.rail.slow && amount == j.rail.amount
  }

  /** After `k` ticks everything has fitted, and a clean screen shows the sprite alone. */
  ghost predicate Shows(d: Display, j: Journey, sprite: Source, k: nat, clean: bool)
    requires sprite.Sprite? && SourceValid(sprite)
    reads d, d.frameBuffer
  {
    && d.Valid() && PathFits(d.mode, j, sprite, k)
    && (clean ==> Erasable(sprite) && Fresh(d.mode, d.picture, SpriteAt(j, sprite, k)))
  }

  /** The byte held has not been BREAK_ESC before the first `n` events are over. */
  ghost predicate NotYet(es: seq<Event>, held: byte, n: nat)
    requires n <= |es|
  {
    forall i | 0 <= i < n :: Held(es, held, i) != BREAK_ESC
  }

  /** One timer tick: erase, update, draw. */
  method Redraw(d: Display, ghost j: Journey, ghost k: nat, ghost clean: bool, sprite: Source,
                direction: Direction, slow: bool, amount: u16, x: u16, y: u16, xf: u16, yf: u16, frames: byte)
    returns (failed: bool, xi: u16, yi: u16, frameCount: byte)
    requires sprite.Sprite? && SourceValid(sprite) && Shows(d, j, sprite, k, clean)
    requires Follows(j, direction, slow, amount, xf, yf)
    requires (x, y) == PlaceAfter(j, k) && frames == CarAfter(j.rail, k).frames
    modifies d, d.frameBuffer
    ensures d.Valid() && failed == !PathFits(d.mode, j, sprite, k + 1)
    ensures !failed ==> (xi, yi) == PlaceAfter(j, k + 1) && frameCount == CarAfter(j.rail, k + 1).frames
    ensures !failed ==> Shows(d, j, sprite, k + 1, clean)
  {
    xi, yi, frameCount := x, y, frames;
    failed := EraseOld(d, j, k, sprite, x, y);
    if failed {
      return;
    }
    xi, yi, frameCount := Update(j, k, direction, slow, amount, x, y, xf, yf, frames);
    failed := DrawFresh(d, j, k + 1, sprite, xi, yi);
  }

  /** The event loop, from the first drawing on. */
  method Animate(d: Display, ghost j: Journey, ghost clean: bool, sprite: Source, direction: Direction, slow: bool,
                 amount: u16, x: u16, y: u16, xf: u16, yf: u16, held: byte, es: seq<Event>)
    returns (failed: bool, used: nat)
    requires sprite.Sprite? && SourceValid(sprite) && Shows(d, j, sprite, 0, clean)
    requires Follows(j, direction, slow, amount, xf, yf) && (x, y) == PlaceAfter(j, 0)
    modifies d, d.frameBuffer
    ensures d.Valid() && used <= |es|
    ensures failed == !PathFits(d.mode, j, sprite, Ticks(es, 0, used))
    ensures !failed ==> Shows(d, j, sprite, Ticks(es, 0, used), clean)
    ensures NotYet(es, held, used)
    ensures !failed && used < |es| ==> Held(es, held, used) == BREAK_ESC
  {
    var xi, yi, frameCount := x, y, 0;
    var scancode := held;
    ghost var k := 0;
    used, failed := 0, false;
    while used < |es| && scancode != BREAK_ESC
      invariant used <= |es| && k == Ticks(es, 0, used) && Shows(d, j, sprite, k, clean)
      invariant (xi, yi) == PlaceAfter(j, k) && frameCount == CarAfter(j.rail, k).frames
      invariant scancode == Held(es, held, used) && NotYet(es, held, used)
    {
      if es[used].device {
        scancode := es[used].read.GetOr(scancode);
      }
      used := used + 1;
      if es[used - 1].tick {
        failed, xi, yi, frameCount :=
          Redraw(d, j, k, clean, sprite, direction, slow, amount, xi, yi, xf, yf, frameCount);
        if failed {
          return;
        }
        k := k + 1;
      }
    }
    failed := false;
  }

  /** The entry tests: the direction and the amount the program takes follow the planned journey. */
  lemma PlanFollows(x: u16, y: u16, xf: u16, yf: u16, speed: i16, direction: Direction)
    requires Plan(x, y, xf, yf, speed).Some?
    requires direction == if x == xf then (if y < yf then Down else Up) else if x < xf then Right else Left
    ensures
      var amount := if speed < 0 then 0 - speed else speed;
      Follows(Plan(x, y, xf, yf, speed).value, direction, speed < 0, amount, xf, yf)
  {
  }

  /** The animation. It refuses a journey that is not along an axis or has no speed, and a frame rate the timer
      cannot be set to, and otherwise fails exactly when some shape of its path does not fit; as long as it runs,
      erasing and redrawing shows what drawing on a black screen would show. It stops with the first event after
      which the byte held is BREAK_ESC. */
  method VideoTestMove(d: Display, sprite: Source, x: u16, y: u16, xf: u16, yf: u16, speed: i16, frRate: byte,
                       held: byte, es: seq<Event>)
    returns (failed: bool, used: nat)
    requires d.Valid() && sprite.Sprite? && SourceValid(sprite)
    modifies d, d.frameBuffer
    ensures d.Valid() && used <= |es|
    ensures Plan(x, y, xf, yf, speed).None? || frRate < MIN_RATE ==> failed && used == 0 && d.picture == old(d.picture)
    ensures Plan(x, y, xf, yf, speed).Some? && frRate >= MIN_RATE ==>
      (failed <==> !PathFits(d.mode, Plan(x, y, xf, yf, speed).value, sprite, Ticks(es, 0, used)))
    ensures !failed && Erasable(sprite) && old(d.picture) == Black(d.mode) ==>
      Fresh(d.mode, d.picture, SpriteAt(Plan(x, y, xf, yf, speed).value, sprite, Ticks(es, 0, used)))
    ensures NotYet(es, held, used)
    ensures !failed && used < |es| ==> Held(es, held, used) == BREAK_ESC
  {
    var direction;
    if x == xf {
      direction := if y < yf then Down else Up;
    } else if y == yf {
      direction := if x < xf then Right else Left;
    } else {
      return true, 0;
    }
    if speed == 0 {
      return true, 0;
    }
    if frRate < MIN_RATE {
      return true, 0;
    }
    var slow := speed < 0;
    var amount: u16 := if slow then 0 - speed else speed;
    ghost var j := Plan(x, y, xf, yf, speed).value;
    ghost var clean := Erasable(sprite) && d.picture == Black(d.mode);
    PlanFollows(x, y, xf, yf, speed, direction);
    failed := DrawFresh(d, j, 0, sprite, x, y);
    if failed {
      return true, 0;
    }
    failed, used := Animate(d, j, clean, sprite, direction, slow, amount, x, y, xf, yf, held, es);
  }
}
