/** Clamped motion along one axis and the animation drawn with it (lab5.c, video_test_move). */
module Motion {
  import opened CTypes

  /** One coordinate on its way: back or forth to `target`, by `amount` every tick or, in slow mode, by one every
      `amount` ticks. */
  datatype Rail = Rail(back: bool, slow: bool, amount: u16, start: u16, target: u16)

  /** What the program guarantees when it sets out: amounts come from a nonzero int16_t. */
  predicate RailValid(r: Rail) {
    && 0 < r.amount <= 0x8000 && (!r.slow ==> r.amount < 0x8000)
    && if r.back then r.target <= r.start else r.start <= r.target
  }

  /** A step in 16-bit arithmetic, clamped at the target. */
  function Moved(back: bool, c: u16, amount: u16, target: u16): u16 {
    if back then
      var n := Cast16(c - amount); if n < target then target else n
    else
      var n := Cast16(c + amount); if n > target then target else n
  }

  /** The wrapped step, or the target if that is further on. */
  lemma MovedIs(back: bool, c: u16, amount: u16, target: u16)
    ensures
      var n := (if back then c - amount else c + amount) % 0x1_0000;
      Moved(back, c, amount, target) == if (if back then n < target else n > target) then target else n
  {
    Cast16Modulo(c - amount);
    Cast16Modulo(c + amount);
  }

  /** The coordinate and the uint8_t frame counter. */
  datatype Car = Car(at: u16, frames: byte)

  function RailTick(r: Rail, c: Car): Car {
    if !r.slow then c.(at := Moved(r.back, c.at, r.amount, r.target))
    else
      var frames: byte := if c.frames == 255 then 0 else c.frames + 1;
      if frames == r.amount then Car(Moved(r.back, c.at, 1, r.target), 0) else c.(frames := frames)
  }

  function CarAfter(r: Rail, k: nat): Car {
    if k == 0 then Car(r.start, 0) else RailTick(r, CarAfter(r, k - 1))
  }

  /** How far `k` ticks carry, unclamped. */
  function Distance(r: Rail, k: nat): nat
    requires r.amount > 0
  {
    if r.slow then Tile(k, r.amount) else Times(k, r.amount)
  }

  function Gap(r: Rail): nat
    requires RailValid(r)
  {
    if r.back then r.start - r.target else r.target - r.start
  }

  /** The closed form: start moved towards the target and clamped there. */
  function ClosedForm(r: Rail, k: nat): u16
    requires RailValid(r)
  {
    if Distance(r, k) >= Gap(r) then r.target
    else if r.back then r.start - Distance(r, k)
    else r.start + Distance(r, k)
  }

  /** What a caller can check beforehand: a step from the target leaves the 16-bit range nowhere, and slow motion
      fits its 8-bit counter unless there is no way to go. */
  predicate Steady(r: Rail) {
    var step := if r.slow then 1 else r.amount;
    if r.slow && r.amount > 255 then r.start == r.target
    else if r.back then r.target >= step
    else r.target + step <= 0xFFFF
  }

  /** A step that does not wrap is a clamped step. */
  lemma MovedRight(r: Rail, c: u16, step: u16)
    requires if r.back then r.target >= step && c >= r.target else r.target + step <= 0xFFFF && c <= r.target
    ensures Moved(r.back, c, step, r.target) ==
            if r.back then (if c - r.target <= step then r.target else c - step)
            else (if r.target - c <= step then r.target else c + step)
  {
  }

  lemma {:induction false} QuickClosed(r: Rail, k: nat)
    requires RailValid(r) && Steady(r) && !r.slow
    ensures CarAfter(r, k).at == ClosedForm(r, k)
  {
    if k > 0 {
      QuickClosed(r, k - 1);
      MovedRight(r, CarAfter(r, k - 1).at, r.amount);
    }
  }

  /** The frame counter holds the ticks since the last step, steady or not. */
  lemma {:induction false} SlowFrames(r: Rail, k: nat)
    requires RailValid(r) && r.slow && r.amount <= 255
    ensures CarAfter(r, k).frames < r.amount
    ensures k == Times(Tile(k, r.amount), r.amount) + CarAfter(r, k).frames
  {
    if k > 0 {
      SlowFrames(r, k - 1);
      var t := Tile(k - 1, r.amount);
      TileOf(k, r.amount, t);
      TileOf(k, r.amount, t + 1);
    } else {
      assert Tile(0, r.amount) == 0;
    }
  }

  lemma {:induction false} SlowClosed(r: Rail, k: nat)
    requires RailValid(r) && Steady(r) && r.slow && r.amount <= 255
    ensures CarAfter(r, k).at == ClosedForm(r, k)
  {
    if k > 0 {
      SlowClosed(r, k - 1);
      SlowFrames(r, k - 1);
      var t := Tile(k - 1, r.amount);
      TileOf(k, r.amount, t);
      TileOf(k, r.amount, t + 1);
      MovedRight(r, CarAfter(r, k - 1).at, 1);
    }
  }

  /** Beyond 255 the counter never reaches the amount, and nothing moves. */
  lemma {:induction false} TooSlow(r: Rail, k: nat)
    requires RailValid(r) && r.slow && r.amount > 255
    ensures CarAfter(r, k).at == r.start
  {
    if k > 0 {
      TooSlow(r, k - 1);
    }
  }

  lemma ClosedWhenSteady(r: Rail, k: nat)
    requires RailValid(r) && Steady(r)
    ensures CarAfter(r, k).at == ClosedForm(r, k)
  {
    if !r.slow {
      QuickClosed(r, k);
    } else if r.amount <= 255 {
      SlowClosed(r, k);
    } else {
      TooSlow(r, k);
    }
  }

  lemma {:induction false} TimesAtLeast(n: nat, size: nat)
    requires size > 0
    ensures Times(n, size) >= n
  {
    if n > 0 {
      TimesAtLeast(n - 1, size);
    }
  }

  /** The first tick of the closed form at the target: after ceil(gap / amount) ticks, or gap * amount slow ones. */
  lemma Arrival(r: Rail, k: nat)
    requires RailValid(r)
    ensures ClosedForm(r, k) == r.target <==>
            if r.slow then k >= Times(Gap(r), r.amount) else Times(k, r.amount) >= Gap(r)
  {
    if r.slow {
      TileOf(k, r.amount, Gap(r));
    }
  }

  /** The closed form never turns back. */
  lemma Monotone(r: Rail, j: nat, k: nat)
    requires RailValid(r) && j <= k
    ensures if r.back then ClosedForm(r, k) <= ClosedForm(r, j) else ClosedForm(r, j) <= ClosedForm(r, k)
  {
    if r.slow {
      TileRange(j, r.amount);
      TileOf(k, r.amount, Tile(j, r.amount));
    } else {
      TimesMonotone(j, k, r.amount);
    }
  }

  /** When motion is not steady, some tick leaves the closed form. */
  lemma Unsteady(r: Rail) returns (k: nat)
    requires RailValid(r) && !Steady(r)
    ensures CarAfter(r, k).at != ClosedForm(r, k)
  {
    if !r.slow {
      k := QuickWraps(r);
    } else if r.amount > 255 {
      k := Times(Gap(r), r.amount);
      TooSlow(r, k);
      Arrival(r, k);
    } else {
      k := SlowWraps(r);
    }
  }

  /** From the target, a step too long wraps to somewhere else. */
  lemma MovedWraps(back: bool, target: u16, step: u16)
    requires 0 < step <= 0x8000 && if back then target < step else target + step > 0xFFFF
    ensures Moved(back, target, step, target) != target
  {
    var to := if back then target - step else target + step;
    assert Cast16(to) == if back then to + 0x1_0000 else to - 0x1_0000;
  }

  /** Having arrived, the next step wraps. */
  lemma QuickWraps(r: Rail) returns (k: nat)
    requires RailValid(r) && !Steady(r) && !r.slow
    ensures CarAfter(r, k).at != ClosedForm(r, k)
  {
    var arrived := Gap(r);
    TimesAtLeast(arrived, r.amount);
    TimesAtLeast(arrived + 1, r.amount);
    MovedWraps(r.back, r.target, r.amount);
    assert CarAfter(r, arrived + 1) == RailTick(r, CarAfter(r, arrived));
    assert ClosedForm(r, arrived) == r.target;
    assert ClosedForm(r, arrived + 1) == r.target;
    k := if CarAfter(r, arrived).at == r.target then arrived + 1 else arrived;
  }

  lemma SlowWraps(r: Rail) returns (k: nat)
    requires RailValid(r) && !Steady(r) && r.slow && r.amount <= 255
    ensures CarAfter(r, k).at != ClosedForm(r, k)
  {
    var gap := Gap(r);
    var next := Times(gap + 1, r.amount);
    assert next == Times(gap, r.amount) + r.amount;
    TileOf(next - 1, r.amount, gap);
    TileOf(next, r.amount, gap + 1);
    SlowFrames(r, next - 1);
    MovedWraps(r.back, r.target, 1);
    assert CarAfter(r, next) == RailTick(r, CarAfter(r, next - 1));
    assert ClosedForm(r, next - 1) == r.target;
    assert ClosedForm(r, next) == r.target;
    k := if CarAfter(r, next - 1).at == r.target then next else next - 1;
  }

  /** Motion closed form, exactly: the coordinate follows the closed form at every tick if and only if motion is
      steady. */
  lemma MotionExact(r: Rail)
    requires RailValid(r)
    ensures (forall k: nat :: CarAfter(r, k).at == ClosedForm(r, k)) <==> Steady(r)
  {
    if Steady(r) {
      forall k: nat ensures CarAfter(r, k).at == ClosedForm(r, k) {
        ClosedWhenSteady(r, k);
      }
    } else {
      var k := Unsteady(r);
    }
  }
}
