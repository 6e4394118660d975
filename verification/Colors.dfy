/** Colours of a video mode: masking, packing and unpacking channels, stepping through a pattern
    (lab5 graphics.c). */
module Colors {
  import opened CTypes
  import opened Screen

  /** Size and lowest bit of a channel. */
  datatype Field = Field(size: nat, position: nat)

  datatype Channels = Channels(red: Field, green: Field, blue: Field)

  /** x | y. */
  function Or(x: nat, y: nat): nat
    decreases x + y
  {
    if x == 0 && y == 0 then 0
    else (if x % 2 == 1 || y % 2 == 1 then 1 else 0) + 2 * Or(x / 2, y / 2)
  }

  /** x >> p. */
  function ShiftRight(x: nat, p: nat): nat {
    if p == 0 then x else ShiftRight(x / 2, p - 1)
  }

  /** x << p. */
  function ShiftLeft(x: nat, p: nat): nat {
    if p == 0 then x else 2 * ShiftLeft(x, p - 1)
  }

  /** x & ((1 << s) - 1). */
  function LowBits(x: nat, s: nat): nat {
    if s == 0 then 0 else x % 2 + 2 * LowBits(x / 2, s - 1)
  }

  function Unpack(x: u32, f: Field): nat {
    LowBits(ShiftRight(x, f.position), f.size)
  }

  /** A channel value moved to its field, in 32 bits. */
  function Place(x: u32, f: Field): u32 {
    Cast32(ShiftLeft(x, f.position))
  }

  function DirectMode(ch: Channels, red: u32, green: u32, blue: u32): nat {
    Or(Or(Place(red, ch.red), Place(green, ch.green)), Place(blue, ch.blue))
  }

  function NormalizeColor(bitsPerPixel: byte, color: u32): nat {
    if bitsPerPixel == 32 then color else LowBits(color, bitsPerPixel)
  }

  // ----- bits of the operations

  lemma {:induction false} BitOr(x: nat, y: nat, n: nat)
    ensures Bit(Or(x, y), n) == (Bit(x, n) || Bit(y, n))
    decreases n
  {
    if x == 0 && y == 0 {
      BitZero(n);
    } else if n > 0 {
      BitOr(x / 2, y / 2, n - 1);
    }
  }

  lemma {:induction false} BitShiftLeft(x: nat, p: nat, n: nat)
    ensures Bit(ShiftLeft(x, p), n) == (n >= p && Bit(x, n - p))
    decreases p
  {
    if p > 0 && n > 0 {
      BitShiftLeft(x, p - 1, n - 1);
    }
  }

  lemma {:induction false} BitShiftRight(x: nat, p: nat, n: nat)
    ensures Bit(ShiftRight(x, p), n) == Bit(x, n + p)
    decreases p
  {
    if p > 0 {
      BitShiftRight(x / 2, p - 1, n);
    }
  }

  lemma {:induction false} BitLowBits(x: nat, s: nat, n: nat)
    ensures Bit(LowBits(x, s), n) == (n < s && Bit(x, n))
    decreases s
  {
    if s == 0 {
      BitZero(n);
    } else if n > 0 {
      BitLowBits(x / 2, s - 1, n - 1);
    }
  }

  lemma {:induction false} LowBitsBound(x: nat, s: nat)
    ensures LowBits(x, s) < Pow2(s) && LowBits(x, s) <= x
  {
    if s > 0 {
      LowBitsBound(x / 2, s - 1);
    }
  }

  /** Masking is taking the remainder modulo 2^s. */
  lemma {:induction false} LowBitsModulo(x: nat, s: nat)
    ensures LowBits(x, s) == x % Pow2(s)
  {
    if s > 0 {
      LowBitsModulo(x / 2, s - 1);
      HalfRemainder(x, Pow2(s - 1));
    }
  }

  /** Halving a remainder modulo 2m. */
  lemma HalfRemainder(x: nat, m: nat)
    requires m > 0
    ensures x % (2 * m) == 2 * ((x / 2) % m) + x % 2
  {
    var q, r := (x / 2) / m, (x / 2) % m;
    assert x == (2 * m) * q + (2 * r + x % 2) by {
      assert x / 2 == m * q + r;
      assert 2 * (m * q) == (2 * m) * q;
    }
    DivModUnique(x, 2 * m, q, 2 * r + x % 2);
  }

  /** A number below 2^s has no bits from s on. */
  lemma {:induction false} HighBits(x: nat, s: nat, n: nat)
    requires x < Pow2(s) && s <= n
    ensures !Bit(x, n)
    decreases s
  {
    if s == 0 {
      BitZero(n);
    } else {
      HighBits(x / 2, s - 1, n - 1);
    }
  }

  /** Numbers below 2^s with the same bits are equal. */
  lemma {:induction false} SameBits(x: nat, y: nat, s: nat)
    requires x < Pow2(s) && y < Pow2(s) && forall n | 0 <= n < s :: Bit(x, n) == Bit(y, n)
    ensures x == y
    decreases s
  {
    if s > 0 {
      assert Bit(x, 0) == Bit(y, 0);
      forall n | 0 <= n < s - 1 ensures Bit(x / 2, n) == Bit(y / 2, n) {
        assert Bit(x, n + 1) == Bit(y, n + 1);
      }
      SameBits(x / 2, y / 2, s - 1);
    }
  }

  lemma {:induction false} Pow2Monotone(a: nat, b: nat)
    requires a <= b
    ensures Pow2(a) <= Pow2(b)
  {
    if a < b {
      Pow2Monotone(a, b - 1);
    }
  }

  lemma Pow2Plus8(n: nat)
    ensures Pow2(n + 8) == 256 * Pow2(n)
  {
    assert Pow2(n + 2) == 2 * Pow2(n + 1);
    assert Pow2(n + 4) == 2 * Pow2(n + 3);
    assert Pow2(n + 6) == 2 * Pow2(n + 5);
    assert Pow2(n + 8) == 2 * Pow2(n + 7);
  }

  lemma Pow2Of32()
    ensures Pow2(32) == 0x1_0000_0000
  {
    Pow2Plus8(0);
    Pow2Plus8(8);
    Pow2Plus8(16);
    Pow2Plus8(24);
  }

  lemma {:induction false} ShiftLeftBound(x: nat, s: nat, p: nat)
    requires x < Pow2(s)
    ensures ShiftLeft(x, p) < Pow2(s + p)
  {
    if p > 0 {
      ShiftLeftBound(x, s, p - 1);
    }
  }

  /** A channel value moved to its field loses nothing in 32 bits. */
  lemma PlaceFits(x: u32, f: Field)
    requires x < Pow2(f.size) && f.position + f.size <= 32
    ensures Place(x, f) == ShiftLeft(x, f.position)
  {
    Pow2Of32();
    ShiftLeftBound(x, f.size, f.position);
    Pow2Monotone(f.size + f.position, 32);
  }

  predicate Disjoint(f: Field, g: Field) {
    f.position + f.size <= g.position || g.position + g.size <= f.position
  }

  /** The fields of a direct-colour mode lie in 32 bits and do not overlap. */
  predicate WellPlaced(ch: Channels) {
    && ch.red.position + ch.red.size <= 32 && ch.green.position + ch.green.size <= 32
    && ch.blue.position + ch.blue.size <= 32
    && Disjoint(ch.red, ch.green) && Disjoint(ch.red, ch.blue) && Disjoint(ch.green, ch.blue)
  }

  predicate InRange(ch: Channels, red: u32, green: u32, blue: u32) {
    red < Pow2(ch.red.size) && green < Pow2(ch.green.size) && blue < Pow2(ch.blue.size)
  }

  /** A field shows its own value and nothing of a value placed in a disjoint field. */
  lemma FieldBit(x: u32, f: Field, g: Field, n: nat)
    requires x < Pow2(f.size) && f.position + f.size <= 32 && n < g.size
    requires f == g || Disjoint(f, g)
    ensures Bit(Place(x, f), n + g.position) == (f == g && Bit(x, n))
  {
    PlaceFits(x, f);
    BitShiftLeft(x, f.position, n + g.position);
    if f != g && n + g.position >= f.position {
      HighBits(x, f.size, n + g.position - f.position);
    }
  }

  lemma UnpackBit(x: u32, f: Field, n: nat)
    ensures Bit(Unpack(x, f), n) == (n < f.size && Bit(x, n + f.position))
  {
    BitLowBits(ShiftRight(x, f.position), f.size, n);
    BitShiftRight(x, f.position, n);
  }

  lemma {:induction false} OrBound(x: nat, y: nat, s: nat)
    requires x < Pow2(s) && y < Pow2(s)
    ensures Or(x, y) < Pow2(s)
    decreases s
  {
    if s > 0 && (x != 0 || y != 0) {
      OrBound(x / 2, y / 2, s - 1);
    }
  }

  lemma DirectFits(ch: Channels, red: u32, green: u32, blue: u32)
    ensures DirectMode(ch, red, green, blue) < 0x1_0000_0000
  {
    Pow2Of32();
    var r, g := Place(red, ch.red), Place(green, ch.green);
    OrBound(r, g, 32);
    OrBound(Or(r, g), Place(blue, ch.blue), 32);
  }

  /** Bit `n` of field `f` of a packed colour, when `f` is one of the three. */
  lemma DirectBit(ch: Channels, red: u32, green: u32, blue: u32, f: Field, n: nat)
    requires WellPlaced(ch) && InRange(ch, red, green, blue) && n < f.size
    requires f == ch.red || f == ch.green || f == ch.blue
    ensures Bit(DirectMode(ch, red, green, blue), n + f.position) ==
            ((f == ch.red && Bit(red, n)) || (f == ch.green && Bit(green, n)) || (f == ch.blue && Bit(blue, n)))
  {
    FieldBit(red, ch.red, f, n);
    FieldBit(green, ch.green, f, n);
    FieldBit(blue, ch.blue, f, n);
    var r, g, b := Place(red, ch.red), Place(green, ch.green), Place(blue, ch.blue);
    BitOr(r, g, n + f.position);
    BitOr(Or(r, g), b, n + f.position);
  }

  /** Colour packing: every channel of a packed colour reads back. */
  lemma PackUnpack(ch: Channels, red: u32, green: u32, blue: u32)
    requires WellPlaced(ch) && InRange(ch, red, green, blue)
    ensures
      var color := DirectMode(ch, red, green, blue);
      && color < 0x1_0000_0000
      && Unpack(color, ch.red) == red && Unpack(color, ch.green) == green && Unpack(color, ch.blue) == blue
  {
    DirectFits(ch, red, green, blue);
    UnpackOne(ch, red, green, blue, ch.red, red);
    UnpackOne(ch, red, green, blue, ch.green, green);
    UnpackOne(ch, red, green, blue, ch.blue, blue);
  }

  lemma UnpackOne(ch: Channels, red: u32, green: u32, blue: u32, f: Field, value: u32)
    requires WellPlaced(ch) && InRange(ch, red, green, blue)
    requires (f == ch.red && value == red) || (f == ch.green && value == green) || (f == ch.blue && value == blue)
    requires DirectMode(ch, red, green, blue) < 0x1_0000_0000
    ensures Unpack(DirectMode(ch, red, green, blue), f) == value
  {
    var color := DirectMode(ch, red, green, blue);
    forall n | 0 <= n < f.size ensures Bit(Unpack(color, f), n) == Bit(value, n) {
      UnpackBit(color, f, n);
      DirectBit(ch, red, green, blue, f, n);
    }
    LowBitsBound(ShiftRight(color, f.position), f.size);
    SameBits(Unpack(color, f), value, f.size);
  }

  // ----- the same in numbers

  lemma {:induction false} ShiftRightIs(x: nat, p: nat)
    ensures ShiftRight(x, p) == x / Pow2(p)
  {
    if p > 0 {
      ShiftRightIs(x / 2, p - 1);
      DivTwice(x, 2, Pow2(p - 1));
    }
  }

  lemma {:induction false} ShiftLeftIs(x: nat, p: nat)
    ensures ShiftLeft(x, p) == x * Pow2(p)
  {
    if p > 0 {
      ShiftLeftIs(x, p - 1);
      assert x * (2 * Pow2(p - 1)) == 2 * (x * Pow2(p - 1));
    }
  }

  /** Unpacking divides by the weight of the field and takes the remainder modulo its range. */
  lemma UnpackIs(x: u32, f: Field)
    ensures Unpack(x, f) == (x / Pow2(f.position)) % Pow2(f.size)
  {
    ShiftRightIs(x, f.position);
    LowBitsModulo(ShiftRight(x, f.position), f.size);
  }

  /** Numbers without a common bit are combined by adding them. */
  lemma {:induction false} OrIsSum(x: nat, y: nat)
    requires forall n: nat :: !(Bit(x, n) && Bit(y, n))
    ensures Or(x, y) == x + y
    decreases x + y
  {
    if x != 0 || y != 0 {
      forall n: nat ensures !(Bit(x / 2, n) && Bit(y / 2, n)) {
        assert !(Bit(x, n + 1) && Bit(y, n + 1));
      }
      assert !(Bit(x, 0) && Bit(y, 0));
      OrIsSum(x / 2, y / 2);
    }
  }

  /** A placed value has no bit outside its field. */
  lemma PlacedBit(x: u32, f: Field, n: nat)
    requires x < Pow2(f.size) && f.position + f.size <= 32 && Bit(Place(x, f), n)
    ensures f.position <= n < f.position + f.size
  {
    PlaceFits(x, f);
    BitShiftLeft(x, f.position, n);
    if n >= f.position + f.size {
      HighBits(x, f.size, n - f.position);
    }
  }

  /** A packed colour is the sum of its channels, each with the weight of its field. */
  lemma DirectIs(ch: Channels, red: u32, green: u32, blue: u32)
    requires WellPlaced(ch) && InRange(ch, red, green, blue)
    ensures DirectMode(ch, red, green, blue) ==
            red * Pow2(ch.red.position) + green * Pow2(ch.green.position) + blue * Pow2(ch.blue.position)
  {
    var r, g, b := Place(red, ch.red), Place(green, ch.green), Place(blue, ch.blue);
    forall n: nat ensures !(Bit(r, n) && Bit(g, n)) && !(Bit(Or(r, g), n) && Bit(b, n)) {
      BitOr(r, g, n);
      PlacedBits(ch, red, green, blue, n);
    }
    OrIsSum(r, g);
    OrIsSum(Or(r, g), b);
    PlaceIs(red, ch.red);
    PlaceIs(green, ch.green);
    PlaceIs(blue, ch.blue);
  }

  lemma PlacedBits(ch: Channels, red: u32, green: u32, blue: u32, n: nat)
    requires WellPlaced(ch) && InRange(ch, red, green, blue)
    ensures !(Bit(Place(red, ch.red), n) && Bit(Place(green, ch.green), n))
    ensures !(Bit(Place(red, ch.red), n) && Bit(Place(blue, ch.blue), n))
    ensures !(Bit(Place(green, ch.green), n) && Bit(Place(blue, ch.blue), n))
  {
    if Bit(Place(red, ch.red), n) { PlacedBit(red, ch.red, n); }
    if Bit(Place(green, ch.green), n) { PlacedBit(green, ch.green, n); }
    if Bit(Place(blue, ch.blue), n) { PlacedBit(blue, ch.blue, n); }
  }

  lemma PlaceIs(x: u32, f: Field)
    requires x < Pow2(f.size) && f.position + f.size <= 32
    ensures Place(x, f) == x * Pow2(f.position)
  {
    PlaceFits(x, f);
    ShiftLeftIs(x, f.position);
  }

  /** A normalized colour is the remainder modulo the colours of the mode. */
  lemma NormalizeIs(bitsPerPixel: byte, color: u32)
    requires bitsPerPixel <= 32
    ensures NormalizeColor(bitsPerPixel, color) == color % Pow2(bitsPerPixel)
  {
    if bitsPerPixel < 32 {
      LowBitsModulo(color, bitsPerPixel);
    } else {
      Remainder32(color);
    }
  }

  lemma Remainder32(color: u32)
    ensures color % Pow2(32) == color
  {
    Pow2Of32();
    DivModUnique(color, Pow2(32), 0, color);
  }

  lemma BitCast32(x: nat, n: nat)
    ensures Bit(Cast32(x), n) <==> n < 32 && Bit(x, n)
  {
    if n < 32 {
      LowBitsCast(x, 32);
      BitLowBits(x, 32, n);
      BitLowBits(Cast32(x), 32, n);
    } else {
      Pow2Of32();
      HighBits(Cast32(x), 32, n);
    }
  }

  /** For any fields whatever, the bits of a packed colour are the bits of its channels, moved up and cut at 32. */
  lemma DirectBits(ch: Channels, red: u32, green: u32, blue: u32, n: nat)
    ensures Bit(DirectMode(ch, red, green, blue), n) <==>
      n < 32 &&
      ((n >= ch.red.position && Bit(red, n - ch.red.position)) ||
       (n >= ch.green.position && Bit(green, n - ch.green.position)) ||
       (n >= ch.blue.position && Bit(blue, n - ch.blue.position)))
  {
    var r, g, b := Place(red, ch.red), Place(green, ch.green), Place(blue, ch.blue);
    BitOr(r, g, n);
    BitOr(Or(r, g), b, n);
    PlaceBit(red, ch.red, n);
    PlaceBit(green, ch.green, n);
    PlaceBit(blue, ch.blue, n);
  }

  lemma PlaceBit(x: u32, f: Field, n: nat)
    ensures Bit(Place(x, f), n) <==> n < 32 && n >= f.position && Bit(x, n - f.position)
  {
    BitCast32(ShiftLeft(x, f.position), n);
    BitShiftLeft(x, f.position, n);
  }

  /** A stepped colour is the base and `k` steps, modulo its range. */
  lemma SteppedIs(base: u32, k: nat, step: byte, size: nat)
    requires size <= 32
    ensures Stepped(base, k, step, size) == (base + k * step) % Pow2(size)
  {
    LowBitsCast(base + k * step, size);
    LowBitsModulo(base + k * step, size);
  }

  // ----- the colours of a pattern

  /** (base + k * step) masked to `size` bits, in 32-bit arithmetic. */
  function Stepped(base: u32, k: nat, step: byte, size: nat): (c: u32) {
    LowBitsBound(Cast32(base + k * step), size);
    LowBits(Cast32(base + k * step), size)
  }

  /** One channel of the tile `k` steps away from the first: Red, Green and Blue. */
  function ChannelStep(first: u32, f: Field, k: nat, step: byte): u32 {
    LowBitsBound(ShiftRight(first, f.position), f.size);
    ShiftRightBound(first, f.position);
    Stepped(Unpack(first, f), k, step, f.size)
  }

  lemma {:induction false} ShiftRightBound(x: nat, p: nat)
    ensures ShiftRight(x, p) <= x
  {
    if p > 0 {
      ShiftRightBound(x / 2, p - 1);
    }
  }

  /** Multiples of 2^s do not show in the low s bits. */
  lemma {:induction false} LowBitsAddMultiple(x: nat, s: nat, k: nat)
    ensures LowBits(x + ShiftLeft(k, s), s) == LowBits(x, s)
  {
    if s > 0 {
      var z := ShiftLeft(k, s - 1);
      assert (x + 2 * z) % 2 == x % 2 && (x + 2 * z) / 2 == x / 2 + z;
      LowBitsAddMultiple(x / 2, s - 1, k);
    }
  }

  lemma {:induction false} ShiftPow2(a: nat, s: nat)
    ensures ShiftLeft(Pow2(a), s) == Pow2(a + s)
  {
    if s > 0 {
      ShiftPow2(a, s - 1);
    }
  }

  lemma {:induction false} LowBitsCast(x: nat, s: nat)
    requires s <= 32
    ensures LowBits(Cast32(x), s) == LowBits(x, s)
  {
    if x >= 0x1_0000_0000 {
      LowBitsCast(x - 0x1_0000_0000, s);
      Pow2Of32();
      ShiftPow2(32 - s, s);
      LowBitsAddMultiple(x - 0x1_0000_0000, s, Pow2(32 - s));
    }
  }

  lemma {:induction false} LowBitsAdd(x: nat, y: nat, s: nat)
    ensures LowBits(LowBits(x, s) + y, s) == LowBits(x + y, s)
    decreases s
  {
    if s > 0 {
      var low, carry := LowBits(x / 2, s - 1), (x % 2 + y) / 2;
      assert (x % 2 + 2 * low + y) / 2 == low + carry && (x % 2 + 2 * low + y) % 2 == (x + y) % 2;
      assert (x + y) / 2 == x / 2 + carry;
      LowBitsAdd(x / 2, carry, s - 1);
    }
  }

  lemma NextMultiple(k: nat, step: nat)
    ensures (k + 1) * step == k * step + step
  {
  }

  /** Stepping starts at the low bits of the base and advances by `step` modulo 2^size; the 32-bit arithmetic
      never shows. */
  lemma SteppedAdvances(base: u32, k: nat, step: byte, size: nat)
    requires size <= 32
    ensures Stepped(base, 0, step, size) == LowBits(base, size)
    ensures Stepped(base, k + 1, step, size) == LowBits(Stepped(base, k, step, size) + step, size)
  {
    assert 0 * step == 0;
    NextMultiple(k, step);
    LowBitsCast(base, size);
    SumAdvances(base, k * step, step, size);
  }

  lemma SumAdvances(base: u32, now: nat, step: byte, size: nat)
    requires size <= 32
    ensures LowBits(Cast32(base + (now + step)), size) == LowBits(LowBits(Cast32(base + now), size) + step, size)
  {
    LowBitsCast(base + now, size);
    LowBitsCast(base + (now + step), size);
    LowBitsAdd(base + now, step, size);
    assert base + now + step == base + (now + step);
  }

  lemma SteppedBound(base: u32, k: nat, step: byte, size: nat)
    ensures Stepped(base, k, step, size) < Pow2(size)
  {
    LowBitsBound(Cast32(base + k * step), size);
  }

  lemma UnpackBound(first: u32, f: Field)
    ensures Unpack(first, f) < 0x1_0000_0000 && LowBits(Unpack(first, f), f.size) == Unpack(first, f)
  {
    LowBitsBound(ShiftRight(first, f.position), f.size);
    ShiftRightBound(first, f.position);
    LowBitsTwice(ShiftRight(first, f.position), f.size);
  }

  /** The same for a channel: masking is the remainder modulo 2^size. */
  lemma ChannelNext(first: u32, f: Field, k: nat, step: byte)
    requires f.size <= 32
    ensures ChannelStep(first, f, 0, step) == Unpack(first, f)
    ensures ChannelStep(first, f, k + 1, step) == LowBits(ChannelStep(first, f, k, step) + step, f.size)
    ensures ChannelStep(first, f, k, step) < Pow2(f.size)
  {
    UnpackBound(first, f);
    var base: u32 := Unpack(first, f);
    SteppedAdvances(base, k, step, f.size);
    SteppedBound(base, k, step, f.size);
  }

  /** A channel starts at its value in the first colour and advances by `step` modulo 2^size with every
      tile. */
  lemma ChannelAdvances(first: u32, f: Field, k: nat, step: byte)
    requires f.size <= 32
    ensures ChannelStep(first, f, 0, step) == Unpack(first, f)
    ensures ChannelStep(first, f, k + 1, step) == (ChannelStep(first, f, k, step) + step) % Pow2(f.size)
  {
    ChannelNext(first, f, k, step);
    LowBitsModulo(ChannelStep(first, f, k, step) + step, f.size);
  }

  lemma LowBitsTwice(x: nat, s: nat)
    ensures LowBits(LowBits(x, s), s) == LowBits(x, s)
  {
    LowBitsAdd(x, 0, s);
  }

  // ----- what reaches the screen

  lemma {:induction false} Pow256Is(k: nat)
    ensures Pow256(k) == Pow2(8 * k)
  {
    if k > 0 {
      Pow256Is(k - 1);
      Pow2Plus8(8 * (k - 1));
    }
  }

  /** A normalized colour has at most the bits of a pixel, and reads back exactly from the bytes drawn. */
  lemma NormalizedReadsBack(m: Mode, color: u32)
    requires 1 <= m.bitsPerPixel <= 32
    ensures NormalizeColor(m.bitsPerPixel, color) < Pow2(m.bitsPerPixel)
    ensures FromLE(ToLE(NormalizeColor(m.bitsPerPixel, color), BytesPerPixel(m))) == NormalizeColor(m.bitsPerPixel, color)
  {
    var n, c := BytesPerPixel(m), NormalizeColor(m.bitsPerPixel, color);
    Pow2Of32();
    LowBitsBound(color, m.bitsPerPixel);
    Pow256Is(n);
    Pow2Monotone(m.bitsPerPixel, 8 * n);
    FromLEToLE(c, n);
    DivModUnique(c, Pow256(n), 0, c);
  }
}
