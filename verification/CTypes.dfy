/** The fixed-width C integers of the drivers, and little-endian byte strings. */
module CTypes {
  type byte = x: int | 0 <= x < 0x100
  type u16 = x: int | 0 <= x < 0x1_0000
  type u32 = x: int | 0 <= x < 0x1_0000_0000
  type u64 = x: int | 0 <= x < 0x1_0000_0000_0000_0000
  type i16 = x: int | -0x8000 <= x < 0x8000

  datatype Option<+T> = None | Some(value: T) {
    function GetOr(default: T): T {
      if Some? then value else default
    }
  }

  /** Conversion of an int to int16_t: turns of 2^16 until it fits. */
  function Wrap16(x: int): i16
    decreases if x < 0 then -2 * x - 1 else 2 * x
  {
    if x < -0x8000 then Wrap16(x + 0x1_0000)
    else if x >= 0x8000 then Wrap16(x - 0x1_0000)
    else x
  }

  /** The representative of `x` modulo 2^16 in the signed range. */
  lemma {:induction false} WrapResidue(x: int)
    ensures (Wrap16(x) - x) % 0x1_0000 == 0
    decreases if x < 0 then -2 * x - 1 else 2 * x
  {
    if x < -0x8000 {
      WrapResidue(x + 0x1_0000);
    } else if x >= 0x8000 {
      WrapResidue(x - 0x1_0000);
    }
  }

  /** Wrapping after every addition is wrapping once at the end. */
  lemma {:induction false} WrapAdd(x: int, d: int)
    ensures Wrap16(Wrap16(x) + d) == Wrap16(x + d)
    decreases if x < 0 then -2 * x - 1 else 2 * x
  {
    if x < -0x8000 {
      WrapAdd(x + 0x1_0000, d);
      WrapPeriod(x + d);
    } else if x >= 0x8000 {
      WrapAdd(x - 0x1_0000, d);
      WrapPeriod(x - 0x1_0000 + d);
    }
  }

  lemma WrapPeriod(x: int)
    ensures Wrap16(x + 0x1_0000) == Wrap16(x)
  {
  }

  /** Conversion of an int to uint16_t: turns of 2^16 until it fits. */
  function Cast16(x: int): u16
    decreases if x < 0 then 0x1_0000 - x else x
  {
    if x < 0 then Cast16(x + 0x1_0000)
    else if x >= 0x1_0000 then Cast16(x - 0x1_0000)
    else x
  }

  lemma {:induction false} Cast16Modulo(x: int)
    ensures Cast16(x) == x % 0x1_0000
    decreases if x < 0 then 0x1_0000 - x else x
  {
    if x < 0 {
      Cast16Modulo(x + 0x1_0000);
      assert (x + 0x1_0000) % 0x1_0000 == x % 0x1_0000;
    } else if x >= 0x1_0000 {
      Cast16Modulo(x - 0x1_0000);
      assert (x - 0x1_0000) % 0x1_0000 == x % 0x1_0000;
    }
  }

  /** Conversion of a natural number to uint32_t. */
  function Cast32(x: nat): u32 {
    if x >= 0x1_0000_0000 then Cast32(x - 0x1_0000_0000) else x
  }

  lemma {:induction false} Cast32Modulo(x: nat)
    ensures Cast32(x) == x % 0x1_0000_0000
  {
    if x >= 0x1_0000_0000 {
      Cast32Modulo(x - 0x1_0000_0000);
    }
  }

  function Abs(x: int): nat {
    if x < 0 then -x else x
  }

  /** n * size, by repeated addition. */
  function Times(n: nat, size: nat): nat {
    if n == 0 then 0 else Times(n - 1, size) + size
  }

  lemma {:induction false} TimesIs(n: nat, size: nat)
    ensures Times(n, size) == n * size
  {
    if n > 0 {
      TimesIs(n - 1, size);
    }
  }

  lemma {:induction false} TimesMonotone(n: nat, k: nat, size: nat)
    requires n <= k
    ensures Times(n, size) <= Times(k, size)
    decreases k
  {
    if n < k {
      TimesMonotone(n, k - 1, size);
    }
  }

  /** p / size: the tile coordinate `p` lies in, and how many whole tiles fit into `p`. */
  function Tile(p: nat, size: nat): nat
    requires size > 0
  {
    if p < size then 0 else 1 + Tile(p - size, size)
  }

  lemma {:induction false} TileRange(p: nat, size: nat)
    requires size > 0
    ensures Times(Tile(p, size), size) <= p < Times(Tile(p, size), size) + size
  {
    if p >= size {
      TileRange(p - size, size);
    }
  }

  lemma TileIs(p: nat, size: nat)
    requires size > 0
    ensures Tile(p, size) == p / size
  {
    TileRange(p, size);
    TimesIs(Tile(p, size), size);
    DivModUnique(p, size, Tile(p, size), p - Times(Tile(p, size), size));
  }

  /** Between c * size and (c + 1) * size lies tile c. */
  lemma TileOf(p: nat, size: nat, c: nat)
    requires size > 0
    ensures Tile(p, size) == c <==> Times(c, size) <= p < Times(c, size) + size
    ensures Tile(p, size) < c <==> p < Times(c, size)
  {
    TileRange(p, size);
    var t := Tile(p, size);
    if t < c {
      TimesMonotone(t + 1, c, size);
    } else if c < t {
      TimesMonotone(c + 1, t, size);
    }
  }

  /** Bit `n` of `x`, as tested by x & (1 << n). */
  predicate Bit(x: nat, n: nat) {
    if n == 0 then x % 2 == 1 else Bit(x / 2, n - 1)
  }

  /** The number whose bits are `cs`, lowest first. */
  function FromBits(cs: seq<bool>): (x: nat)
    ensures x < Pow2(|cs|)
  {
    if cs == [] then 0 else (if cs[0] then 1 else 0) + 2 * FromBits(cs[1..])
  }

  function ToBits(x: nat, n: nat): (cs: seq<bool>)
    ensures |cs| == n
  {
    if n == 0 then [] else [x % 2 == 1] + ToBits(x / 2, n - 1)
  }

  lemma {:induction false} BitFromBits(cs: seq<bool>, n: nat)
    ensures Bit(FromBits(cs), n) == (n < |cs| && cs[n])
  {
    if cs == [] {
      BitZero(n);
    } else if n > 0 {
      BitFromBits(cs[1..], n - 1);
    }
  }

  lemma {:induction false} BitZero(n: nat)
    ensures !Bit(0, n)
  {
    if n > 0 {
      BitZero(n - 1);
    }
  }

  lemma {:induction false} BitToBits(x: nat, n: nat, i: nat)
    requires i < n
    ensures ToBits(x, n)[i] == Bit(x, i)
  {
    if i > 0 {
      BitToBits(x / 2, n - 1, i - 1);
    }
  }

  lemma {:induction false} FromBitsToBits(x: nat, n: nat)
    requires x < Pow2(n)
    ensures FromBits(ToBits(x, n)) == x
  {
    if n > 0 {
      FromBitsToBits(x / 2, n - 1);
      assert ToBits(x, n)[1..] == ToBits(x / 2, n - 1);
    }
  }

  function Pow2(n: nat): (r: nat)
    ensures r >= 1
  {
    if n == 0 then 1 else 2 * Pow2(n - 1)
  }

  function Pow256(n: nat): (r: nat)
    ensures r >= 1
  {
    if n == 0 then 1 else 256 * Pow256(n - 1)
  }

  /** The `n` low bytes of `v`, least significant first, as they lie in memory. */
  function ToLE(v: nat, n: nat): (s: seq<byte>)
    ensures |s| == n
  {
    if n == 0 then [] else [v % 256] + ToLE(v / 256, n - 1)
  }

  function FromLE(s: seq<byte>): nat {
    if s == [] then 0 else s[0] + 256 * FromLE(s[1..])
  }

  /** Byte `k` has the weight 256^k. */
  lemma {:induction false} ToLEAt(v: nat, n: nat, k: nat)
    requires k < n
    ensures ToLE(v, n)[k] == (v / Pow256(k)) % 256
  {
    if k > 0 {
      ToLEAt(v / 256, n - 1, k - 1);
      DivTwice(v, 256, Pow256(k - 1));
    } else {
      assert Pow256(0) == 1 && v / 1 == v;
    }
  }

  lemma DivTwice(v: nat, a: nat, b: nat)
    requires a > 0 && b > 0 && a * b > 0
    ensures (v / a) / b == v / (a * b)
  {
    var q, r := (v / a) / b, (v / a) % b;
    assert v == a * (v / a) + v % a && v / a == b * q + r;
    assert a * (v / a) == (a * b) * q + a * r by {
      assert a * (b * q + r) == (a * b) * q + a * r;
    }
    MulMonotone(a, r + 1, b);
    assert a * r + v % a < a * b;
    DivModUnique(v, a * b, q, a * r + v % a);
  }

  /** Bit `n` has the weight 2^n. */
  lemma {:induction false} BitAt(x: nat, n: nat)
    ensures Bit(x, n) <==> (x / Pow2(n)) % 2 == 1
  {
    if n > 0 {
      BitAt(x / 2, n - 1);
      DivTwice(x, 2, Pow2(n - 1));
    } else {
      assert Pow2(0) == 1 && x / 1 == x;
    }
  }

  lemma ByteBits(b: byte)
    ensures (Bit(b, 0) <==> b % 2 == 1) && (Bit(b, 1) <==> (b / 2) % 2 == 1) && (Bit(b, 2) <==> (b / 4) % 2 == 1)
    ensures (Bit(b, 3) <==> (b / 8) % 2 == 1) && (Bit(b, 4) <==> (b / 16) % 2 == 1)
    ensures (Bit(b, 5) <==> (b / 32) % 2 == 1) && (Bit(b, 6) <==> (b / 64) % 2 == 1)
    ensures Bit(b, 7) <==> b >= 128
    ensures b / 128 == if b >= 128 then 1 else 0
  {
    assert Pow2(3) == 8 && Pow2(6) == 64 && Pow2(7) == 128;
    BitAt(b, 0);
    BitAt(b, 1);
    BitAt(b, 2);
    BitAt(b, 3);
    BitAt(b, 4);
    BitAt(b, 5);
    BitAt(b, 6);
    BitAt(b, 7);
  }

  /** Reading back `n` bytes of `v` gives `v` without what does not fit in `n` bytes. */
  lemma {:induction false} FromLEToLE(v: nat, n: nat)
    ensures FromLE(ToLE(v, n)) == v % Pow256(n)
  {
    if n > 0 {
      FromLEToLE(v / 256, n - 1);
      assert ToLE(v, n)[1..] == ToLE(v / 256, n - 1);
      ModSplit(v, Pow256(n - 1));
    }
  }

  lemma ModSplit(v: nat, m: nat)
    requires m >= 1
    ensures v % (256 * m) == v % 256 + 256 * ((v / 256) % m)
  {
    var q, r := (v / 256) / m, (v / 256) % m;
    assert v == 256 * (m * q + r) + v % 256;
    assert v == (256 * m) * q + (256 * r + v % 256);
    assert 256 * r + v % 256 < 256 * m;
    DivModUnique(v, 256 * m, q, 256 * r + v % 256);
  }

  lemma DivModUnique(v: int, d: int, q: int, r: int)
    requires d > 0 && 0 <= r < d && v == d * q + r
    ensures v / d == q && v % d == r
  {
    if v / d > q {
      MulMonotone(d, q + 1, v / d);
    } else if v / d < q {
      MulMonotone(d, v / d + 1, q);
    }
  }

  lemma MulMonotone(d: nat, a: int, b: int)
    requires a <= b
    ensures d * a <= d * b
  {
    assert d * (b - a) >= 0;
  }

  lemma {:induction false} FromLEBound(s: seq<byte>)
    ensures FromLE(s) < Pow256(|s|)
  {
    if s != [] {
      FromLEBound(s[1..]);
    }
  }
}
