/**
 * Machine words as bounded integers: the fixed-width types, little-endian
 * byte conversion, and the bitwise and shift operators of 64-bit unsigned
 * arithmetic, defined bit by bit on naturals.
 */
module Bits {
  const TWO_64: int := 0x1_0000_0000_0000_0000

  type u8 = x: int | 0 <= x < 0x100
  type u16 = x: int | 0 <= x < 0x1_0000
  type u32 = x: int | 0 <= x < 0x1_0000_0000
  type u64 = x: int | 0 <= x < 0x1_0000_0000_0000_0000
  type i8 = x: int | -0x80 <= x < 0x80

  function Pow2(n: nat): (r: nat)
    ensures r >= 1
  {
    if n == 0 then 1 else 2 * Pow2(n - 1)
  }

  function Pow256(n: nat): (r: nat)
    ensures r >= 1
  {
    if n == 0 then 1 else 0x100 * Pow256(n - 1)
  }

  // ---- Division ----

  lemma MulAtLeast(x: int, d: int)
    requires x >= 1 && d > 0
    ensures x * d >= d
  {
    assert x * d == d + (x - 1) * d;
  }

  /** Quotient and remainder are determined by `a == q * d + r` with `0 <= r < d`. */
  lemma DivModUnique(a: int, d: int, q: int, r: int)
    requires d > 0 && a == q * d + r && 0 <= r < d
    ensures a / d == q && a % d == r
  {
    var q', r' := a / d, a % d;
    assert a == q' * d + r';
    if q' > q {
      assert (q' - q) * d == r - r';
      MulAtLeast(q' - q, d);
    } else if q' < q {
      assert (q - q') * d == r' - r;
      MulAtLeast(q - q', d);
    }
  }

  lemma Halve(a: int, q: int, r: int)
    requires a == 2 * q + r && 0 <= r < 2
    ensures a / 2 == q && a % 2 == r
  {}

  lemma DivAtMost(a: nat, d: nat)
    requires d >= 1
    ensures a / d <= a
  {
    var q := a / d;
    assert a == q * d + a % d;
    if q >= 1 {
      MulAtLeast(d, q);
      assert q * d == d * q;
    }
  }

  /** Dividing by `b * m` is dividing by `b`, then by `m`; the remainders combine. */
  lemma ModSplit(h: nat, b: nat, m: nat)
    requires b > 0 && m > 0
    ensures h % (b * m) == b * ((h / b) % m) + h % b
    ensures h / (b * m) == (h / b) / m
  {
    var q, r := (h / b) / m, (h / b) % m;
    assert h / b == q * m + r;
    assert h == b * (h / b) + h % b;
    assert b * (q * m + r) == q * (b * m) + b * r;
    assert b * r + b <= b * m by { MulAtLeast(m - r, b); assert (m - r) * b == b * m - b * r; }
    DivModUnique(h, b * m, q, b * r + h % b);
  }

  // ---- Powers of two ----

  lemma {:induction false} Pow2Add(a: nat, b: nat)
    ensures Pow2(a + b) == Pow2(a) * Pow2(b)
    decreases a
  {
    if a > 0 {
      Pow2Add(a - 1, b);
      MulDouble(Pow2(a), Pow2(a - 1), Pow2(b));
    }
  }

  lemma MulDouble(d: int, p: int, a: int)
    requires d == 2 * p
    ensures d * a == 2 * (p * a)
  {}

  lemma {:induction false} PowStrict(lo: nat, hi: nat)
    requires lo < hi
    ensures Pow2(lo) < Pow2(hi)
    decreases hi
  {
    if lo < hi - 1 { PowStrict(lo, hi - 1); }
  }

  lemma PowMono(lo: nat, hi: nat)
    requires lo <= hi
    ensures Pow2(lo) <= Pow2(hi)
  {
    if lo < hi { PowStrict(lo, hi); }
  }

  lemma {:induction false} Pow256IsPow2(n: nat)
    ensures Pow256(n) == Pow2(8 * n)
  {
    if n > 0 {
      Pow256IsPow2(n - 1);
      Pow2Of8();
      Pow2Add(8, 8 * (n - 1));
    }
  }

  lemma Pow2Of8()
    ensures Pow2(4) == 0x10 && Pow2(8) == 0x100
  {
    assert Pow2(2) == 4;
    Pow2Add(2, 2);
    Pow2Add(4, 4);
  }

  lemma Pow2Of12()
    ensures Pow2(12) == 0x1000
  {
    Pow2Of8();
    Pow2Add(8, 4);
  }

  lemma Pow2Of16()
    ensures Pow2(16) == 0x1_0000
  {
    Pow2Of8();
    Pow2Add(8, 8);
  }

  lemma Pow2Of32()
    ensures Pow2(32) == 0x1_0000_0000
  {
    Pow2Of16();
    Pow2Add(16, 16);
  }

  lemma Pow2Of39()
    ensures Pow2(39) == 0x80_0000_0000
  {
    Pow2Of8();
    Pow2Of32();
    Pow2Add(32, 8);
    assert Pow2(40) == 2 * Pow2(39);
  }

  lemma Pow2Of47()
    ensures Pow2(47) == 0x8000_0000_0000
  {
    Pow2Of16();
    Pow2Of32();
    Pow2Add(32, 16);
    assert Pow2(48) == 2 * Pow2(47);
  }

  lemma Pow2Of64()
    ensures Pow2(64) == TWO_64
  {
    Pow2Of32();
    Pow2Add(32, 32);
  }

  lemma Pow2Of63()
    ensures Pow2(63) == 0x8000_0000_0000_0000
  {
    Pow2Of64();
    assert Pow2(64) == 2 * Pow2(63);
  }

  /** The powers of two the model names. */
  lemma Pow2Table()
    ensures Pow2(1) == 2 && Pow2(8) == 0x100 && Pow2(9) == 0x200 && Pow2(12) == 0x1000
    ensures Pow2(16) == 0x1_0000 && Pow2(32) == 0x1_0000_0000
    ensures Pow2(39) == 0x80_0000_0000 && Pow2(47) == 0x8000_0000_0000
    ensures Pow2(63) == 0x8000_0000_0000_0000 && Pow2(64) == TWO_64
  {
    Pow2Of8();
    assert Pow2(9) == 2 * Pow2(8);
    Pow2Of12();
    Pow2Of16();
    Pow2Of32();
    Pow2Of39();
    Pow2Of47();
    Pow2Of63();
    Pow2Of64();
  }

  lemma Pow256Table()
    ensures Pow256(1) == 0x100 && Pow256(2) == 0x1_0000 && Pow256(4) == 0x1_0000_0000 && Pow256(8) == TWO_64
  {
    assert Pow256(2) == 0x1_0000;
    assert Pow256(4) == 0x1_0000_0000;
    assert Pow256(8) == TWO_64;
  }

  // ---- Little-endian bytes ----

  /** `u64::from_le_bytes` generalised to any length. */
  function FromLe(bs: seq<u8>): (r: nat)
    ensures r < Pow256(|bs|)
  {
    if |bs| == 0 then 0 else bs[0] + 0x100 * FromLe(bs[1..])
  }

  /** `to_le_bytes`: the low `n` bytes of `v`, least significant first. */
  function ToLe(v: nat, n: nat): (r: seq<u8>)
    ensures |r| == n
  {
    if n == 0 then [] else [v % 0x100] + ToLe(v / 0x100, n - 1)
  }

  /** Encoding to `n` bytes and decoding keeps the value modulo 256^n. */
  lemma {:induction false} FromLeToLeMod(v: nat, n: nat)
    ensures FromLe(ToLe(v, n)) == v % Pow256(n)
  {
    if n == 0 {
      DivModUnique(v, 1, v, 0);
    } else {
      FromLeToLeMod(v / 0x100, n - 1);
      assert ToLe(v, n)[1..] == ToLe(v / 0x100, n - 1);
      ModSplit(v, 0x100, Pow256(n - 1));
    }
  }

  lemma FromLeToLe(v: nat, n: nat)
    requires v < Pow256(n)
    ensures FromLe(ToLe(v, n)) == v
  {
    FromLeToLeMod(v, n);
    DivModUnique(v, Pow256(n), 0, v);
  }

  lemma {:induction false} ToLeFromLe(bs: seq<u8>)
    ensures ToLe(FromLe(bs), |bs|) == bs
  {
    if |bs| > 0 {
      ToLeFromLe(bs[1..]);
      var v := FromLe(bs);
      Halve8(v, FromLe(bs[1..]), bs[0]);
    }
  }

  lemma Halve8(a: int, q: int, r: int)
    requires a == 0x100 * q + r && 0 <= r < 0x100
    ensures a / 0x100 == q && a % 0x100 == r
  {}

  /** The first `n` of `m` encoded bytes are the `n`-byte encoding. */
  lemma {:induction false} ToLePrefix(v: nat, n: nat, m: nat)
    requires n <= m
    ensures ToLe(v, m)[..n] == ToLe(v, n)
  {
    if n > 0 {
      ToLePrefix(v / 0x100, n - 1, m - 1);
      assert ToLe(v, m)[..n] == [v % 0x100] + ToLe(v / 0x100, m - 1)[..n - 1];
    }
  }

  /** Appending a byte to little-endian bytes adds it as the next lane. */
  lemma FromLeSnoc(bs: seq<u8>, b: u8)
    ensures FromLe(bs + [b]) == FromLe(bs) + Pow256(|bs|) * b
  {
    FromLeAppend(bs, [b]);
    assert [b][1..] == [];
    assert FromLe([b]) == b;
  }

  lemma {:induction false} FromLeAppend(a: seq<u8>, b: seq<u8>)
    ensures FromLe(a + b) == FromLe(a) + Pow256(|a|) * FromLe(b)
  {
    if |a| == 0 {
      assert a + b == b;
    } else {
      assert (a + b)[1..] == a[1..] + b;
      FromLeAppend(a[1..], b);
      ShiftSum(a[0], FromLe(a[1..]), Pow256(|a| - 1), FromLe(b));
    }
  }

  lemma ShiftSum(x: int, f: int, p: int, y: int)
    ensures x + 0x100 * (f + p * y) == (x + 0x100 * f) + (0x100 * p) * y
  {}

  // ---- Bitwise operators on naturals, one bit at a time ----

  function BitAnd(a: nat, b: nat): nat
    decreases a + b
  {
    if a == 0 || b == 0 then 0 else 2 * BitAnd(a / 2, b / 2) + (if a % 2 == 1 && b % 2 == 1 then 1 else 0)
  }

  function BitOr(a: nat, b: nat): nat
    decreases a + b
  {
    if a == 0 && b == 0 then 0 else 2 * BitOr(a / 2, b / 2) + (if a % 2 == 1 || b % 2 == 1 then 1 else 0)
  }

  function BitXor(a: nat, b: nat): nat
    decreases a + b
  {
    if a == 0 && b == 0 then 0 else 2 * BitXor(a / 2, b / 2) + (a + b) % 2
  }

  lemma AndUnfold(a: nat, b: nat)
    ensures BitAnd(a, b) == 2 * BitAnd(a / 2, b / 2) + (if a % 2 == 1 && b % 2 == 1 then 1 else 0)
  {
    if a == 0 { assert BitAnd(0, b / 2) == 0; }
    else if b == 0 { assert BitAnd(a / 2, 0) == 0; }
  }

  lemma OrUnfold(a: nat, b: nat)
    ensures BitOr(a, b) == 2 * BitOr(a / 2, b / 2) + (if a % 2 == 1 || b % 2 == 1 then 1 else 0)
  {
    if a == 0 && b == 0 { assert BitOr(0, 0) == 0; }
  }

  lemma XorUnfold(a: nat, b: nat)
    ensures BitXor(a, b) == 2 * BitXor(a / 2, b / 2) + (a + b) % 2
  {
    if a == 0 && b == 0 { assert BitXor(0, 0) == 0; }
  }

  lemma XorHalves(a: nat, b: nat)
    ensures BitXor(a, b) / 2 == BitXor(a / 2, b / 2) && BitXor(a, b) % 2 == (a + b) % 2
  {
    XorUnfold(a, b);
    Halve(BitXor(a, b), BitXor(a / 2, b / 2), (a + b) % 2);
  }

  lemma {:induction false} AndBound(a: nat, b: nat)
    ensures BitAnd(a, b) <= a && BitAnd(a, b) <= b
    decreases a + b
  {
    if a != 0 && b != 0 { AndBound(a / 2, b / 2); }
  }

  lemma {:induction false} OrBound(a: nat, b: nat, k: nat)
    requires a < Pow2(k) && b < Pow2(k)
    ensures BitOr(a, b) < Pow2(k)
    decreases a + b
  {
    if a != 0 || b != 0 { OrBound(a / 2, b / 2, k - 1); }
  }

  lemma {:induction false} XorBound(a: nat, b: nat, k: nat)
    requires a < Pow2(k) && b < Pow2(k)
    ensures BitXor(a, b) < Pow2(k)
    decreases a + b
  {
    if a != 0 || b != 0 { XorBound(a / 2, b / 2, k - 1); }
  }

  lemma {:induction false} XorZero(a: nat)
    ensures BitXor(a, 0) == a
    decreases a
  {
    if a != 0 { XorZero(a / 2); }
  }

  lemma {:induction false} OrZero(a: nat)
    ensures BitOr(a, 0) == a
    decreases a
  {
    if a != 0 { OrZero(a / 2); }
  }

  lemma {:induction false} ZeroXor(a: nat)
    ensures BitXor(0, a) == a
    decreases a
  {
    if a != 0 { ZeroXor(a / 2); }
  }

  lemma {:induction false} XorSelf(a: nat)
    ensures BitXor(a, a) == 0
    decreases a
  {
    if a != 0 { XorSelf(a / 2); }
  }

  /** XOR with the same operand twice cancels, on either side. */
  lemma {:induction false} XorCancel(a: nat, b: nat)
    ensures BitXor(a, BitXor(a, b)) == b
    ensures BitXor(BitXor(a, b), b) == a
    decreases a + b
  {
    var x := BitXor(a, b);
    if a == 0 && b == 0 {
      XorSelf(0);
    } else {
      XorCancel(a / 2, b / 2);
      XorHalves(a, b);
      XorHalves(a, x);
      XorHalves(x, b);
      SumParity(a, b, x);
      EqualHalves(BitXor(a, x), b);
      EqualHalves(BitXor(x, b), a);
    }
  }

  lemma SumParity(a: nat, b: nat, x: nat)
    requires x % 2 == (a + b) % 2
    ensures (a + x) % 2 == b % 2 && (x + b) % 2 == a % 2
  {
    assert x == 2 * (x / 2) + (a + b) % 2;
  }

  lemma EqualHalves(x: nat, y: nat)
    requires x / 2 == y / 2 && x % 2 == y % 2
    ensures x == y
  {}

  /** XOR works lane by lane: the bits above `k` and the bits below `k` do not mix. */
  lemma {:induction false} XorSplit(a: nat, b: nat, c: nat, d: nat, k: nat)
    requires b < Pow2(k) && d < Pow2(k)
    ensures BitXor(a * Pow2(k) + b, c * Pow2(k) + d) == BitXor(a, c) * Pow2(k) + BitXor(b, d)
    decreases k
  {
    if k > 0 {
      var big, p := Pow2(k), Pow2(k - 1);
      MulNonNegative(a, big);
      MulNonNegative(c, big);
      var x: nat, y: nat := a * big + b, c * big + d;
      MulDouble(big, p, a);
      MulDouble(big, p, c);
      Halve(x, a * p + b / 2, b % 2);
      Halve(y, c * p + d / 2, d % 2);
      XorSplit(a, b / 2, c, d / 2, k - 1);
      XorUnfold(x, y);
      XorUnfold(b, d);
      ParityOfSum(x, y, b, d);
      assert BitXor(x / 2, y / 2) == BitXor(a * p + b / 2, c * p + d / 2);
      SplitStep(BitXor(x, y), BitXor(x / 2, y / 2), BitXor(a, c), p, big, BitXor(b, d), BitXor(b / 2, d / 2), (b + d) % 2);
    }
  }

  lemma MulNonNegative(a: nat, b: nat)
    ensures a * b >= 0
  {}

  /** The arithmetic of one step of `XorSplit`, with the XOR values as plain numbers. */
  lemma SplitStep(whole: int, half: int, high: int, p: int, big: int, low: int, lowHalf: int, parity: int)
    requires whole == 2 * half + parity && low == 2 * lowHalf + parity
    requires half == high * p + lowHalf && big == 2 * p
    ensures whole == high * big + low
  {
    MulDouble(big, p, high);
  }

  /** `(h & 0xFF) ^ v` for a byte `l` and a 16-bit `v`: the value's high byte is untouched. */
  lemma InnerXor(l: nat, v: nat)
    requires l < 0x100 && v < 0x1_0000
    ensures BitXor(l, v) == (v / 0x100) * 0x100 + BitXor(l, v % 0x100)
    ensures BitXor(l, v % 0x100) < 0x100
  {
    Pow2Of8();
    XorSplit(0, l, v / 0x100, v % 0x100, 8);
    ZeroXor(v / 0x100);
    XorBound(l, v % 0x100, 8);
  }

  /** XORing `l ^ low` into a word whose low byte is `l` leaves `low` there. */
  lemma OuterXor(h: nat, high: nat, low: nat)
    requires low < 0x100
    ensures BitXor(h, high * 0x100 + BitXor(h % 0x100, low)) == BitXor(h / 0x100, high) * 0x100 + low
  {
    Pow2Of8();
    XorBound(h % 0x100, low, 8);
    XorSplit(h / 0x100, h % 0x100, high, BitXor(h % 0x100, low), 8);
    XorCancel(h % 0x100, low);
  }

  /** XORing a byte into a number changes only its low byte. */
  lemma ByteXor(g: nat, high: nat)
    requires high < 0x100
    ensures BitXor(g, high) == (g / 0x100) * 0x100 + BitXor(g % 0x100, high)
    ensures BitXor(g % 0x100, high) < 0x100
  {
    Pow2Of8();
    XorSplit(g / 0x100, g % 0x100, 0, high, 8);
    XorZero(g / 0x100);
    XorBound(g % 0x100, high, 8);
  }

  lemma ParityOfSum(x: nat, y: nat, b: nat, d: nat)
    requires x % 2 == b % 2 && y % 2 == d % 2
    ensures (x + y) % 2 == (b + d) % 2
  {
    assert x + y == 2 * (x / 2 + y / 2) + b % 2 + d % 2;
    assert b + d == 2 * (b / 2 + d / 2) + b % 2 + d % 2;
  }


  lemma {:induction false} ZeroOr(a: nat)
    ensures BitOr(0, a) == a
    decreases a
  {
    if a != 0 { ZeroOr(a / 2); }
  }

  // The low `k` bits, the bits above them, and a left shift by `k`, written
  // with halving and doubling only so that the bit lemmas stay linear.

  function LowBits(h: nat, k: nat): nat
  {
    if k == 0 then 0 else 2 * LowBits(h / 2, k - 1) + h % 2
  }

  function DropLow(h: nat, k: nat): nat
  {
    if k == 0 then h else DropLow(h / 2, k - 1)
  }

  function Shifted(a: nat, k: nat): nat
  {
    if k == 0 then a else 2 * Shifted(a, k - 1)
  }

  /** The linear forms agree with division, remainder and multiplication by `2^k`. */
  lemma {:induction false} LowBitsDropLow(h: nat, k: nat)
    ensures LowBits(h, k) == h % Pow2(k) && DropLow(h, k) == h / Pow2(k)
  {
    if k == 0 {
      DivModUnique(h, 1, h, 0);
    } else {
      LowBitsDropLow(h / 2, k - 1);
      ModSplit(h, 2, Pow2(k - 1));
    }
  }

  lemma {:induction false} ShiftedIsProduct(a: nat, k: nat)
    ensures Shifted(a, k) == Pow2(k) * a
  {
    if k > 0 {
      ShiftedIsProduct(a, k - 1);
      MulDouble(Pow2(k), Pow2(k - 1), a);
    }
  }

  lemma {:induction false} DropLowBound(h: nat, k: nat)
    ensures DropLow(h, k) <= h
  {
    if k > 0 { DropLowBound(h / 2, k - 1); }
  }

  lemma {:induction false} LowBitsBound(h: nat, k: nat)
    ensures LowBits(h, k) < Pow2(k) && LowBits(h, k) <= h
  {
    if k > 0 { LowBitsBound(h / 2, k - 1); }
  }

  /** Masking with `2^k - 1` keeps the low `k` bits. */
  lemma {:induction false} AndLow(h: nat, k: nat)
    ensures BitAnd(h, Pow2(k) - 1) == LowBits(h, k)
    decreases k
  {
    if k > 0 {
      var m := Pow2(k) - 1;
      AndLow(h / 2, k - 1);
      Halve(m, Pow2(k - 1) - 1, 1);
      AndUnfold(h, m);
    }
  }

  /** Masking with `2^hi - 2^lo` keeps bits `lo` to `hi - 1`. */
  lemma {:induction false} AndRange(h: nat, lo: nat, hi: nat)
    requires lo <= hi
    ensures Pow2(lo) <= Pow2(hi)
    ensures BitAnd(h, Pow2(hi) - Pow2(lo)) == LowBits(h, hi) - LowBits(h, lo)
    decreases lo
  {
    if lo == hi {
      AndRangeEmpty(h, lo);
    } else if lo == 0 {
      AndRangeBase(h, hi);
    } else {
      AndRange(h / 2, lo - 1, hi - 1);
      AndRangeStep(h, lo, hi);
    }
  }

  lemma AndRangeEmpty(h: nat, k: nat)
    ensures BitAnd(h, Pow2(k) - Pow2(k)) == LowBits(h, k) - LowBits(h, k)
  {
    assert BitAnd(h, 0) == 0;
  }

  lemma AndRangeBase(h: nat, hi: nat)
    ensures Pow2(0) <= Pow2(hi)
    ensures BitAnd(h, Pow2(hi) - Pow2(0)) == LowBits(h, hi) - LowBits(h, 0)
  {
    AndLow(h, hi);
  }

  lemma AndRangeStep(h: nat, lo: nat, hi: nat)
    requires 0 < lo < hi && Pow2(lo - 1) <= Pow2(hi - 1)
    requires BitAnd(h / 2, Pow2(hi - 1) - Pow2(lo - 1)) == LowBits(h / 2, hi - 1) - LowBits(h / 2, lo - 1)
    ensures Pow2(lo) <= Pow2(hi)
    ensures BitAnd(h, Pow2(hi) - Pow2(lo)) == LowBits(h, hi) - LowBits(h, lo)
  {
    PowStrict(lo - 1, hi - 1);
    var m := Pow2(hi) - Pow2(lo);
    Halve(m, Pow2(hi - 1) - Pow2(lo - 1), 0);
    AndUnfold(h, m);
  }

  /** `h ^ (low_k(h) ^ v)` replaces the low `k` bits of `h` by `v`. */
  lemma {:induction false} MergeLow(h: nat, v: nat, k: nat)
    requires v < Pow2(k)
    ensures LowBits(h, k) <= h
    ensures BitXor(h, BitXor(LowBits(h, k), v)) == h - LowBits(h, k) + v
    decreases k
  {
    LowBitsBound(h, k);
    if k == 0 {
      assert BitXor(0, 0) == 0;
      XorZero(h);
    } else {
      MergeLow(h / 2, v / 2, k - 1);
      var x := LowBits(h / 2, k - 1);
      var l := LowBits(h, k);
      Halve(l, x, h % 2);
      var w := BitXor(l, v);
      XorHalves(l, v);
      XorUnfold(h, w);
      MergeArith(h, v, l, x, w, BitXor(h / 2, w / 2));
    }
  }

  lemma MergeArith(h: int, v: int, l: int, x: int, w: int, r: int)
    requires h >= 0 && v >= 0 && w >= 0
    requires l == 2 * x + h % 2
    requires w % 2 == (l + v) % 2
    requires r == h / 2 - x + v / 2
    ensures 2 * r + (h + w) % 2 == h - l + v
  {}

  /** A value shifted left by `k` ORed with a value below `2^k` is their sum. */
  lemma {:induction false} OrDisjoint(a: nat, b: nat, k: nat)
    requires b < Pow2(k)
    ensures BitOr(Shifted(a, k), b) == Shifted(a, k) + b
    decreases k
  {
    if k == 0 {
      OrZero(a);
    } else {
      var c := Shifted(a, k);
      OrDisjoint(a, b / 2, k - 1);
      Halve(c, Shifted(a, k - 1), 0);
      OrUnfold(c, b);
    }
  }

  /**
   * `h ^ ((h & (2^(lo+w) - 2^lo)) ^ (v << lo))` replaces the `w` bits of `h`
   * starting at bit `lo` by `v` and keeps the rest.
   */
  lemma {:induction false} MergeField(h: nat, v: nat, lo: nat, w: nat)
    requires v < Pow2(w)
    ensures Pow2(lo) <= Pow2(lo + w) && LowBits(h, lo) <= LowBits(h, lo + w)
    ensures BitXor(h, BitXor(BitAnd(h, Pow2(lo + w) - Pow2(lo)), Shifted(v, lo))) ==
      h - (LowBits(h, lo + w) - LowBits(h, lo)) + Shifted(v, lo)
    decreases lo
  {
    MergeFieldBounds(h, lo, w);
    if lo == 0 {
      MergeFieldBase(h, v, lo, w);
    } else {
      MergeField(h / 2, v, lo - 1, w);
      MergeFieldStep(h, v, lo, w);
    }
  }

  lemma MergeFieldBounds(h: nat, lo: nat, w: nat)
    ensures Pow2(lo) <= Pow2(lo + w) && LowBits(h, lo) <= LowBits(h, lo + w)
  {
    PowMono(lo, lo + w);
    LowBitsMono(h, lo, lo + w);
  }

  lemma MergeFieldBase(h: nat, v: nat, lo: nat, w: nat)
    requires lo == 0 && v < Pow2(w)
    ensures Pow2(lo) <= Pow2(lo + w)
    ensures BitXor(h, BitXor(BitAnd(h, Pow2(lo + w) - Pow2(lo)), Shifted(v, lo))) ==
      h - (LowBits(h, lo + w) - LowBits(h, lo)) + Shifted(v, lo)
  {
    assert lo + w == w;
    assert Pow2(lo) == 1 && Shifted(v, lo) == v && LowBits(h, lo) == 0;
    AndLow(h, w);
    MergeLow(h, v, w);
  }

  lemma MergeFieldStep(h: nat, v: nat, lo: nat, w: nat)
    requires lo > 0 && v < Pow2(w)
    requires Pow2(lo - 1) <= Pow2(lo - 1 + w)
    requires BitXor(h / 2, BitXor(BitAnd(h / 2, Pow2(lo - 1 + w) - Pow2(lo - 1)), Shifted(v, lo - 1))) ==
      h / 2 - (LowBits(h / 2, lo - 1 + w) - LowBits(h / 2, lo - 1)) + Shifted(v, lo - 1)
    ensures Pow2(lo) <= Pow2(lo + w)
    ensures BitXor(h, BitXor(BitAnd(h, Pow2(lo + w) - Pow2(lo)), Shifted(v, lo))) ==
      h - (LowBits(h, lo + w) - LowBits(h, lo)) + Shifted(v, lo)
  {
    var m' := Pow2(lo - 1 + w) - Pow2(lo - 1);
    var m := Pow2(lo + w) - Pow2(lo);
    MaskDoubles(lo, w);
    var a' := BitAnd(h / 2, m');
    AndEven(h, m, m');
    var s' := Shifted(v, lo - 1);
    var x' := BitXor(a', s');
    XorEven(BitAnd(h, m), Shifted(v, lo), a', s');
    XorOdd(h, BitXor(BitAnd(h, m), Shifted(v, lo)), x');
    LowBitsDoubles(h, lo, w);
    FieldArith(h, BitXor(h / 2, x'), LowBits(h, lo + w), LowBits(h / 2, lo - 1 + w),
      LowBits(h, lo), LowBits(h / 2, lo - 1), Shifted(v, lo), s');
  }

  lemma FieldArith(h: int, i: int, l1: int, l1': int, l0: int, l0': int, s: int, s': int)
    requires i == h / 2 - (l1' - l0') + s'
    requires l1 == 2 * l1' + h % 2 && l0 == 2 * l0' + h % 2 && s == 2 * s'
    ensures 2 * i + h % 2 == h - (l1 - l0) + s
  {}

  lemma MaskDoubles(lo: nat, w: nat)
    requires lo > 0
    ensures Pow2(lo + w) - Pow2(lo) == 2 * (Pow2(lo - 1 + w) - Pow2(lo - 1))
  {
    assert Pow2(lo + w) == 2 * Pow2(lo - 1 + w);
  }

  lemma LowBitsDoubles(h: nat, lo: nat, w: nat)
    requires lo > 0
    ensures LowBits(h, lo + w) == 2 * LowBits(h / 2, lo - 1 + w) + h % 2
    ensures LowBits(h, lo) == 2 * LowBits(h / 2, lo - 1) + h % 2
  {
    assert lo + w - 1 == lo - 1 + w;
  }

  lemma AndEven(h: nat, m: nat, m': nat)
    requires m == 2 * m'
    ensures BitAnd(h, m) == 2 * BitAnd(h / 2, m')
  {
    Halve(m, m', 0);
    AndUnfold(h, m);
  }

  lemma XorEven(a: nat, b: nat, a': nat, b': nat)
    requires a == 2 * a' && b == 2 * b'
    ensures BitXor(a, b) == 2 * BitXor(a', b')
  {
    Halve(a, a', 0);
    Halve(b, b', 0);
    Halve(a + b, a' + b', 0);
    XorUnfold(a, b);
  }

  lemma XorOdd(h: nat, x: nat, x': nat)
    requires x == 2 * x'
    ensures BitXor(h, x) == 2 * BitXor(h / 2, x') + h % 2
  {
    Halve(x, x', 0);
    Halve(h + x, h / 2 + x', h % 2);
    XorUnfold(h, x);
  }


  lemma {:induction false} LowBitsMono(h: nat, lo: nat, hi: nat)
    requires lo <= hi
    ensures LowBits(h, lo) <= LowBits(h, hi)
    decreases lo
  {
    if lo > 0 {
      LowBitsMono(h / 2, lo - 1, hi - 1);
    }
  }

  /** A value below `2^w` shifted by `k` bits is below `2^(k+w)`. */
  lemma {:induction false} ShiftedBound(v: nat, k: nat, w: nat)
    requires v < Pow2(w)
    ensures Shifted(v, k) < Pow2(k + w)
    decreases k
  {
    if k > 0 {
      ShiftedBound(v, k - 1, w);
      assert Pow2(k + w) == 2 * Pow2(k - 1 + w);
    }
  }

  /** Byte `k` of `x`, least significant first. */
  function ByteLane(x: nat, k: nat): nat { (x / Pow256(k)) % 0x100 }

  /** Byte `k` of the little-endian encoding is byte lane `k` of the value. */
  lemma {:induction false} ToLeAt(v: nat, n: nat, k: nat)
    requires k < n
    ensures ToLe(v, n)[k] == ByteLane(v, k)
  {
    if k > 0 {
      ToLeAt(v / 0x100, n - 1, k - 1);
      ModSplit(v, 0x100, Pow256(k - 1));
    }
  }

  /** Adding `(b - lane_k) * 256^k` replaces byte `k` of the encoding by `b` and keeps the others. */
  lemma {:induction false} ToLeReplace(c: nat, b: u8, k: nat, n: nat, x: nat)
    requires k < n
    requires x == c + (b - ByteLane(c, k)) * Pow256(k)
    ensures ToLe(x, n) == ToLe(c, n)[k := b]
  {
    if k == 0 {
      Halve8(x, c / 0x100, b);
    } else {
      var d := b - ByteLane(c, k);
      assert x / 0x100 == c / 0x100 + d * Pow256(k - 1) && x % 0x100 == c % 0x100 by {
        assert d * Pow256(k) == 0x100 * (d * Pow256(k - 1));
        Halve8(x, c / 0x100 + d * Pow256(k - 1), c % 0x100);
      }
      assert ByteLane(c / 0x100, k - 1) == ByteLane(c, k) by {
        ModSplit(c, 0x100, Pow256(k - 1));
      }
      ToLeReplace(c / 0x100, b, k - 1, n - 1, x / 0x100);
    }
  }

  /** Replacing bits `8k..8k+7` is adding `(b - lane_k) * 256^k`. */
  lemma LaneArith(h: nat, b: u8, k: nat)
    ensures Pow2(8 * k) <= Pow2(8 * k + 8)
    ensures h - (LowBits(h, 8 * k + 8) - LowBits(h, 8 * k)) + Shifted(b, 8 * k) ==
      h + (b - ByteLane(h, k)) * Pow256(k)
  {
    PowMono(8 * k, 8 * k + 8);
    LowBitsDropLow(h, 8 * k);
    LowBitsDropLow(h, 8 * k + 8);
    ShiftedIsProduct(b, 8 * k);
    Pow256IsPow2(k);
    Pow2Of8();
    Pow2Add(8 * k, 8);
    ModSplit(h, Pow2(8 * k), 0x100);
  }

  // ---- 64-bit unsigned operators, as Rust's operators on u64 in a release build ----

  /** Wrapping arithmetic: `+`, `-`, `wrapping_add` and `wrapping_sub` on u64. */
  function Wrap(x: int): u64 { x % TWO_64 }

  lemma WrapSmall(x: int)
    requires 0 <= x < TWO_64
    ensures Wrap(x) == x
  {
  }

  /** Wrapping twice is wrapping once. */
  lemma WrapAdd(a: int, b: int)
    ensures Wrap(Wrap(a) + b) == Wrap(a + b)
  {
    var q := a / TWO_64;
    assert a == q * TWO_64 + Wrap(a);
    var s := Wrap(a) + b;
    DivModUnique(a + b, TWO_64, q + s / TWO_64, s % TWO_64);
  }

  function And64(a: u64, b: u64): (r: u64)
    ensures r <= a && r <= b
  {
    AndBound(a, b);
    BitAnd(a, b)
  }

  function Or64(a: u64, b: u64): u64 {
    Pow2Of64();
    OrBound(a, b, 64);
    BitOr(a, b)
  }

  function Xor64(a: u64, b: u64): u64 {
    Pow2Of64();
    XorBound(a, b, 64);
    BitXor(a, b)
  }

  /** `a << s`; the shift amount is taken modulo 64 as a release build does. */
  function Shl64(a: u64, s: nat): u64 { Wrap(a * Pow2(s % 64)) }

  /** `a >> s` (logical); the shift amount is taken modulo 64. */
  function Shr64(a: u64, s: nat): (r: u64)
    ensures r == a / Pow2(s % 64)
  {
    DropLowBound(a, s % 64);
    LowBitsDropLow(a, s % 64);
    DropLow(a, s % 64)
  }

  /** `x as u8`, `x as u16`, `x as u32`: truncating casts. */
  function Trunc8(x: nat): u8 { x % 0x100 }
  function Trunc16(x: nat): u16 { x % 0x1_0000 }
  function Trunc32(x: nat): u32 { x % 0x1_0000_0000 }

  /** `b as i8`: a byte read as two's complement. */
  function AsI8(b: u8): i8 { if b < 0x80 then b else b - 0x100 }
  /** `x as i64 as u64` for an i8. */
  function I8ToU64(x: i8): u64 { if x >= 0 then x else x + TWO_64 }
  /** `x as u16` for an i8 (sign extension to 16 bits). */
  function I8ToU16(x: i8): u16 { if x >= 0 then x else x + 0x1_0000 }
  /** `b as i8 as i64 as u64`: sign extension of a byte. */
  function SignExtend8(b: u8): u64 { I8ToU64(AsI8(b)) }
  /** `w as i32 as i64 as u64`: sign extension of a 32-bit word. */
  function SignExtend32(w: u32): u64 { if w < 0x8000_0000 then w else w + (TWO_64 - 0x1_0000_0000) }

  // ---- Facts about the 64-bit operators ----

  /** `x & (2^k - 1)` is `x` modulo `2^k`. */
  lemma AndLowMask(x: u64, k: nat)
    requires k <= 64
    ensures Pow2(k) - 1 < TWO_64
    ensures And64(x, Pow2(k) - 1) == x % Pow2(k)
  {
    MaskBounds(0, k);
    AndLowCore(x, k);
  }

  lemma AndLowCore(x: u64, k: nat)
    requires Pow2(k) - 1 < TWO_64
    ensures And64(x, Pow2(k) - 1) == x % Pow2(k)
  {
    AndLow(x, k);
    LowBitsDropLow(x, k);
  }

  /** `x & (2^hi - 2^lo)` keeps bits `lo` to `hi - 1` of `x`. */
  lemma AndMaskRange(x: u64, lo: nat, hi: nat)
    requires lo <= hi <= 64
    ensures Pow2(lo) <= Pow2(hi) && Pow2(hi) - Pow2(lo) < TWO_64
    ensures And64(x, Pow2(hi) - Pow2(lo)) == x % Pow2(hi) - x % Pow2(lo)
  {
    MaskBounds(lo, hi);
    AndMaskCore(x, lo, hi);
  }

  lemma MaskBounds(lo: nat, hi: nat)
    requires lo <= hi <= 64
    ensures Pow2(lo) <= Pow2(hi) && Pow2(hi) - Pow2(lo) < TWO_64 && Pow2(hi) - 1 < TWO_64
  {
    Pow2Of64();
    PowMono(hi, 64);
    PowMono(lo, hi);
  }

  lemma AndMaskCore(x: u64, lo: nat, hi: nat)
    requires lo <= hi <= 64
    requires Pow2(lo) <= Pow2(hi) && Pow2(hi) - Pow2(lo) < TWO_64
    ensures And64(x, Pow2(hi) - Pow2(lo)) == x % Pow2(hi) - x % Pow2(lo)
  {
    AndRange(x, lo, hi);
    LowBitsAsMod(x, lo, hi, LowBits(x, hi) - LowBits(x, lo));
  }

  lemma LowBitsAsMod(x: nat, lo: nat, hi: nat, a: int)
    requires a == LowBits(x, hi) - LowBits(x, lo)
    ensures a == x % Pow2(hi) - x % Pow2(lo)
  {
    LowBitsDropLow(x, lo);
    LowBitsDropLow(x, hi);
  }

  /** `h ^= (h & (2^k - 1)) ^ v` replaces the low `k` bits of `h` by `v` and keeps the rest. */
  lemma MergeLowBits(h: u64, v: u64, k: nat)
    requires k <= 64 && v < Pow2(k)
    ensures Pow2(k) - 1 < TWO_64
    ensures Xor64(h, Xor64(And64(h, Pow2(k) - 1), v)) == h - h % Pow2(k) + v
  {
    MaskBounds(0, k);
    AndLow(h, k);
    MergeLow(h, v, k);
    LowBitsDropLow(h, k);
  }

  /** `a << 32` keeps the low half of `a`, moved up. */
  lemma Shl32(a: u64)
    ensures Shl64(a, 32) == 0x1_0000_0000 * (a % 0x1_0000_0000)
  {
    Pow2Of32();
    var m := a % 0x1_0000_0000;
    assert a * 0x1_0000_0000 == (a / 0x1_0000_0000) * TWO_64 + m * 0x1_0000_0000;
    DivModUnique(a * 0x1_0000_0000, TWO_64, a / 0x1_0000_0000, m * 0x1_0000_0000);
  }

  /** A value shifted left by 32 bits ORed with a value below 2^32 is their sum. */
  lemma OrShifted32(a: u64, b: u64)
    requires b < 0x1_0000_0000
    ensures Shl64(a, 32) == 0x1_0000_0000 * (a % 0x1_0000_0000)
    ensures Or64(Shl64(a, 32), b) == Shl64(a, 32) + b
  {
    Shl32(a);
    Pow2Of32();
    ShiftedIsProduct(a % 0x1_0000_0000, 32);
    OrDisjoint(a % 0x1_0000_0000, b, 32);
  }
}
