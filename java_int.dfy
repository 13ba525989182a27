/**
 * Java's 32-bit `int` arithmetic, as used by the HUD refresh: wrapping `+`,
 * truncating `/`, the arithmetic right shift `>>` and the bitwise `&`.
 *
 * The bitwise operators are defined bit by bit on the two's-complement pattern
 * of a value (read as an unsigned number below 2^32), so that the facts the
 * HUD relies on -- `a >> 7` is floor division by 128 and `a & 127` is the
 * non-negative remainder modulo 128, also for negative `a` -- are proved
 * rather than assumed.
 */
module JavaInt {

  const TWO_31: int := 0x8000_0000
  const TWO_32: int := 0x1_0000_0000
  const MIN_INT: int := -0x8000_0000
  const MAX_INT: int := 0x7FFF_FFFF

  /** A Java `int`. */
  type Int32 = a: int | -0x8000_0000 <= a < 0x8000_0000

  /** A Java `byte`. */
  type Int8 = b: int | -0x80 <= b < 0x80

  function Pow2(n: nat): (r: nat)
    ensures r >= 1
  {
    if n == 0 then 1 else 2 * Pow2(n - 1)
  }

  /** The exact value `v` brought into `int` range the way a Java overflow does. */
  function Wrap(v: int): (r: Int32)
    ensures (r - v) % TWO_32 == 0
    ensures MIN_INT <= v <= MAX_INT ==> r == v
  {
    var u := v % TWO_32;
    if u > MAX_INT then u - TWO_32 else u
  }

  /** Java `a + b` on `int`. */
  function Add(a: Int32, b: Int32): (r: Int32)
    ensures (r - (a + b)) % TWO_32 == 0
    ensures MIN_INT <= a + b <= MAX_INT ==> r == a + b
  {
    Wrap(a + b)
  }

  /** Java `a / d` on `int`: the quotient rounded toward zero (and wrapped for MIN_INT / -1). */
  function Div(a: Int32, d: Int32): (r: Int32)
    requires d != 0
    ensures 0 <= a && 0 < d ==> r == a / d
  {
    var q := Abs(a) / Abs(d);
    DivBound(Abs(a), Abs(d));
    Wrap(if (a >= 0) == (d > 0) then q else -q)
  }

  function Abs(a: int): nat { if a < 0 then -a else a }

  // ---------------------------------------------------------------------
  // Two's complement.

  /** The 32-bit two's-complement pattern of `a`, read as an unsigned number. */
  function Unsigned(a: Int32): (u: nat)
    ensures u < TWO_32
  {
    if a < 0 then a + TWO_32 else a
  }

  /** The `int` whose two's-complement pattern is the unsigned number `u`. */
  function Signed(u: nat): (a: Int32)
    requires u < TWO_32
    ensures Unsigned(a) == u
  {
    if u > MAX_INT then u - TWO_32 else u
  }

  /** Bitwise AND of the `n` lowest bits of `u` and `v`, lowest bit first. */
  function AndBits(u: nat, v: nat, n: nat): nat
  {
    if n == 0 then 0
    else (if u % 2 == 1 && v % 2 == 1 then 1 else 0) + 2 * AndBits(u / 2, v / 2, n - 1)
  }

  /** Java `a & b`: with a non-negative mask, the result lies between 0 and the mask. */
  function And(a: Int32, b: Int32): (r: Int32)
    ensures 0 <= b ==> 0 <= r <= b
  {
    Pow2Values();
    AndBitsBound(Unsigned(a), Unsigned(b), 32);
    Signed(AndBits(Unsigned(a), Unsigned(b), 32))
  }

  /** The pattern of `a` moved one position right, its sign bit (bit 31) kept in place. */
  function ShiftRightOnce(a: Int32): Int32
  {
    var u := Unsigned(a);
    Signed(u / 2 + (if u >= TWO_31 then TWO_31 else 0))
  }

  /** `a` shifted right by `k` positions, one sign-extending step at a time. */
  function ShiftRightBy(a: Int32, k: nat): Int32
  {
    if k == 0 then a else ShiftRightOnce(ShiftRightBy(a, k - 1))
  }

  /** Java `a >> n`: only the low five bits of the count are used. */
  function ShiftRight(a: Int32, n: nat): (r: Int32)
    ensures r == a / Pow2(n % 32)
  {
    ShiftRightByIsFloorDiv(a, n % 32);
    ShiftRightBy(a, n % 32)
  }

  // ---------------------------------------------------------------------
  // Arithmetic facts about powers of two and Euclidean division.

  lemma Pow2Values()
    ensures Pow2(2) == 4 && Pow2(7) == 128 && Pow2(8) == 256
    ensures Pow2(31) == TWO_31 && Pow2(32) == TWO_32
  {
    assert Pow2(8) == 256;
    assert Pow2(16) == 0x1_0000;
    assert Pow2(24) == 0x100_0000;
  }

  lemma {:induction false} Pow2Monotone(m: nat, n: nat)
    requires m <= n
    ensures Pow2(m) <= Pow2(n)
  {
    if m < n {
      Pow2Monotone(m, n - 1);
    }
  }

  lemma {:induction false} Pow2Add(m: nat, n: nat)
    ensures Pow2(m + n) == Pow2(m) * Pow2(n)
  {
    if m > 0 {
      Pow2Add(m - 1, n);
      MulAssoc(2, Pow2(m - 1), Pow2(n));
    }
  }

  lemma MulAssoc(a: int, b: int, c: int)
    ensures a * (b * c) == (a * b) * c
  {
  }

  lemma MulNonneg(a: int, b: int)
    requires a >= 0 && b >= 0
    ensures a * b >= 0
  {
  }

  lemma MulSign(d: int, t: int)
    requires d > 0
    ensures t >= 0 ==> d * t >= 0
    ensures t >= 1 ==> d * t >= d
    ensures t <= -1 ==> d * t <= -d
  {
    if t >= 0 {
      MulNonneg(d, t);
    }
    if t >= 1 {
      assert d * t == d * (t - 1) + d;
      MulNonneg(d, t - 1);
    } else if t <= -1 {
      assert d * t == -(d * (-t - 1)) - d;
      MulNonneg(d, -t - 1);
    }
  }

  lemma DivBound(a: nat, d: nat)
    requires d > 0
    ensures a / d <= a
  {
    MulNonneg(d - 1, a / d);
    assert d * (a / d) == (d - 1) * (a / d) + a / d;
  }

  /** Euclidean division is characterised by its remainder range. */
  lemma DivModUnique(u: int, d: int, q: int, r: int)
    requires d > 0 && u == d * q + r && 0 <= r < d
    ensures u / d == q && u % d == r
  {
    var q', r' := u / d, u % d;
    MulSign(d, q - q');
    assert d * (q - q') == r' - r;
  }

  lemma ModAddMultiple(u: int, d: int, k: int)
    requires d > 0
    ensures (u + d * k) / d == u / d + k && (u + d * k) % d == u % d
  {
    DivModUnique(u + d * k, d, u / d + k, u % d);
  }

  /** Dividing by `p`, then by 2, is dividing by `2p`. */
  lemma DivHalve(a: int, p: int)
    requires p > 0
    ensures (a / p) / 2 == a / (2 * p)
  {
    var q := a / p;
    var q2 := q / 2;
    assert a == p * q + a % p;
    assert q == 2 * q2 + q % 2;
    assert p * q == (2 * p) * q2 + p * (q % 2);
    MulSign(p, 1 - q % 2);
    DivModUnique(a, 2 * p, q2, p * (q % 2) + a % p);
  }

  /** Splitting off the lowest bit of a remainder modulo `2p`. */
  lemma HalveMod(u: nat, p: nat)
    requires p > 0
    ensures u % 2 + 2 * ((u / 2) % p) == u % (2 * p)
  {
    var h := u / 2;
    var q, s := h / p, h % p;
    assert u == 2 * h + u % 2;
    assert h == p * q + s;
    assert u == (2 * p) * q + (2 * s + u % 2);
    DivModUnique(u, 2 * p, q, 2 * s + u % 2);
  }

  /** Values congruent modulo 2^32 wrap to the same `int`. */
  lemma WrapCongruent(v: int, w: int)
    requires (v - w) % TWO_32 == 0
    ensures Wrap(v) == Wrap(w)
  {
    var t := (v - w) / TWO_32;
    assert v == w + TWO_32 * t;
    ModAddMultiple(w, TWO_32, t);
  }

  /** Two wrapping additions in a row give the exact sum, wrapped once. */
  lemma AddAdd(a: Int32, b: Int32, c: Int32)
    ensures Add(Add(a, b), c) == Wrap(a + b + c)
  {
    var s := Add(a, b);
    var t := (s - (a + b)) / TWO_32;
    assert s + c == a + b + c + TWO_32 * t;
    ModAddMultiple(a + b + c, TWO_32, t);
    WrapCongruent(s + c, a + b + c);
  }

  // ---------------------------------------------------------------------
  // Two's complement round trip.

  /** Reading back the pattern of `a` gives `a`. */
  lemma SignedUnsigned(a: Int32)
    ensures Signed(Unsigned(a)) == a
  {
  }

  // ---------------------------------------------------------------------
  // What the shift and the mask compute.

  /** One sign-extending step halves `a`, rounding toward minus infinity. */
  lemma ShiftRightOnceHalves(a: Int32)
    ensures ShiftRightOnce(a) == a / 2
  {
    if a < 0 {
      ModAddMultiple(a, 2, TWO_31);
    }
  }

  /** Shifting right by `k` positions is floor division by `2^k`. */
  lemma {:induction false} ShiftRightByIsFloorDiv(a: Int32, k: nat)
    ensures ShiftRightBy(a, k) == a / Pow2(k)
  {
    if k > 0 {
      ShiftRightByIsFloorDiv(a, k - 1);
      ShiftRightOnceHalves(ShiftRightBy(a, k - 1));
      DivHalve(a, Pow2(k - 1));
    }
  }

  /** Java `a >> n`, for a count below 32, is floor division by `2^n`, also for negative `a`. */
  lemma ShiftRightIsFloorDiv(a: Int32, n: nat)
    requires n < 32
    ensures ShiftRight(a, n) == a / Pow2(n)
  {
    assert n % 32 == n;
  }

  /** AND with `2^k - 1` keeps the `k` lowest bits of `u`: its remainder modulo `2^k`. */
  lemma {:induction false} AndBitsLowMask(u: nat, k: nat, n: nat)
    requires k <= n
    ensures AndBits(u, Pow2(k) - 1, n) == u % Pow2(k)
  {
    if k == 0 {
      AndBitsZero(u, n);
    } else {
      var p := Pow2(k - 1);
      var m := 2 * p - 1;
      assert Pow2(k) == 2 * p;
      assert AndBits(u, m, n) == u % 2 + 2 * AndBits(u / 2, p - 1, n - 1) by {
        DivModUnique(m, 2, p - 1, 1);
      }
      assert AndBits(u / 2, p - 1, n - 1) == (u / 2) % p by {
        AndBitsLowMask(u / 2, k - 1, n - 1);
      }
      HalveMod(u, p);
    }
  }

  /** AND never sets a bit the second operand lacks, so it is at most that operand. */
  lemma {:induction false} AndBitsBound(u: nat, v: nat, n: nat)
    ensures AndBits(u, v, n) <= v
  {
    if n > 0 {
      AndBitsBound(u / 2, v / 2, n - 1);
    }
  }

  lemma {:induction false} AndBitsZero(u: nat, n: nat)
    ensures AndBits(u, 0, n) == 0
  {
    if n > 0 {
      AndBitsZero(u / 2, n - 1);
    }
  }

  /** The pattern of `a` and `a` itself leave the same remainder modulo `2^k`, for k up to 32. */
  lemma UnsignedMod(a: Int32, k: nat)
    requires k <= 32
    ensures Unsigned(a) % Pow2(k) == a % Pow2(k)
  {
    if a < 0 {
      var p, q := Pow2(k), Pow2(32 - k);
      Pow2Add(32 - k, k);
      Pow2Values();
      assert TWO_32 == q * p;
      ModAddMultiple(a, p, q);
      assert Unsigned(a) == a + p * q;
    }
  }

  /** Java `a & (2^k - 1)`, for k below 32, is the Euclidean remainder of `a` modulo `2^k`. */
  lemma AndLowMask(a: Int32, k: nat)
    requires k < 32
    ensures Pow2(k) - 1 <= MAX_INT
    ensures And(a, Pow2(k) - 1) == a % Pow2(k)
  {
    var p := Pow2(k);
    assert p <= TWO_31 by {
      Pow2Values();
      Pow2Monotone(k, 31);
    }
    var u := Unsigned(a);
    assert AndBits(u, p - 1, 32) == a % p by {
      AndBitsLowMask(u, k, 32);
      UnsignedMod(a, k);
    }
    assert And(a, p - 1) == Signed(AndBits(u, p - 1, 32));
  }
}
