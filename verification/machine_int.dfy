/** Machine integers of the firmware (an ARM Cortex-M3 compiled with GCC) and the
    C operators whose meaning differs from Dafny's unbounded, Euclidean arithmetic. */
module MachineInt {

  type uint8 = x: int | 0 <= x < 0x100
  type uint16 = x: int | 0 <= x < 0x1_0000
  type uint32 = x: int | 0 <= x < 0x1_0000_0000
  type int32 = x: int | -0x8000_0000 <= x < 0x8000_0000
  type int64 = x: int | -0x8000_0000_0000_0000 <= x < 0x8000_0000_0000_0000

  predicate InInt32(x: int) { -0x8000_0000 <= x < 0x8000_0000 }
  predicate InInt64(x: int) { -0x8000_0000_0000_0000 <= x < 0x8000_0000_0000_0000 }

  /** Conversion of any integer to `uint32_t` (and of `int` arguments passed to a
      `uint32_t` parameter): reduction modulo 2^32. */
  function ToUint32(x: int): (r: uint32)
    ensures (x - r) % 0x1_0000_0000 == 0
    ensures 0 <= x < 0x1_0000_0000 ==> r == x
  {
    x % 0x1_0000_0000
  }

  /** Conversion of any integer to `uint16_t`: reduction modulo 2^16. */
  function ToUint16(x: int): (r: uint16)
    ensures (x - r) % 0x1_0000 == 0
    ensures 0 <= x < 0x1_0000 ==> r == x
  {
    x % 0x1_0000
  }

  /** Conversion of a wider integer to `int`: two's-complement wrap-around, as GCC does. */
  function ToInt32(x: int): (r: int32)
    ensures (x - r) % 0x1_0000_0000 == 0
    ensures InInt32(x) ==> r == x
  {
    (x + 0x8000_0000) % 0x1_0000_0000 - 0x8000_0000
  }

  /** C's `/` on signed operands: the quotient is truncated toward zero. */
  function CDiv(a: int, b: int): (q: int)
    requires b != 0
    ensures Abs(q) == Abs(a) / Abs(b)
    ensures q != 0 ==> ((q < 0) <==> ((a < 0) != (b < 0)))
  {
    DivIdentity(Abs(a), Abs(b));
    var m := Abs(a) / Abs(b);
    if (a < 0) == (b < 0) then m else -m
  }

  /** C's `%` on signed operands: the remainder takes the sign of the dividend. */
  function CMod(a: int, b: int): (r: int)
    requires b != 0
    ensures Abs(r) == Abs(a) % Abs(b)
    ensures r != 0 ==> ((r < 0) <==> (a < 0))
  {
    DivIdentity(Abs(a), Abs(b));
    a - b * CDiv(a, b)
  }

  /** Euclidean division of naturals. */
  lemma DivIdentity(x: nat, y: nat)
    requires y > 0
    ensures x == y * (x / y) + x % y
    ensures 0 <= x % y < y
    ensures x / y >= 0
  {
  }

  /** The C remainder differs from the dividend by a multiple of the (positive) divisor. */
  lemma CModCongruent(a: int, b: int)
    requires b > 0
    ensures (a - CMod(a, b)) % b == 0
  {
    var q := CDiv(a, b);
    assert a - CMod(a, b) == q * b;
    DivModUnique(q * b, q, 0, b);
  }

  function Abs(x: int): nat { if x < 0 then -x else x }

  /** On non-negative operands C's `%` agrees with Dafny's. */
  lemma CModNonNegative(a: int, b: int)
    requires a >= 0 && b > 0
    ensures CMod(a, b) == a % b
  {
  }

  /** The C idiom `((x % w) + w) % w` computes the mathematical (non-negative)
      remainder, whatever the sign of `x`. */
  lemma CModWrapIsEuclidean(x: int, w: int)
    requires w > 0
    ensures CMod(CMod(x, w) + w, w) == x % w
  {
    var m := CMod(x, w);
    CModCongruent(x, w);
    assert 0 < m + w < 2 * w;
    CModNonNegative(m + w, w);
    ModOfSum(x, m, w);
  }

  /** Two numbers that differ by a multiple of `w` leave the same remainder. */
  lemma ModOfSum(x: int, m: int, w: int)
    requires w > 0
    requires (x - m) % w == 0
    ensures (m + w) % w == x % w
  {
    var k := (x - m) / w;
    assert x == m + k * w;
    ModShift(m + w, k - 1, w);
  }

  lemma ModShift(a: int, k: int, w: int)
    requires w > 0
    ensures (a + k * w) % w == a % w
  {
    var q := a / w;
    var r := a % w;
    assert a + k * w == (q + k) * w + r;
    DivModUnique(a + k * w, q + k, r, w);
  }

  /** Euclidean division is determined by quotient and remainder. */
  lemma DivModUnique(a: int, q: int, r: int, w: int)
    requires w > 0 && 0 <= r < w && a == q * w + r
    ensures a / w == q && a % w == r
  {
    var q' := a / w;
    var r' := a % w;
    assert (q - q') * w == r' - r;
    if q > q' {
      MulAtLeast(q - q', w);
    } else if q < q' {
      MulAtLeast(q' - q, w);
    }
  }

  lemma {:induction false} MulAtLeast(d: int, w: int)
    requires d >= 1 && w >= 1
    ensures d * w >= w
  {
    if d > 1 {
      MulAtLeast(d - 1, w);
    }
  }

  /** Multiplying by a non-negative number does not reverse order. */
  lemma MulMonotone(k: int, a: int, b: int)
    requires k >= 0 && a <= b
    ensures k * a <= k * b
  {
    assert k * b - k * a == k * (b - a);
    if k > 0 && b > a {
      MulAtLeast(k, b - a);
    }
  }

  /** Euclidean division by a positive number does not reverse order. */
  lemma DivMonotone(a: nat, b: nat, d: nat)
    requires a <= b && d > 0
    ensures a / d <= b / d
  {
    DivIdentity(a, d);
    DivIdentity(b, d);
    if a / d > b / d {
      MulAtLeast(a / d - b / d, d);
    }
  }

  /** C's truncating division by a positive number does not reverse order either. */
  lemma CDivMonotone(a: int, b: int, d: int)
    requires a <= b && d > 0
    ensures CDiv(a, d) <= CDiv(b, d)
  {
    if a >= 0 {
      DivMonotone(a, b, d);
    } else if b < 0 {
      DivMonotone(-b, -a, d);
    }
  }

  function Pow2(k: nat): (r: nat)
    ensures r >= 1
  {
    if k == 0 then 1 else 2 * Pow2(k - 1)
  }

  lemma {:induction false} Pow2Add(a: nat, b: nat)
    ensures Pow2(a + b) == Pow2(a) * Pow2(b)
  {
    if a > 0 {
      Pow2Add(a - 1, b);
    }
  }

  lemma Pow2Of32()
    ensures Pow2(32) == 0x1_0000_0000
  {
    assert Pow2(4) == 16;
    Pow2Add(4, 4);
    assert Pow2(8) == 256;
    Pow2Add(8, 8);
    assert Pow2(16) == 0x1_0000;
    Pow2Add(16, 16);
  }

  /** Bit `k` of `x`, i.e. `(x >> k) & 1` is 1, defined by repeated halving. */
  predicate Bit(x: nat, k: nat)
  {
    if k == 0 then x % 2 == 1 else Bit(x / 2, k - 1)
  }

  /** The mask test `x & (1 << k)` agrees with `Bit`: bit k is the parity of x / 2^k. */
  lemma {:induction false} BitIsMaskTest(x: nat, k: nat)
    ensures Bit(x, k) <==> (x / Pow2(k)) % 2 == 1
  {
    if k > 0 {
      BitIsMaskTest(x / 2, k - 1);
      DivDiv(x, 2, Pow2(k - 1));
    }
  }

  lemma DivDiv(x: nat, a: nat, b: nat)
    requires a > 0 && b > 0
    ensures x / a / b == x / (a * b)
  {
    var y := x / a;
    var q := y / b;
    var r1 := x % a;
    var r2 := y % b;
    DivIdentity(x, a);
    DivIdentity(y, b);
    assert a * y == (a * b) * q + a * r2 by {
      assert y == b * q + r2;
      assert a * (b * q + r2) == a * (b * q) + a * r2;
    }
    MulMonotone(a, r2, b - 1);
    assert a * (b - 1) == a * b - a;
    DivModUnique(x, q, a * r2 + r1, a * b);
  }

  /** Doubling shifts every bit up by one place. */
  lemma BitOfDouble(x: nat, k: nat)
    requires k >= 1
    ensures Bit(2 * x, k) <==> Bit(x, k - 1)
  {
    assert (2 * x) / 2 == x;
  }

  /** Reduction modulo 2^n keeps the bits below n. */
  lemma {:induction false} BitOfMod(x: nat, n: nat, k: nat)
    requires k < n
    ensures Bit(x % Pow2(n), k) <==> Bit(x, k)
  {
    var p := Pow2(n - 1);
    HalfOfMod(x, p);
    if k == 0 {
      assert (x % (2 * p)) % 2 == x % 2 by {
        var q := x / (2 * p);
        assert x == 2 * (p * q) + x % (2 * p);
        ModShift(x % (2 * p), p * q, 2);
      }
    } else {
      BitOfMod(x / 2, n - 1, k - 1);
    }
  }

  /** `(x % 2p) / 2 == (x / 2) % p` */
  lemma HalfOfMod(x: nat, p: nat)
    requires p >= 1
    ensures (x % (2 * p)) / 2 == (x / 2) % p
  {
    var q := x / (2 * p);
    var r := x % (2 * p);
    assert x == (2 * p) * q + r;
    assert x / 2 == p * q + r / 2 by {
      assert x == 2 * (p * q + r / 2) + r % 2;
      DivModUnique(x, p * q + r / 2, r % 2, 2);
    }
    DivModUnique(x / 2, q, r / 2, p);
  }

  /** The C statement `v <<= 1` on a `uint32_t` moves bit k-1 to bit k (k < 32). */
  lemma BitOfShiftLeft(v: uint32, k: nat)
    requires 1 <= k < 32
    ensures Bit((2 * v) % 0x1_0000_0000, k) <==> Bit(v, k - 1)
  {
    Pow2Of32();
    BitOfMod(2 * v, 32, k);
    BitOfDouble(v, k);
  }
}
