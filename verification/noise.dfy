/** Value noise over a 16 x 64 lattice of fixed-point samples: `noise` wraps the
    coordinates onto the lattice and interpolates bilinearly, `fractal_noise` sums three
    scaled and shifted octaves.

    The lattice `random_data` is filled by `rand()` at start-up; here it is a parameter,
    constrained by `ValidNoiseTable` to the range `noise_init` produces. */
module Noise {
  import opened MachineInt
  import opened Common

  const RESOLUTION_X: nat := 16
  const RESOLUTION_Y: nat := 64
  const WRAP_X: int := RESOLUTION_X * ONE
  const WRAP_Y: int := RESOLUTION_Y * ONE

  /** `random_data[x][y]`: 16 rows of 64 samples, each in [-ONE, ONE). */
  ghost predicate ValidNoiseTable(tbl: seq<seq<int>>)
  {
    && |tbl| == RESOLUTION_X
    && (forall i :: 0 <= i < RESOLUTION_X ==> |tbl[i]| == RESOLUTION_Y)
    && (forall i, j :: 0 <= i < RESOLUTION_X && 0 <= j < RESOLUTION_Y ==> -ONE <= tbl[i][j] < ONE)
  }

  /** The C expression `((x % w) + w) % w` with truncating `%`: it is the mathematical
      remainder, so the coordinate always lands in [0, w). */
  function Wrap(x: int, w: int): (r: int)
    requires w > 0
    ensures r == x % w
    ensures 0 <= r < w
  {
    CModWrapIsEuclidean(x, w);
    CMod(CMod(x, w) + w, w)
  }

  /** `a + (((b - a) * f) >> SHIFT)`: linear interpolation from a to b by the fraction f.
      For a fraction in [0, ONE) the interpolant never leaves the segment between its end
      points, and at fraction 0 it is the start point. */
  function Lerp(a: int, b: int, f: int): (r: int)
    ensures 0 <= f < ONE ==> Min(a, b) <= r <= Max(a, b)
    ensures f == 0 ==> r == a
  {
    StepBetween(b - a, f);
    a + ShiftDown((b - a) * f)
  }

  /** The shifted product `(d * f) >> SHIFT` lies between 0 and `d`. */
  lemma StepBetween(d: int, f: int)
    ensures 0 <= f < ONE ==> Min(0, d) <= ShiftDown(d * f) <= Max(0, d)
  {
    if 0 <= f < ONE {
      if d >= 0 {
        MulBoundsNonNeg(d, f);
      } else {
        MulBoundsNonNeg(-d, f);
        assert d * f == -((-d) * f);
      }
    }
  }

  lemma MulBoundsNonNeg(d: int, f: int)
    requires d >= 0 && 0 <= f <= 2 * ONE
    ensures 0 <= d * f <= d * (2 * ONE)
    ensures f <= ONE ==> d * f <= d * ONE
  {
  }

  function Min(a: int, b: int): int { if a < b then a else b }
  function Max(a: int, b: int): int { if a < b then b else a }

  /** Where a point falls on the lattice: the cell's integer corner and the fraction of
      the way across the cell in each direction. */
  datatype Cell = Cell(xi: nat, yi: nat, xf: nat, yf: nat)

  /** Steps 1 and 2 of `noise`: wrap both coordinates, then split them into cell index
      (`x >> SHIFT`) and fraction (`x % (1 << SHIFT)`, non-negative after the wrap). */
  function Locate(x: int, y: int): (c: Cell)
    ensures c.xi < RESOLUTION_X && c.yi < RESOLUTION_Y
    ensures c.xf < ONE && c.yf < ONE
    ensures c.xi * ONE + c.xf == x % WRAP_X
    ensures c.yi * ONE + c.yf == y % WRAP_Y
  {
    var wx := Wrap(x, WRAP_X);
    var wy := Wrap(y, WRAP_Y);
    DivIdentity(wx, ONE);
    DivIdentity(wy, ONE);
    DivBelow(wx, RESOLUTION_X);
    DivBelow(wy, RESOLUTION_Y);
    Cell(wx / ONE, wy / ONE, wx % ONE, wy % ONE)
  }

  lemma DivBelow(w: nat, n: nat)
    requires w < n * ONE
    ensures w / ONE < n
  {
    DivIdentity(w, ONE);
  }

  lemma MulBound(n: nat, m: nat, k: nat)
    requires n <= m
    ensures n * k <= m * k
  {
  }

  /** `noise(x, y)`: bilinear interpolation between the four lattice samples around the
      wrapped point, first along y, then along x; the neighbours wrap around the lattice. */
  function NoiseAt(tbl: seq<seq<int>>, x: int64, y: int64): (r: int)
    requires ValidNoiseTable(tbl)
    ensures -ONE <= r < ONE
  {
    var c := Locate(x, y);
    var x2 := (c.xi + 1) % RESOLUTION_X;
    var y2 := (c.yi + 1) % RESOLUTION_Y;
    var val1 := Lerp(tbl[c.xi][c.yi], tbl[c.xi][y2], c.yf);
    var val2 := Lerp(tbl[x2][c.yi], tbl[x2][y2], c.yf);
    Lerp(val1, val2, c.xf)
  }

  /** The four lattice samples around a point, in the order r11, r12, r21, r22. */
  function Corners(tbl: seq<seq<int>>, c: Cell): (r: seq<int>)
    requires ValidNoiseTable(tbl) && c.xi < RESOLUTION_X && c.yi < RESOLUTION_Y
    ensures |r| == 4
    ensures forall k :: 0 <= k < 4 ==> -ONE <= r[k] < ONE
  {
    var x2 := (c.xi + 1) % RESOLUTION_X;
    var y2 := (c.yi + 1) % RESOLUTION_Y;
    [tbl[c.xi][c.yi], tbl[c.xi][y2], tbl[x2][c.yi], tbl[x2][y2]]
  }

  /** The noise value lies between the least and the greatest of its four corners, so it
      keeps the range of the lattice, [-ONE, ONE). */
  lemma NoiseBetweenCorners(tbl: seq<seq<int>>, x: int64, y: int64)
    requires ValidNoiseTable(tbl)
    ensures var r := Corners(tbl, Locate(x, y));
      && Min(Min(r[0], r[1]), Min(r[2], r[3])) <= NoiseAt(tbl, x, y)
      && NoiseAt(tbl, x, y) <= Max(Max(r[0], r[1]), Max(r[2], r[3]))
    ensures -ONE <= NoiseAt(tbl, x, y) < ONE
  {
    var c := Locate(x, y);
    var r := Corners(tbl, c);
    var val1 := Lerp(r[0], r[1], c.yf);
    var val2 := Lerp(r[2], r[3], c.yf);
    assert NoiseAt(tbl, x, y) == Lerp(val1, val2, c.xf);
  }

  /** `noise` repeats every 16 units along x and every 64 units along y. */
  lemma NoisePeriodic(tbl: seq<seq<int>>, x: int64, y: int64)
    requires ValidNoiseTable(tbl)
    requires InInt64(x + WRAP_X) && InInt64(y + WRAP_Y)
    ensures NoiseAt(tbl, x + WRAP_X, y) == NoiseAt(tbl, x, y)
    ensures NoiseAt(tbl, x, y + WRAP_Y) == NoiseAt(tbl, x, y)
  {
    ModShift(x, 1, WRAP_X);
    ModShift(y, 1, WRAP_Y);
    LocateDependsOnRemainders(x + WRAP_X, y, x, y);
    LocateDependsOnRemainders(x, y + WRAP_Y, x, y);
  }

  /** `Locate` sees its arguments only through their remainders. */
  lemma LocateDependsOnRemainders(x: int, y: int, x': int, y': int)
    requires x % WRAP_X == x' % WRAP_X && y % WRAP_Y == y' % WRAP_Y
    ensures Locate(x, y) == Locate(x', y')
  {
    var c := Locate(x, y);
    var c' := Locate(x', y');
    DivModUnique(x % WRAP_X, c.xi, c.xf, ONE);
    DivModUnique(x % WRAP_X, c'.xi, c'.xf, ONE);
    DivModUnique(y % WRAP_Y, c.yi, c.yf, ONE);
    DivModUnique(y % WRAP_Y, c'.yi, c'.yf, ONE);
  }

  /** At a lattice point the interpolation is exact: the result is the stored sample,
      with the indices taken around the lattice. */
  lemma NoiseAtGridPoint(tbl: seq<seq<int>>, i: int, j: int)
    requires ValidNoiseTable(tbl) && InInt64(i * ONE) && InInt64(j * ONE)
    ensures NoiseAt(tbl, i * ONE, j * ONE) == tbl[i % RESOLUTION_X][j % RESOLUTION_Y]
  {
    var c := Locate(i * ONE, j * ONE);
    GridRemainder(i, RESOLUTION_X);
    GridRemainder(j, RESOLUTION_Y);
    DivModUnique((i * ONE) % WRAP_X, i % RESOLUTION_X, 0, ONE);
    DivModUnique((j * ONE) % WRAP_Y, j % RESOLUTION_Y, 0, ONE);
    DivModUnique(c.xi * ONE + c.xf, c.xi, c.xf, ONE);
    DivModUnique(c.yi * ONE + c.yf, c.yi, c.yf, ONE);
    assert c.xf == 0 && c.yf == 0;
  }

  /** `(i * ONE) % (n * ONE) == (i % n) * ONE` */
  lemma GridRemainder(i: int, n: nat)
    requires n > 0
    ensures (i * ONE) % (n * ONE) == (i % n) * ONE
  {
    var q := i / n;
    var r := i % n;
    assert i * ONE == q * (n * ONE) + r * ONE;
    MulBound(r, n - 1, ONE);
    DivModUnique(i * ONE, q, r * ONE, n * ONE);
  }

  /** `MUL(a, b)`, `(a * b) >> SHIFT`: fixed-point product, rounded toward minus infinity. */
  function FixedMul(a: int, b: int): int
  {
    ShiftDown(a * b)
  }

  /** Scaling a noise value (in [-ONE, ONE)) never exceeds the amplitude in size. */
  lemma FixedMulBound(a: int, n: int)
    requires -ONE <= n < ONE
    ensures Abs(FixedMul(a, n)) <= Abs(a)
  {
    var m: int := Abs(a);
    var p := a * n;
    if a >= 0 {
      MulBoundsNonNeg(a, n + ONE);
      MulBoundsNonNeg(a, ONE - n - 1);
      assert a * (n + ONE) == p + m * ONE;
      assert a * (ONE - n - 1) == m * ONE - p - a;
    } else {
      MulBoundsNonNeg(-a, n + ONE);
      MulBoundsNonNeg(-a, ONE - n - 1);
      assert (-a) * (n + ONE) == m * ONE - p;
      assert (-a) * (ONE - n - 1) == p + m * ONE - m;
    }
    assert -m * ONE <= p <= m * ONE;
    FloorDivBound(p, m);
  }

  lemma FloorDivBound(p: int, m: int)
    requires m >= 0 && -m * ONE <= p <= m * ONE
    ensures -m <= p / ONE <= m
  {
  }

  /** `NUM(k)`, `k << SHIFT`: the integer k in fixed point. */
  function Num(k: int): int { k * ONE }

  /** One octave of `fractal_noise`: the noise at the point scaled by `k` and shifted by
      the whole numbers (dx, dy). */
  function Octave(tbl: seq<seq<int>>, x: int, y: int, k: int, dx: int, dy: int): int
    requires ValidNoiseTable(tbl)
    requires InInt64(x * k + Num(dx)) && InInt64(y * k + Num(dy))
  {
    NoiseAt(tbl, x * k + Num(dx), y * k + Num(dy))
  }

  /** The signed 64-bit arithmetic of `fractal_noise` does not overflow: the scaled and
      shifted coordinates stay in range, and so do the amplitude products. */
  ghost predicate FractalInRange(x: int64, y: int64, amp1: int64, amp2: int64, amp3: int64)
  {
    && InInt64(x * 2 + Num(3187)) && InInt64(y * 2 + Num(1379))
    && InInt64(x * 4 + Num(827)) && InInt64(y * 4 + Num(2913))
    && Abs(amp1) < 0x8000_0000_0000 && Abs(amp2) < 0x8000_0000_0000 && Abs(amp3) < 0x8000_0000_0000
  }

  /** `fractal_noise` as written: the third octave is scaled by `amp2`, and `amp3` is never
      read. */
  function FractalNoise(tbl: seq<seq<int>>, x: int64, y: int64, amp1: int64, amp2: int64, amp3: int64): (r: int)
    requires ValidNoiseTable(tbl) && FractalInRange(x, y, amp1, amp2, amp3)
    ensures Abs(r) <= Abs(amp1) + 2 * Abs(amp2)
  {
    var n1 := Octave(tbl, x, y, 1, 0, 0);
    var n2 := Octave(tbl, x, y, 2, 3187, 1379);
    var n3 := Octave(tbl, x, y, 4, 827, 2913);
    NoiseBetweenCorners(tbl, x, y);
    NoiseBetweenCorners(tbl, x * 2 + Num(3187), y * 2 + Num(1379));
    NoiseBetweenCorners(tbl, x * 4 + Num(827), y * 4 + Num(2913));
    FixedMulBound(amp1, n1);
    FixedMulBound(amp2, n2);
    FixedMulBound(amp2, n3);
    FixedMul(amp1, n1) + FixedMul(amp2, n2) + FixedMul(amp2, n3)
  }

  /** `fractal_noise` as its signature evidently intends: each octave has its own
      amplitude. */
  function FractalNoiseIntended(tbl: seq<seq<int>>, x: int64, y: int64, amp1: int64, amp2: int64, amp3: int64): (r: int)
    requires ValidNoiseTable(tbl) && FractalInRange(x, y, amp1, amp2, amp3)
    ensures Abs(r) <= Abs(amp1) + Abs(amp2) + Abs(amp3)
  {
    var n1 := Octave(tbl, x, y, 1, 0, 0);
    var n2 := Octave(tbl, x, y, 2, 3187, 1379);
    var n3 := Octave(tbl, x, y, 4, 827, 2913);
    NoiseBetweenCorners(tbl, x, y);
    NoiseBetweenCorners(tbl, x * 2 + Num(3187), y * 2 + Num(1379));
    NoiseBetweenCorners(tbl, x * 4 + Num(827), y * 4 + Num(2913));
    FixedMulBound(amp1, n1);
    FixedMulBound(amp2, n2);
    FixedMulBound(amp3, n3);
    FixedMul(amp1, n1) + FixedMul(amp2, n2) + FixedMul(amp3, n3)
  }

  /** As written, the result does not depend on `amp3` at all. */
  lemma FractalNoiseIgnoresAmp3(tbl: seq<seq<int>>, x: int64, y: int64, amp1: int64, amp2: int64, amp3: int64, amp3': int64)
    requires ValidNoiseTable(tbl)
    requires FractalInRange(x, y, amp1, amp2, amp3) && FractalInRange(x, y, amp1, amp2, amp3')
    ensures FractalNoise(tbl, x, y, amp1, amp2, amp3) == FractalNoise(tbl, x, y, amp1, amp2, amp3')
  {
  }

  /** A lattice holding the same sample everywhere. */
  function ConstantTable(c: int): (tbl: seq<seq<int>>)
    requires -ONE <= c < ONE
    ensures ValidNoiseTable(tbl)
    ensures forall i, j :: 0 <= i < RESOLUTION_X && 0 <= j < RESOLUTION_Y ==> tbl[i][j] == c
  {
    seq(RESOLUTION_X, _ => seq(RESOLUTION_Y, _ => c))
  }

  /** Noise over a constant lattice is that constant everywhere. */
  lemma NoiseOfConstant(c: int, x: int64, y: int64)
    requires -ONE <= c < ONE
    ensures NoiseAt(ConstantTable(c), x, y) == c
  {
    NoiseBetweenCorners(ConstantTable(c), x, y);
  }

  /** With the first two amplitudes zero, the intended function yields the third octave
      scaled by `amp3`, where the function as written yields 0. */
  lemma FractalNoiseThirdOctave(c: int, amp3: int64)
    requires -ONE <= c < ONE && Abs(amp3) < 0x8000_0000_0000
    ensures FractalNoiseIntended(ConstantTable(c), 0, 0, 0, 0, amp3) == FixedMul(amp3, c)
    ensures FractalNoise(ConstantTable(c), 0, 0, 0, 0, amp3) == 0
  {
    NoiseOfConstant(c, 0 * 4 + Num(827), 0 * 4 + Num(2913));
  }

  /** The concrete discrepancy: over a constant lattice of half amplitude with
      amp1 = amp2 = 0 and amp3 = ONE, the intended value is ONE / 2 and the value as
      written is 0. */
  lemma FractalNoiseCounterexample()
    ensures FractalNoiseIntended(ConstantTable(ONE / 2), 0, 0, 0, 0, ONE) == ONE / 2
    ensures FractalNoise(ConstantTable(ONE / 2), 0, 0, 0, 0, ONE) == 0
  {
    FractalNoiseThirdOctave(ONE / 2, ONE);
    DivModUnique(ONE * (ONE / 2), ONE / 2, 0, ONE);
  }
}
