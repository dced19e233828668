/** The fixed-point helpers of the firmware: the table-driven sine `sini` and the
    integer `clamp`, `min` and `max`.

    The result is in the fixed-point format of `Common` (`ONE` is 1.0). The quarter-wave
    table `sin_valuetable` is not reproduced: `sini` takes it as a parameter constrained by
    `ValidSinTable` (1024 entries in 0..1023, non-decreasing), which is all the properties
    below rely on. */
module FixedMath {
  import opened MachineInt
  import opened Common

  const SIN_PERIOD: nat := 4096

  /** A quarter sine wave sampled at 1024 points with 10-bit amplitude. */
  ghost predicate ValidSinTable(t: seq<int>)
  {
    && |t| == 1024
    && (forall i :: 0 <= i < 1024 ==> 0 <= t[i] <= 1023)
    && (forall i, j :: 0 <= i <= j < 1024 ==> t[i] <= t[j])
  }

  /** `x << SHIFT >> 10` on an `int`: a shift left by 16 (GCC multiplies, also for
      negative x) followed by an arithmetic shift right by 10, which rounds toward minus
      infinity like Dafny's division by a positive number. */
  function ShiftScale(x: int): int
  {
    (x * 0x1_0000) / 0x400
  }

  /** The shift pair is exact: it multiplies by 64. */
  lemma ShiftScaleIsTimes64(x: int)
    ensures ShiftScale(x) == 64 * x
  {
    DivModUnique(x * 0x1_0000, 64 * x, 0, 0x400);
  }

  /** The table index `sini` reads for a phase `v` in 0..4095: the quarter wave is read
      forwards, backwards, forwards, backwards. */
  function SinIndex(v: nat): (i: nat)
    requires v < SIN_PERIOD
    ensures i < 1024
  {
    if v < 1024 then v
    else if v < 2048 then 2047 - v
    else if v < 3072 then v - 2048
    else 4095 - v
  }

  /** `sini`: the sine of `val` (a full turn is 4096) in fixed point. */
  function Sini(t: seq<int>, val: uint32): (r: int)
    requires ValidSinTable(t)
    ensures -1023 * 64 <= r <= 1023 * 64 < ONE
    ensures val % SIN_PERIOD < 2048 ==> r >= 0
    ensures val % SIN_PERIOD >= 2048 ==> r <= 0
    ensures r == 0 || r % 64 == 0
  {
    var v := val % SIN_PERIOD;
    var x := t[SinIndex(v)];
    ShiftScaleIsTimes64(x);
    ShiftScaleIsTimes64(-x);
    if v < 2048 then ShiftScale(x) else ShiftScale(-x)
  }

  /** The sine of phase `v` read straight from the table: the magnitude is the table entry
      at the mirrored index, scaled to fixed point, and the sign is that of the half-wave. */
  lemma SiniFromTable(t: seq<int>, val: uint32)
    requires ValidSinTable(t)
    ensures var v := val % SIN_PERIOD;
      Sini(t, val) == (if v < 2048 then 64 else -64) * t[SinIndex(v)]
  {
    var x := t[SinIndex(val % SIN_PERIOD)];
    ShiftScaleIsTimes64(x);
    ShiftScaleIsTimes64(-x);
  }

  /** Only the phase modulo 4096 matters. */
  lemma SiniPeriodic(t: seq<int>, val: uint32)
    requires ValidSinTable(t)
    ensures Sini(t, val) == Sini(t, val % SIN_PERIOD)
    ensures val + SIN_PERIOD < 0x1_0000_0000 ==> Sini(t, val + SIN_PERIOD) == Sini(t, val)
  {
    assert (val % SIN_PERIOD) % SIN_PERIOD == val % SIN_PERIOD;
    if val + SIN_PERIOD < 0x1_0000_0000 {
      ModShift(val, 1, SIN_PERIOD);
    }
  }

  /** The positive half-wave is symmetric about its peak between 1023 and 1024. */
  lemma SiniSymmetric(t: seq<int>, x: uint32)
    requires ValidSinTable(t) && x < 2048
    ensures Sini(t, x) == Sini(t, 2047 - x)
  {
    SiniFromTable(t, x);
    SiniFromTable(t, 2047 - x);
  }

  /** Half a turn later the sine has the opposite sign and the same magnitude. */
  lemma SiniHalfTurn(t: seq<int>, x: uint32)
    requires ValidSinTable(t) && x + 2048 < 0x1_0000_0000
    ensures Sini(t, x + 2048) == -Sini(t, x)
  {
    var v := x % SIN_PERIOD;
    var q := x / SIN_PERIOD;
    DivIdentity(x, SIN_PERIOD);
    if v < 2048 {
      DivModUnique(x + 2048, q, v + 2048, SIN_PERIOD);
    } else {
      DivModUnique(x + 2048, q + 1, v - 2048, SIN_PERIOD);
    }
    SiniFromTable(t, x);
    SiniFromTable(t, x + 2048);
  }

  /** Over the first quarter turn the sine rises with the phase. */
  lemma SiniRising(t: seq<int>, a: uint32, b: uint32)
    requires ValidSinTable(t) && a <= b < 1024
    ensures Sini(t, a) <= Sini(t, b)
  {
    SiniFromTable(t, a);
    SiniFromTable(t, b);
  }

  /** `clamp(val, lo, hi)`: the lower bound is tested first. */
  function Clamp(val: int32, lo: int32, hi: int32): (r: int32)
    ensures r == val || r == lo || r == hi
    ensures lo <= hi ==> lo <= r <= hi
    ensures lo <= val <= hi ==> r == val
  {
    if val < lo then lo
    else if val > hi then hi
    else val
  }

  /** For a proper range, `clamp` picks the point of [lo, hi] nearest to `val`. */
  lemma ClampIsNearest(val: int32, lo: int32, hi: int32, y: int)
    requires lo <= hi && lo <= y <= hi
    ensures Abs(Clamp(val, lo, hi) - val) <= Abs(y - val)
  {
  }

  /** Clamping twice is clamping once, and `clamp` never reverses the order of inputs. */
  lemma ClampIdempotentMonotone(a: int32, b: int32, lo: int32, hi: int32)
    requires lo <= hi
    ensures Clamp(Clamp(a, lo, hi), lo, hi) == Clamp(a, lo, hi)
    ensures a <= b ==> Clamp(a, lo, hi) <= Clamp(b, lo, hi)
  {
  }

  function Min(a: int32, b: int32): (r: int32)
    ensures r == a || r == b
    ensures r <= a && r <= b
  {
    if a > b then b else a
  }

  function Max(a: int32, b: int32): (r: int32)
    ensures r == a || r == b
    ensures r >= a && r >= b
  {
    if a < b then b else a
  }

  /** `min` and `max` split a pair: together they return both arguments. */
  lemma MinMaxPair(a: int32, b: int32)
    ensures Min(a, b) <= Max(a, b)
    ensures Min(a, b) + Max(a, b) == a + b
    ensures Min(a, b) == Min(b, a) && Max(a, b) == Max(b, a)
  {
  }
}
