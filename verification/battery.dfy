/** Battery charge estimation: the cell count is guessed from the first voltage reading
    (`batt_estimate_cells`), and the per-cell voltage is turned into a percentage by a
    binary search over a discharge table followed by linear interpolation
    (`batt_calc_percent`). `batt_get_percent` caches the cell count in the global
    `batt_cells`, which here is passed in and returned. */
module Battery {
  import opened MachineInt

  const CELL_FULL_MILLIVOLTS: int := 4200
  const MARGIN_MILLIVOLTS: int := 200

  /** The largest cell count the detection tries. */
  const MAX_CELLS: int := 999

  /** Whether a pack of `n` full cells, plus the margin, lies above `millivolts`. */
  predicate Fits(millivolts: int, n: int)
  {
    millivolts < n * CELL_FULL_MILLIVOLTS + MARGIN_MILLIVOLTS
  }

  /** The `for` loop of `batt_estimate_cells` from candidate `n` on. */
  function EstimateFrom(millivolts: int32, n: int): (r: int)
    requires 1 <= n <= MAX_CELLS + 1
    ensures r == -1 || n <= r <= MAX_CELLS
    ensures r != -1 ==> Fits(millivolts, r)
    ensures forall m :: n <= m <= MAX_CELLS && (r == -1 || m < r) ==> !Fits(millivolts, m)
    decreases MAX_CELLS + 1 - n
  {
    if n > MAX_CELLS then -1
    else if Fits(millivolts, n) then n
    else EstimateFrom(millivolts, n + 1)
  }

  /** `batt_estimate_cells`: the least cell count from 1 to 999 whose full voltage plus
      margin exceeds the reading, or -1 when even 999 cells do not. */
  function EstimateCells(millivolts: int32): (r: int)
    ensures r == -1 || 1 <= r <= MAX_CELLS
    ensures r != -1 ==> Fits(millivolts, r)
    ensures forall m :: 1 <= m <= MAX_CELLS && (r == -1 || m < r) ==> !Fits(millivolts, m)
  {
    EstimateFrom(millivolts, 1)
  }

  /** The estimate is never 0, so `batt_calc_percent` may divide by it; it is -1 exactly
      when the reading is beyond 999 full cells, and otherwise the rounded-up count of
      whole cells above the margin. */
  lemma EstimateCellsClosedForm(millivolts: int32)
    ensures EstimateCells(millivolts) != 0
    ensures EstimateCells(millivolts) == -1 <==> millivolts >= MAX_CELLS * 4200 + 200
    ensures millivolts < 4400 ==> EstimateCells(millivolts) == 1
    ensures 4400 <= millivolts < MAX_CELLS * 4200 + 200 ==>
      EstimateCells(millivolts) == (millivolts - 200) / 4200 + 1
  {
    var r := EstimateCells(millivolts);
    if 4400 <= millivolts < MAX_CELLS * 4200 + 200 {
      var k := (millivolts - 200) / 4200;
      DivIdentity(millivolts - 200, 4200);
      assert Fits(millivolts, k + 1);
      assert !Fits(millivolts, k);
      assert r == k + 1;
    } else if millivolts >= MAX_CELLS * 4200 + 200 {
      assert r == -1;
    }
  }

  /** The discharge curve of one cell, 4.2 V (100 %) to 3.0 V (0 %) in steps of 5 %. */
  const VOLTAGES: seq<int> := [4200, 4000, 3950, 3890, 3840, 3800, 3760, 3730, 3700, 3675,
                               3650, 3630, 3610, 3600, 3585, 3550, 3510, 3450, 3380, 3300, 3000]

  const N_VOLTAGES: nat := 21
  const N_INTERVALS: nat := N_VOLTAGES - 1

  /** What the search and interpolation rely on: 21 strictly decreasing entries from the
      4200 mV and 3000 mV that `batt_calc_percent` clips at. The lemmas below are proved
      for every such table and applied to `VOLTAGES`. */
  ghost predicate DischargeCurve(t: seq<int>)
  {
    && |t| == N_VOLTAGES
    && t[0] == 4200 && t[N_INTERVALS] == 3000
    && forall i :: 0 <= i < N_INTERVALS ==> t[i] > t[i + 1]
  }

  lemma VoltagesIsCurve()
    ensures DischargeCurve(VOLTAGES)
  {
  }

  /** The whole table strictly decreases, so every interpolation divisor is positive. */
  lemma {:induction false} Decreasing(t: seq<int>, i: nat, j: nat)
    requires DischargeCurve(t) && i < j < N_VOLTAGES
    ensures t[i] > t[j]
    decreases j - i
  {
    if i + 1 < j {
      Decreasing(t, i + 1, j);
    }
  }

  /** The percentage on segment `i`, `100 - 5i` at its upper end minus a share of 5
      proportional to the drop below that end. On its own segment it stays within that
      segment's 5 % and hits both ends. */
  function Interpolate(t: seq<int>, i: nat, mpc: int): (r: int)
    requires DischargeCurve(t) && i < N_INTERVALS
    ensures t[i + 1] <= mpc <= t[i] ==> 100 - 5 * i - 5 <= r <= 100 - 5 * i
    ensures mpc == t[i] ==> r == 100 - 5 * i
    ensures mpc == t[i + 1] ==> r == 100 - 5 * i - 5
  {
    var d := t[i] - t[i + 1];
    var n := 5 * (t[i] - mpc);
    ShareOfFive(n, d);
    100 - i * 5 - CDiv(n, d)
  }

  /** The share `n / d` of a drop `n` of at most `5 * d` is between 0 and 5, and is 0
      and 5 at the two ends. */
  lemma ShareOfFive(n: int, d: int)
    requires d > 0
    ensures 0 <= n <= 5 * d ==> 0 <= CDiv(n, d) <= 5
    ensures n == 0 ==> CDiv(n, d) == 0
    ensures n == 5 * d ==> CDiv(n, d) == 5
  {
    if 0 <= n <= 5 * d {
      DivMonotone(n, 5 * d, d);
      DivModUnique(5 * d, 5, 0, d);
      DivModUnique(0, 0, 0, d);
    }
  }

  /** Within a segment the interpolation rises with the voltage. */
  lemma InterpolateMonotone(t: seq<int>, i: nat, a: int, b: int)
    requires DischargeCurve(t) && i < N_INTERVALS
    requires t[i + 1] <= a <= b <= t[i]
    ensures Interpolate(t, i, a) <= Interpolate(t, i, b)
  {
    DivMonotone(5 * (t[i] - b), 5 * (t[i] - a), t[i] - t[i + 1]);
  }

  /** The first segment, scanning from `i`, whose lower end is at most `mpc`: a linear
      search, the reference for the binary search of `batt_calc_percent`. */
  function SegmentFrom(t: seq<int>, mpc: int, i: nat): (k: nat)
    requires DischargeCurve(t) && i < N_INTERVALS && t[N_INTERVALS] < mpc <= t[i]
    ensures i <= k < N_INTERVALS
    ensures t[k + 1] <= mpc <= t[k]
    ensures forall j :: i < j <= k ==> t[j] > mpc
    decreases N_INTERVALS - i
  {
    if t[i + 1] <= mpc then i else SegmentFrom(t, mpc, i + 1)
  }

  /** The percentage for a per-cell voltage, by the first segment that contains it. */
  function CellPercent(t: seq<int>, mpc: int): (p: int)
    requires DischargeCurve(t)
    ensures 0 <= p <= 100
    ensures mpc >= 4200 ==> p == 100
    ensures mpc <= 3000 ==> p == 0
  {
    if mpc >= 4200 then 100
    else if mpc <= 3000 then 0
    else
      var k := SegmentFrom(t, mpc, 0);
      Interpolate(t, k, mpc)
  }

  /** Where two segments meet both give the same percentage, so every segment that
      contains `mpc` yields `CellPercent(mpc)`; the binary search may stop on either. */
  lemma AnySegmentAgrees(t: seq<int>, i: nat, mpc: int)
    requires DischargeCurve(t) && i < N_INTERVALS
    requires 3000 < mpc < 4200
    requires t[i + 1] <= mpc <= t[i]
    ensures Interpolate(t, i, mpc) == CellPercent(t, mpc)
  {
    var k := SegmentFrom(t, mpc, 0);
    if k < i {
      if k + 1 < i {
        Decreasing(t, k + 1, i);
      }
      assert k + 1 == i && mpc == t[i];
    }
  }

  /** `batt_calc_percent` as a function of its inputs: the per-cell voltage is the C
      quotient of the reading by the cell count, looked up in `VOLTAGES`. */
  function Percent(millivolts: int32, cells: int): (p: int)
    requires cells != 0 && InInt32(CDiv(millivolts, cells))
    ensures 0 <= p <= 100
    ensures CDiv(millivolts, cells) >= 4200 ==> p == 100
    ensures CDiv(millivolts, cells) <= 3000 ==> p == 0
  {
    VoltagesIsCurve();
    CellPercent(VOLTAGES, CDiv(millivolts, cells))
  }

  /** `batt_calc_percent` over the table `voltages`: clip to the ends of the table, then
      binary-search the segment holding the per-cell voltage and interpolate on it. */
  method CalcPercent(voltages: seq<int>, millivolts: int32, nCells: int) returns (p: int)
    requires DischargeCurve(voltages)
    requires nCells != 0 && InInt32(CDiv(millivolts, nCells))
    ensures p == CellPercent(voltages, CDiv(millivolts, nCells))
    ensures 0 <= p <= 100
  {
    var mpc := CDiv(millivolts, nCells);
    if mpc >= 4200 {
      return 100;
    }
    if mpc <= 3000 {
      return 0;
    }
    var i := SearchSegment(voltages, mpc);
    AnySegmentAgrees(voltages, i, mpc);
    p := 100 - i * 5 - CDiv(5 * (voltages[i] - mpc), voltages[i] - voltages[i + 1]);
  }

  /** The `while (1)` loop of `batt_calc_percent`: bisection keeps the per-cell voltage
      strictly inside `voltages[hi] .. voltages[lo]` until the midpoint segment holds it. */
  method SearchSegment(voltages: seq<int>, mpc: int) returns (i: nat)
    requires DischargeCurve(voltages) && 3000 < mpc < 4200
    ensures i < N_INTERVALS && voltages[i + 1] <= mpc <= voltages[i]
  {
    var lo := 0;
    var hi := N_INTERVALS;
    i := (lo + hi) / 2;
    while true
      invariant 0 <= lo < hi <= N_INTERVALS
      invariant voltages[hi] < mpc < voltages[lo]
      decreases hi - lo
    {
      i := (lo + hi) / 2;
      assert lo <= i < hi;
      if voltages[i + 1] <= mpc && mpc <= voltages[i] {
        break;
      }
      if mpc < voltages[i] {
        assert i + 1 != hi;
        lo := i;
      } else {
        hi := i;
      }
    }
  }

  /** At each table voltage the percentage is the one the table lists for it. */
  lemma PercentAtTablePoint(t: seq<int>, k: nat)
    requires DischargeCurve(t) && k < N_VOLTAGES
    ensures CellPercent(t, t[k]) == 100 - 5 * k
  {
    if 0 < k < N_INTERVALS {
      Decreasing(t, 0, k);
      Decreasing(t, k, N_INTERVALS);
      AnySegmentAgrees(t, k, t[k]);
    }
  }

  /** A higher per-cell voltage never gives a lower percentage. */
  lemma CellPercentMonotone(t: seq<int>, a: int, b: int)
    requires DischargeCurve(t) && a <= b
    ensures CellPercent(t, a) <= CellPercent(t, b)
  {
    if 3000 < a && b < 4200 {
      var i := SegmentFrom(t, a, 0);
      var j := SegmentFrom(t, b, 0);
      if i == j {
        InterpolateMonotone(t, i, a, b);
      } else {
        AcrossSegments(t, i, j, a, b);
      }
    }
  }

  /** A voltage on a lower segment gives at most the percentage of one on a higher
      segment. */
  lemma AcrossSegments(t: seq<int>, i: nat, j: nat, a: int, b: int)
    requires DischargeCurve(t) && i < N_INTERVALS && j < N_INTERVALS
    requires t[i + 1] <= a <= t[i] && t[j + 1] <= b <= t[j] && a <= b && i != j
    ensures Interpolate(t, i, a) <= Interpolate(t, j, b)
  {
    if i + 1 < j {
      Decreasing(t, i + 1, j);
    } else if j + 1 < i {
      Decreasing(t, j + 1, i);
    }
  }

  /** For a fixed, detected cell count the percentage is non-decreasing in the reading. */
  lemma PercentMonotone(a: int32, b: int32, cells: int)
    requires a <= b && cells >= 1
    ensures Percent(a, cells) <= Percent(b, cells)
  {
    VoltagesIsCurve();
    CDivMonotone(a, b, cells);
    CellPercentMonotone(VOLTAGES, CDiv(a, cells), CDiv(b, cells));
  }

  /** The "remaining" row above the table: 4200 mV per cell is 100 %, 3700 mV is 60 %,
      3000 mV is 0 %, and in general the k-th entry is 100 - 5k %. */
  lemma PercentAtVoltages(k: nat)
    requires k < N_VOLTAGES
    ensures Percent(VOLTAGES[k], 1) == 100 - 5 * k
  {
    VoltagesIsCurve();
    var v := VOLTAGES[k];
    assert v > 0;
    DivModUnique(v, v, 0, 1);
    assert CDiv(v, 1) == v;
    PercentAtTablePoint(VOLTAGES, k);
  }

  datatype Reading = Reading(cells: int, percent: int)

  /** `batt_get_percent`: detect the cell count while `batt_cells` is still negative (it
      starts at -1), then compute the percentage; the new value of `batt_cells` is
      returned with it. A cell count of 0 never arises and would divide by zero. */
  method GetPercent(cells: int, millivolts: int32) returns (r: Reading)
    requires cells != 0
    ensures cells > 0 ==> r.cells == cells
    ensures cells < 0 ==> r.cells == EstimateCells(millivolts)
    ensures r.cells != 0
    ensures r.percent == Percent(millivolts, r.cells)
  {
    var n := cells;
    if n < 0 {
      n := EstimateCells(millivolts);
      EstimateCellsClosedForm(millivolts);
    }
    VoltagesIsCurve();
    var p := CalcPercent(VOLTAGES, millivolts, n);
    r := Reading(n, p);
  }
}
