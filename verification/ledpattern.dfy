/** The LED patterns of the scooter: each pattern writes colour words into `led_data`,
    which is wired as a side strip, the front, the other side strip (mirrored), and a
    bottom strip folded in the middle, so that bottom LED `i` appears at both
    `B - 1 - i` and `B + i`.

    Each pattern is a method on the LED array (a sequence of words); its contract gives
    the final word at every index it writes, in terms of a per-index reference, and
    says that no other index changes. The arrays must cover the whole strip of
    `STRIP_LEN` = 79 LEDs. */
module LedPattern {
  import opened MachineInt
  import opened Common
  import FixedMath
  import Color
  import Ws2812

  /** The end of the second side strip and the fold of the bottom strip. */
  const SIDES_END: nat := N_SIDE + N_FRONT + N_SIDE
  const B: nat := N_SIDE + N_FRONT + N_SIDE + N_BOTTOM
  /** Every LED the patterns address: 2 * 11 + 5 + 2 * 26. */
  const STRIP_LEN: nat := 2 * N_SIDE + N_FRONT + 2 * N_BOTTOM

  /** Where LED `i` of the second side strip sits: it mirrors LED `i` of the first. */
  function SideMirror(i: nat): nat
    requires i < N_SIDE
  {
    N_SIDE + N_FRONT + N_SIDE - 1 - i
  }

  function FrontLed(i: nat): nat { i + N_SIDE }

  /** The two halves of the folded bottom strip. */
  function BottomLow(i: nat): nat
    requires i < N_BOTTOM
  {
    B - 1 - i
  }

  function BottomHigh(i: nat): nat { B + i }

  /** The regions of the strip. */
  predicate InSide1(k: int) { 0 <= k < N_SIDE }
  predicate InFront(k: int) { N_SIDE <= k < N_SIDE + N_FRONT }
  predicate InSide2(k: int) { N_SIDE + N_FRONT <= k < SIDES_END }
  predicate InBottom(k: int) { SIDES_END <= k < STRIP_LEN }

  // ---------------------------------------------------------------------------------
  // show_cell

  /** `show_cell`: which of the five front LEDs show the cell count. One to three cells
      are drawn centred: LED i lights when it is less than `batt_cells` away from the
      centre LED 2 and has the parity that centres the group. Four or more cells light
      the first `batt_cells` LEDs, and an unknown (-1) or non-positive count lights none. */
  function ShowCell(battCells: int, i: int): (lit: bool)
    ensures 1 <= battCells <= 3 ==>
      (lit <==> Abs(i - 2) < battCells && (i + battCells + 1) % 2 == 0)
    ensures battCells >= 4 && 0 <= i ==> (lit <==> i < battCells)
    ensures battCells <= 0 && 0 <= i ==> !lit
  {
    if battCells == -1 then false
    else if battCells == 1 then i == 2
    else if battCells == 2 then i == 1 || i == 3
    else if battCells == 3 then i == 0 || i == 2 || i == 4
    else i < battCells
  }

  /** The front LEDs `show_cell` lights for a cell count. */
  function LitCells(battCells: int): (s: set<int>)
    ensures forall i :: i in s <==> 0 <= i < N_FRONT && ShowCell(battCells, i)
  {
    set i | 0 <= i < N_FRONT && ShowCell(battCells, i)
  }

  /** The front shows as many lit LEDs as there are cells, up to the five it has, and
      none for an unknown (-1) or impossible count; one to three cells and five or more
      are drawn symmetric about the centre LED. */
  lemma ShowCellCount(battCells: int)
    ensures |LitCells(battCells)| == if battCells < 0 then 0 else if battCells > 5 then 5 else battCells
    ensures battCells != 4 ==>
      forall i :: 0 <= i < N_FRONT ==> (ShowCell(battCells, i) <==> ShowCell(battCells, 4 - i))
  {
    var s := LitCells(battCells);
    if battCells <= 0 {
      assert s == {};
    } else if battCells == 1 {
      assert s == {2};
    } else if battCells == 2 {
      assert s == {1, 3};
    } else if battCells == 3 {
      assert s == {0, 2, 4};
    } else if battCells == 4 {
      assert s == {0, 1, 2, 3};
    } else {
      assert s == {0, 1, 2, 3, 4};
    }
  }

  // ---------------------------------------------------------------------------------
  // snake_value

  /** Whether `currpos` lies on the snake `[snakehead, snakehead + snakelen]`. */
  predicate OnSnake(currpos: int, snakehead: int, snakelen: int)
  {
    snakehead <= currpos <= snakehead + snakelen
  }

  /** The distance from `currpos` to the nearer end of the snake. */
  function SnakeDist(currpos: int, snakehead: int, snakelen: int): int
  {
    if currpos - snakehead < snakehead + snakelen - currpos then currpos - snakehead
    else snakehead + snakelen - currpos
  }

  /** The `int` arithmetic of `snake_value` does not overflow and does not divide by 0. */
  predicate SnakeDefined(currpos: int32, snakehead: int32, snakelen: int32, fadeout: int32, full: int32)
  {
    && (snakehead <= currpos ==> InInt32(snakehead + snakelen))
    && (OnSnake(currpos, snakehead, snakelen) ==>
          var dist := SnakeDist(currpos, snakehead, snakelen);
          && InInt32(currpos - snakehead) && InInt32(snakehead + snakelen - currpos)
          && fadeout != 0 && InInt32(full * dist) && InInt32(CDiv(full * dist, fadeout)))
  }

  lemma ShiftDownInInt32(q: int32)
    ensures InInt32(ShiftDown(q))
  {
    if q < 0 {
      DivModUnique(q, q / ONE, q % ONE, ONE);
    }
  }

  /** `snake_value`: zero off the snake; on it, a ramp from both ends, `full * dist /
      fadeout` in fixed point, capped at `full`. */
  function SnakeValue(currpos: int32, snakehead: int32, snakelen: int32, fadeout: int32, full: int32)
    : (r: int32)
    requires SnakeDefined(currpos, snakehead, snakelen, fadeout, full)
    ensures !OnSnake(currpos, snakehead, snakelen) ==> r == 0
    ensures OnSnake(currpos, snakehead, snakelen) && full >= 0 && fadeout > 0 ==> 0 <= r <= full
  {
    if snakehead <= currpos && currpos <= snakehead + snakelen then
      var dist := FixedMath.Min(currpos - snakehead, snakehead + snakelen - currpos);
      var q := CDiv(full * dist, fadeout);
      ShiftDownInInt32(q);
      if full >= 0 && fadeout > 0 then
        RampNonNegative(full, dist, fadeout);
        FixedMath.Min(ShiftDown(q), full)
      else
        FixedMath.Min(ShiftDown(q), full)
    else
      0
  }

  /** On the snake the ramp `(full * dist / fadeout) >> SHIFT` is not negative. */
  lemma RampNonNegative(full: int, dist: int, fadeout: int)
    requires full >= 0 && dist >= 0 && fadeout > 0
    ensures CDiv(full * dist, fadeout) >= 0 && ShiftDown(CDiv(full * dist, fadeout)) >= 0
  {
    MulMonotone(full, 0, dist);
    DivIdentity(CDiv(full * dist, fadeout), ONE);
  }

  /** The snake is symmetric: reflecting `currpos` about the snake's midpoint leaves the
      value unchanged. */
  lemma SnakeSymmetric(currpos: int32, snakehead: int32, snakelen: int32, fadeout: int32, full: int32)
    requires InInt32(2 * snakehead + snakelen - currpos)
    requires SnakeDefined(currpos, snakehead, snakelen, fadeout, full)
    requires SnakeDefined(2 * snakehead + snakelen - currpos, snakehead, snakelen, fadeout, full)
    ensures SnakeValue(2 * snakehead + snakelen - currpos, snakehead, snakelen, fadeout, full)
         == SnakeValue(currpos, snakehead, snakelen, fadeout, full)
  {
    var c' := 2 * snakehead + snakelen - currpos;
    assert c' - snakehead == snakehead + snakelen - currpos;
    assert snakehead + snakelen - c' == currpos - snakehead;
  }

  /** The snake's value grows with the distance from its nearer end until it reaches
      `full`. */
  lemma SnakeRamp(a: int32, b: int32, snakehead: int32, snakelen: int32, fadeout: int32, full: int32)
    requires full >= 0 && fadeout > 0
    requires OnSnake(a, snakehead, snakelen) && OnSnake(b, snakehead, snakelen)
    requires SnakeDefined(a, snakehead, snakelen, fadeout, full)
    requires SnakeDefined(b, snakehead, snakelen, fadeout, full)
    requires SnakeDist(a, snakehead, snakelen) <= SnakeDist(b, snakehead, snakelen)
    ensures SnakeValue(a, snakehead, snakelen, fadeout, full) <= SnakeValue(b, snakehead, snakelen, fadeout, full)
  {
    var da := SnakeDist(a, snakehead, snakelen);
    var db := SnakeDist(b, snakehead, snakelen);
    MulMonotone(full, da, db);
    RampNonNegative(full, da, fadeout);
    CDivMonotone(full * da, full * db, fadeout);
    DivMonotone(CDiv(full * da, fadeout), CDiv(full * db, fadeout), ONE);
  }

  // ---------------------------------------------------------------------------------
  // ledpattern_bat_empty

  const BATT_FLASH_PERIOD_LONG: nat := 2000
  const BATT_FLASH_PERIOD_SHORT: nat := 100
  const BATT_FLASH_N: nat := 2

  /** Flash `i` of the pair: two frames, at `100 i` and at `100 i + 8` (the second one
      two frames long), every 2000 frames. The remainders are C remainders, so negative
      times count as flashing. */
  predicate FlashAt(t: int, i: nat)
  {
    CMod(t - i * BATT_FLASH_PERIOD_SHORT, BATT_FLASH_PERIOD_LONG) < 1
    || CMod(t - i * BATT_FLASH_PERIOD_SHORT - 8, BATT_FLASH_PERIOD_LONG) < 2
  }

  /** The loop over `BATT_FLASH_N` = 2 flashes. */
  predicate Flash(t: int)
  {
    FlashAt(t, 0) || FlashAt(t, 1)
  }

  /** `t - i*100 - 8` must not overflow. */
  predicate FlashDefined(t: int32)
  {
    InInt32(t - BATT_FLASH_PERIOD_SHORT - 8)
  }

  const FLASH_COLOUR: uint32 := 0xff_0000
  const GLOW_COLOUR: uint32 := 0x00_0100

  /** The warning colour in the `g << 16 | r << 8 | b` packing: the flash is full green
      and the glow is red at level 1, whatever the source's comment calls them. */
  function BatEmptyColour(t: int32): (c: uint32)
    requires FlashDefined(t)
    ensures Flash(t) ==> Color.GreenOf(c) == 255 && Color.RedOf(c) == 0 && Color.BlueOf(c) == 0
    ensures !Flash(t) ==> Color.GreenOf(c) == 0 && Color.RedOf(c) == 1 && Color.BlueOf(c) == 0
  {
    if Flash(t) then FLASH_COLOUR else GLOW_COLOUR
  }

  /** A remainder window: `(t - c) % 2000 < k` exactly when `t % 2000` is in `[c, c+k)`. */
  lemma ModWindow(t: nat, c: nat, k: nat)
    requires c <= t && c + k <= BATT_FLASH_PERIOD_LONG
    ensures (t - c) % BATT_FLASH_PERIOD_LONG < k <==> c <= t % BATT_FLASH_PERIOD_LONG < c + k
  {
    var w := BATT_FLASH_PERIOD_LONG;
    var q := t / w;
    var r := t % w;
    DivIdentity(t, w);
    if r >= c {
      DivModUnique(t - c, q, r - c, w);
    } else {
      DivModUnique(t - c, q - 1, r - c + w, w);
    }
  }

  /** From frame 108 on, the flash is on in exactly six frames of every 2000: the double
      pulse `X-X` at 0, 8 and 9, and again 100 frames later. */
  lemma FlashFrames(t: int32)
    requires t >= 108
    ensures Flash(t) <==> t % 2000 in {0, 8, 9, 100, 108, 109}
  {
    CModNonNegative(t, BATT_FLASH_PERIOD_LONG);
    CModNonNegative(t - 8, BATT_FLASH_PERIOD_LONG);
    CModNonNegative(t - 100, BATT_FLASH_PERIOD_LONG);
    CModNonNegative(t - 108, BATT_FLASH_PERIOD_LONG);
    ModWindow(t, 0, 1);
    ModWindow(t, 8, 2);
    ModWindow(t, 100, 1);
    ModWindow(t, 108, 2);
  }

  /** What `ledpattern_bat_empty` leaves at index `k` of the strip: every third LED of
      each side strip (and its mirror) in the warning colour, the front showing the
      cells, and the bottom dark. */
  function BatEmptyAt(k: nat, colour: uint32, battCells: int): uint32
    requires k < STRIP_LEN
  {
    if InSide1(k) then (if k % 3 == 0 then colour else 0)
    else if InFront(k) then (if ShowCell(battCells, k - N_SIDE) then colour else 0)
    else if InSide2(k) then (if (SIDES_END - 1 - k) % 3 == 0 then colour else 0)
    else 0
  }

  /** `ledpattern_bat_empty`. */
  method BatEmpty(led: seq<uint32>, t: int32, battCells: int) returns (led': seq<uint32>)
    requires |led| >= STRIP_LEN && FlashDefined(t)
    ensures |led'| == |led|
    ensures forall k :: 0 <= k < STRIP_LEN ==> led'[k] == BatEmptyAt(k, BatEmptyColour(t), battCells)
    ensures forall k :: STRIP_LEN <= k < |led| ==> led'[k] == led[k]
  {
    var colour := BatEmptyColour(t);
    led' := led;
    for i := 0 to N_SIDE
      invariant |led'| == |led|
      invariant forall k :: 0 <= k < i ==> led'[k] == BatEmptyAt(k, colour, battCells)
      invariant forall k :: SIDES_END - i <= k < SIDES_END ==> led'[k] == BatEmptyAt(k, colour, battCells)
      invariant forall k :: i <= k < SIDES_END - i || SIDES_END <= k < |led| ==> led'[k] == led[k]
    {
      led' := led'[i := if i % 3 == 0 then colour else 0];
      led' := led'[SideMirror(i) := if i % 3 == 0 then colour else 0];
    }
    for i := 0 to N_FRONT
      invariant |led'| == |led|
      invariant forall k :: 0 <= k < N_SIDE || N_SIDE + N_FRONT <= k < SIDES_END ==>
        led'[k] == BatEmptyAt(k, colour, battCells)
      invariant forall k :: N_SIDE <= k < N_SIDE + i ==> led'[k] == BatEmptyAt(k, colour, battCells)
      invariant forall k :: SIDES_END <= k < |led| ==> led'[k] == led[k]
    {
      led' := led'[FrontLed(i) := if ShowCell(battCells, i) then colour else 0];
    }
    for i := 0 to N_BOTTOM
      invariant |led'| == |led|
      invariant forall k :: 0 <= k < SIDES_END ==> led'[k] == BatEmptyAt(k, colour, battCells)
      invariant forall k :: B - i <= k < B + i ==> led'[k] == 0
      invariant forall k :: STRIP_LEN <= k < |led| ==> led'[k] == led[k]
    {
      led' := led'[BottomLow(i) := 0];
      led' := led'[BottomHigh(i) := 0];
    }
  }

  /** The side strips mirror each other, lit at every third LED; the bottom is dark. */
  lemma BatEmptyShape(colour: uint32, battCells: int)
    requires colour != 0
    ensures forall i :: 0 <= i < N_SIDE ==>
      BatEmptyAt(i, colour, battCells) == BatEmptyAt(SideMirror(i), colour, battCells)
      && (BatEmptyAt(i, colour, battCells) != 0 <==> i % 3 == 0)
    ensures forall i :: 0 <= i < N_FRONT ==>
      (BatEmptyAt(FrontLed(i), colour, battCells) != 0 <==> ShowCell(battCells, i))
    ensures forall k :: SIDES_END <= k < STRIP_LEN ==> BatEmptyAt(k, colour, battCells) == 0
  {
  }

  /** The indices `ledpattern_bat_empty` writes, in the order its loops write them. */
  function BatEmptyWrites(): seq<int>
  {
    seq(N_SIDE, i => i) + seq(N_SIDE, i requires 0 <= i < N_SIDE => SideMirror(i))
    + seq(N_FRONT, i requires 0 <= i => FrontLed(i))
    + seq(N_BOTTOM, i requires 0 <= i < N_BOTTOM => BottomLow(i))
    + seq(N_BOTTOM, i requires 0 <= i => BottomHigh(i))
  }

  /** `ledpattern_bat_empty` writes every LED of the 79-LED strip and nothing beyond. */
  lemma BatEmptyCoversStrip()
    ensures |BatEmptyWrites()| == STRIP_LEN
    ensures forall k :: k in BatEmptyWrites() <==> 0 <= k < STRIP_LEN
  {
    var w := BatEmptyWrites();
    forall k | 0 <= k < STRIP_LEN
      ensures k in w
    {
      if k < N_SIDE {
        assert w[k] == k;
      } else if k < N_SIDE + N_FRONT {
        assert w[2 * N_SIDE + k - N_SIDE] == k;
      } else if k < SIDES_END {
        assert w[N_SIDE + SIDES_END - 1 - k] == k;
      } else if k < B {
        assert w[SIDES_END + B - 1 - k] == k;
      } else {
        assert w[SIDES_END + N_BOTTOM + k - B] == k;
      }
    }
  }

  // ---------------------------------------------------------------------------------
  // ledpattern_front_knightrider_brightness

  /** The sweep runs over 23 slots: the first side strip, one front LED, the second side
      strip. The snake is 7 slots long and its head travels twice the slot count. */
  const N_SLOTS: nat := N_SIDE + 1 + N_SIDE
  const FRONT_LED: nat := 0
  const SWEEP_LEN: int := 2 * N_SLOTS * ONE
  const SWEEP_SNAKE: int := 7 * ONE
  const SWEEP_FADEOUT: int := 3
  const SWEEP_FULL: int := 1000

  /** The LED a slot drives: slots 0..10 the first side strip, slot 11 the front LED
      `FRONT_LED`, slots 12..22 the second side strip from its near end. */
  function SlotLed(i: nat): nat
    requires i < N_SLOTS
  {
    if i < N_SIDE then i
    else if i == N_SIDE then N_SIDE + FRONT_LED
    else N_SIDE + N_FRONT + i - N_SIDE - 1
  }

  /** The slot that drives LED `k`, for the LEDs the sweep reaches. */
  function LedSlot(k: nat): nat
    requires k < SIDES_END && !(N_SIDE + 1 <= k < N_SIDE + N_FRONT)
  {
    if k <= N_SIDE then k else k - N_FRONT + 1
  }

  /** The slots drive LEDs 0..11 and 16..26, each exactly once and in increasing order:
      `LedSlot` inverts `SlotLed`, and front LEDs 12..15 are never a slot's LED. */
  lemma SlotLayout()
    ensures forall i :: 0 <= i < N_SLOTS ==>
      SlotLed(i) < SIDES_END && !(N_SIDE + 1 <= SlotLed(i) < N_SIDE + N_FRONT)
      && LedSlot(SlotLed(i)) == i
    ensures forall i, j :: 0 <= i < j < N_SLOTS ==> SlotLed(i) < SlotLed(j)
    ensures forall k :: 0 <= k < SIDES_END && !(N_SIDE + 1 <= k < N_SIDE + N_FRONT) ==>
      LedSlot(k) < N_SLOTS && SlotLed(LedSlot(k)) == k
  {
  }

  /** The snake head: `(15 * (t << SHIFT) / FPS) % fulllength`, a quarter slot per frame,
      evaluated in 64 bits with C division and remainder. */
  function SweepHead(t: int32): (h: int)
    ensures -SWEEP_LEN < h < SWEEP_LEN
    ensures t >= 0 ==> 0 <= h
  {
    CMod(CDiv(15 * (t * ONE), FPS), SWEEP_LEN)
  }

  /** From frame 0 on the head sits at `t` quarter slots, wrapped to the sweep length, so
      the sweep repeats every 184 frames. */
  lemma SweepHeadForward(t: int32)
    requires t >= 0
    ensures SweepHead(t) == (t * (ONE / 4)) % SWEEP_LEN
    ensures InInt32(t + 184) ==> SweepHead(t + 184 as int32) == SweepHead(t)
  {
    var x := QuarterSlots(t);
    CModNonNegative(x, SWEEP_LEN);
    if InInt32(t + 184) {
      var x' := QuarterSlots(t + 184);
      CModNonNegative(x', SWEEP_LEN);
      DivIdentity(x, SWEEP_LEN);
      DivModUnique(x', x / SWEEP_LEN + 1, x % SWEEP_LEN, SWEEP_LEN);
    }
  }

  /** `15 * (u << SHIFT) / FPS` is exactly `u` quarter slots. */
  lemma QuarterSlots(u: nat) returns (x: nat)
    ensures x == u * (ONE / 4) == u * 0x4000 && CDiv(15 * (u * ONE), FPS) == x
    ensures SWEEP_LEN == 184 * 0x4000
  {
    x := u * 0x4000;
    assert 15 * (u * 0x1_0000) == x * 60;
    DivModUnique(15 * (u * ONE), x, 0, FPS);
  }

  /** A snake of at most 8 slots with `full` up to 1000, near the origin, is evaluated
      without overflow. */
  lemma SnakeDefinedSmall(currpos: int32, snakehead: int32, snakelen: int32, fadeout: int32, full: int32)
    requires -0x1000_0000 <= currpos <= 0x1000_0000 && -0x1000_0000 <= snakehead <= 0x1000_0000
    requires 0 <= snakelen <= 8 * ONE && fadeout >= 1 && 0 <= full <= 1000
    ensures SnakeDefined(currpos, snakehead, snakelen, fadeout, full)
  {
    if OnSnake(currpos, snakehead, snakelen) {
      var dist := SnakeDist(currpos, snakehead, snakelen);
      assert 0 <= dist <= 4 * ONE;
      RampSmall(full, dist, fadeout);
    }
  }

  lemma RampSmall(full: int, dist: int, fadeout: int)
    requires 0 <= full <= 1000 && 0 <= dist <= 4 * ONE && fadeout >= 1
    ensures 0 <= full * dist <= 1000 * (4 * ONE) < 0x8000_0000
    ensures 0 <= CDiv(full * dist, fadeout) <= full * dist
  {
    MulMonotone(full, dist, 4 * ONE);
    MulMonotone(4 * ONE, full, 1000);
    RampNonNegative(full, dist, fadeout);
    DivAtMostSelf(full * dist, fadeout);
  }

  lemma DivAtMostSelf(a: int, d: int)
    requires a >= 0 && d >= 1
    ensures CDiv(a, d) <= a
  {
    DivIdentity(a, d);
    if a / d > a {
      MulAtLeast(d, a / d);
    }
  }

  /** The brightness of slot `i` before scaling: the larger of the snake, its mirror image
      from the far end, and the snake one sweep earlier. */
  function SweepValue(t: int32, i: nat): (v: int32)
    requires i < N_SLOTS
    ensures 0 <= v <= SWEEP_FULL
  {
    var head := SweepHead(t);
    var pos := i * ONE;
    SnakeDefinedSmall(pos, head, SWEEP_SNAKE, SWEEP_FADEOUT, SWEEP_FULL);
    SnakeDefinedSmall(SWEEP_LEN - pos, head, SWEEP_SNAKE, SWEEP_FADEOUT, SWEEP_FULL);
    SnakeDefinedSmall(pos, head - SWEEP_LEN, SWEEP_SNAKE, SWEEP_FADEOUT, SWEEP_FULL);
    FixedMath.Max(
      FixedMath.Max(SnakeValue(pos, head, SWEEP_SNAKE, SWEEP_FADEOUT, SWEEP_FULL),
                    SnakeValue(SWEEP_LEN - pos, head, SWEEP_SNAKE, SWEEP_FADEOUT, SWEEP_FULL)),
      SnakeValue(pos, head - SWEEP_LEN, SWEEP_SNAKE, SWEEP_FADEOUT, SWEEP_FULL))
  }

  /** Bright slots are washed out toward white: full saturation up to value 500, then
      down to 834 at value 1000. */
  function SweepSaturation(value: int32): (s: int32)
    requires 0 <= value <= SWEEP_FULL
    ensures 1000 - 166 <= s <= 1000
    ensures value < 503 <==> s == 1000
  {
    var excess := FixedMath.Max(0, value - 500);
    ThirdOfExcess(excess);
    1000 - CDiv(excess, 3)
  }

  lemma ThirdOfExcess(excess: int)
    requires 0 <= excess <= 500
    ensures 0 <= CDiv(excess, 3) <= 166
    ensures CDiv(excess, 3) == 0 <==> excess < 3
  {
    DivModUnique(500, 166, 2, 3);
    DivMonotone(excess, 500, 3);
    if excess >= 3 {
      DivMonotone(3, excess, 3);
    }
  }

  /** The word slot `i` shows: a red with the swept saturation and the value scaled by
      `brightness` / 1000. */
  function SweepColour(t: int32, i: nat, brightness: int32): (w: uint32)
    requires i < N_SLOTS && InInt32(1000 * brightness)
    ensures w < 0x100_0000
  {
    var v := SweepValue(t, i);
    ScaleInInt32(v, brightness);
    Color.Hsv2(0, SweepSaturation(v), ToUint32(CDiv(v * brightness, 1000)))
  }

  lemma ScaleInInt32(v: int, brightness: int)
    requires 0 <= v <= 1000 && InInt32(1000 * brightness)
    ensures InInt32(v * brightness)
  {
    if brightness >= 0 {
      MulMonotone(brightness, v, 1000);
      MulMonotone(brightness, 0, v);
    } else {
      MulMonotone(-brightness, v, 1000);
      MulMonotone(-brightness, 0, v);
    }
  }

  /** `ledpattern_front_knightrider_brightness`: front LEDs other than `FRONT_LED` go
      dark and every slot's LED gets its sweep colour. Only the first 27 LEDs are
      written. */
  method Knightrider(led: seq<uint32>, t: int32, brightness: int32) returns (led': seq<uint32>)
    requires |led| >= SIDES_END && InInt32(1000 * brightness)
    ensures |led'| == |led|
    ensures forall i :: 0 <= i < N_SLOTS ==> led'[SlotLed(i)] == SweepColour(t, i, brightness)
    ensures forall k :: N_SIDE + 1 <= k < N_SIDE + N_FRONT ==> led'[k] == 0
    ensures forall k :: SIDES_END <= k < |led| ==> led'[k] == led[k]
  {
    led' := DarkenFront(led);
    var colours := seq(N_SLOTS, i requires 0 <= i < N_SLOTS => SweepColour(t, i, brightness));
    led' := PaintSlots(led', colours);
  }

  /** The first loop: front LEDs 1..4 set to 0. */
  method DarkenFront(led: seq<uint32>) returns (led': seq<uint32>)
    requires |led| >= SIDES_END
    ensures |led'| == |led|
    ensures forall k :: N_SIDE + 1 <= k < N_SIDE + N_FRONT ==> led'[k] == 0
    ensures forall k :: 0 <= k < |led| && !(N_SIDE + 1 <= k < N_SIDE + N_FRONT) ==> led'[k] == led[k]
  {
    led' := led;
    for i := 0 to N_FRONT
      invariant |led'| == |led|
      invariant forall k :: N_SIDE + 1 <= k < N_SIDE + i ==> led'[k] == 0
      invariant forall k :: 0 <= k < |led| && !(N_SIDE + 1 <= k < N_SIDE + i) ==> led'[k] == led[k]
    {
      if i != FRONT_LED {
        led' := led'[i + N_SIDE := 0];
      }
    }
  }

  /** The second loop: slot `i`'s LED gets `colours[i]`. */
  method PaintSlots(led: seq<uint32>, colours: seq<uint32>) returns (led': seq<uint32>)
    requires |led| >= SIDES_END && |colours| == N_SLOTS
    ensures |led'| == |led|
    ensures forall i :: 0 <= i < N_SLOTS ==> led'[SlotLed(i)] == colours[i]
    ensures forall k :: N_SIDE + 1 <= k < N_SIDE + N_FRONT || SIDES_END <= k < |led| ==>
      led'[k] == led[k]
  {
    SlotLayout();
    led' := led;
    for i := 0 to N_SLOTS
      invariant |led'| == |led|
      invariant forall j :: 0 <= j < i ==> led'[SlotLed(j)] == colours[j]
      invariant forall k :: N_SIDE + 1 <= k < N_SIDE + N_FRONT || SIDES_END <= k < |led| ==>
        led'[k] == led[k]
    {
      led' := led'[SlotLed(i) := colours[i]];
    }
  }

  // ---------------------------------------------------------------------------------
  // The bottom patterns: mirrored writes

  /** Both halves of the folded bottom strip show the same colours. */
  ghost predicate Mirrored(led: seq<uint32>)
    requires |led| >= STRIP_LEN
  {
    forall i :: 0 <= i < N_BOTTOM ==> led[BottomLow(i)] == led[BottomHigh(i)]
  }

  /** The loop every bottom pattern ends in: bottom LED `i` gets `colours[i]` on both
      halves of the strip, and nothing outside the bottom changes. */
  method FillBottom(led: seq<uint32>, colours: seq<uint32>) returns (led': seq<uint32>)
    requires |led| >= STRIP_LEN && |colours| == N_BOTTOM
    ensures |led'| == |led| && Mirrored(led')
    ensures forall i :: 0 <= i < N_BOTTOM ==> led'[BottomLow(i)] == colours[i]
    ensures forall k :: 0 <= k < SIDES_END || STRIP_LEN <= k < |led| ==> led'[k] == led[k]
  {
    led' := led;
    for i := 0 to N_BOTTOM
      invariant |led'| == |led|
      invariant forall j :: 0 <= j < i ==>
        led'[BottomLow(j)] == colours[j] && led'[BottomHigh(j)] == colours[j]
      invariant forall k :: 0 <= k < B - i || B + i <= k < |led| ==> led'[k] == led[k]
    {
      led' := led'[BottomLow(i) := colours[i]];
      led' := led'[BottomHigh(i) := colours[i]];
    }
  }

  /** `(i << SHIFT) + pos0` for every bottom LED fits the 64-bit `fixed_t`. */
  predicate PositionsDefined(pos0: int64)
  {
    InInt64(pos0 + (N_BOTTOM - 1) * ONE)
  }

  /** The position of bottom LED `i`, in LEDs with 16 fraction bits. */
  function BottomPos(pos0: int64, i: nat): int64
    requires i < N_BOTTOM && PositionsDefined(pos0)
  {
    i * ONE + pos0
  }

  // ledpattern_bottom_3color

  /** The switch value `((pos / 30) >> SHIFT) % 3` of `ledpattern_bottom_3color`. */
  function Band(pos: int64): (b: int)
    ensures -2 <= b <= 2
    ensures pos >= 0 ==> 0 <= b
  {
    CMod(ShiftDown(CDiv(pos, 30)), 3)
  }

  /** The 3-colour word of a band: blue, green or red at `level` for bands 0, 1 and 2,
      and the grey 64 of the default arm otherwise. */
  function BandColour(band: int, level: int): (w: uint32)
    ensures w < 0x100_0000
    ensures var c := Color.ClampAndGamma(level);
      && (band == 0 ==> Color.RedOf(w) == 0 && Color.GreenOf(w) == 0 && Color.BlueOf(w) == c)
      && (band == 1 ==> Color.RedOf(w) == 0 && Color.GreenOf(w) == c && Color.BlueOf(w) == 0)
      && (band == 2 ==> Color.RedOf(w) == c && Color.GreenOf(w) == 0 && Color.BlueOf(w) == 0)
    ensures band !in {0, 1, 2} ==> w == Color.RgbG(64, 64, 64)
  {
    if band == 0 then Color.RgbG(0, 0, level)
    else if band == 1 then Color.RgbG(0, level, 0)
    else if band == 2 then Color.RgbG(level, 0, 0)
    else Color.RgbG(64, 64, 64)
  }

  /** The word `ledpattern_bottom_3color` gives position `pos`: its band's colour at
      `255 * brightness / 1000`. */
  function ThreeColourAt(pos: int64, brightness: int32): (w: uint32)
    requires InInt32(255 * brightness)
  {
    BandColour(Band(pos), CDiv(255 * brightness, 1000))
  }

  /** From position 0 on, the colour bands are 30 LEDs wide and cycle blue, green, red,
      so the grey arm is never taken and each LED shows one primary. */
  lemma BandForward(pos: int64)
    requires pos >= 0
    ensures Band(pos) == (pos / (30 * ONE)) % 3
    ensures 0 <= Band(pos) <= 2
  {
    var q := CDiv(pos, 30);
    assert q == pos / 30;
    DivDiv(pos, 30, ONE);
    CModNonNegative(ShiftDown(q), 3);
  }

  /** C's truncating `%` makes the switch value negative for some negative positions, and
      only there: the grey default arm is reachable, at position -30 for instance. */
  lemma BandDefaultArm()
    ensures forall pos: int64 :: Band(pos) !in {0, 1, 2} ==> pos < 0
    ensures Band(-30 * ONE) == -1
  {
    forall pos: int64 | pos >= 0
      ensures Band(pos) in {0, 1, 2}
    {
      BandForward(pos);
    }
    assert CDiv(-30 * ONE, 30) == -ONE;
    assert ShiftDown(-ONE) == -1;
  }

  /** `ledpattern_bottom_3color`. */
  method ThreeColour(led: seq<uint32>, pos0: int64, brightness: int32) returns (led': seq<uint32>)
    requires |led| >= STRIP_LEN && PositionsDefined(pos0) && InInt32(255 * brightness)
    ensures |led'| == |led| && Mirrored(led')
    ensures forall i :: 0 <= i < N_BOTTOM ==>
      led'[BottomLow(i)] == ThreeColourAt(BottomPos(pos0, i), brightness)
    ensures forall k :: 0 <= k < SIDES_END || STRIP_LEN <= k < |led| ==> led'[k] == led[k]
  {
    var colours := seq(N_BOTTOM, i requires 0 <= i < N_BOTTOM =>
      ThreeColourAt(BottomPos(pos0, i), brightness));
    led' := FillBottom(led, colours);
  }

  // ledpattern_bottom_rainbow and ledpattern_bottom_position_color

  /** A hue computed as `(x >> SHIFT)` in 64 bits, stored in an `int` and passed to the
      `uint32_t` parameter of `hsv2`: a hue that fits an `int` is passed unchanged if
      non-negative and as `2^32 + hue` if negative. */
  function Hue(x: int64): (h: uint32)
    ensures 0 <= ShiftDown(x) < 0x8000_0000 ==> h == ShiftDown(x)
    ensures -0x8000_0000 <= ShiftDown(x) < 0 ==> h == ShiftDown(x) + 0x1_0000_0000
  {
    var i := ToInt32(ShiftDown(x));
    if i < 0 then
      DivModUnique(i, -1, i + 0x1_0000_0000, 0x1_0000_0000);
      ToUint32(i)
    else ToUint32(i)
  }

  /** A full turn of hue in fixed point, `3600 << SHIFT`, gives the same colour, as long
      as the hue stays a non-negative `int`. */
  lemma HueTurn(x: int64, y: int, saturation: uint32, value: uint32)
    requires x >= 0 && ShiftDown(x) + 3600 < 0x8000_0000 && y == x + 3600 * ONE
    ensures InInt64(y)
    ensures Color.Hsv2(Hue(y), saturation, value) == Color.Hsv2(Hue(x), saturation, value)
  {
    var h := ShiftDown(x);
    DivIdentity(x, ONE);
    DivModUnique(y, h + 3600, x % ONE, ONE);
    assert Hue(y) == h + 3600 && Hue(x) == h;
    Color.Hsv2HuePeriodic(h, saturation, value);
  }

  /** `(velocity - (50 << SHIFT)) * 1000` does not overflow 64 bits. */
  predicate RainbowDefined(velocity: int64)
  {
    InInt64((velocity - 50 * ONE) * 1000)
  }

  /** The rainbow's saturation: full up to 50 LEDs per second, falling to 0 at 100. */
  function RainbowSaturation(velocity: int64): (s: int32)
    requires RainbowDefined(velocity)
    ensures 0 <= s <= 1000
  {
    1000 - FixedMath.Clamp(ToInt32(ShiftDown(CDiv((velocity - 50 * ONE) * 1000, 50))), 0, 1000)
  }

  /** Speeds of at most 50 LEDs per second keep full saturation; 100 and more wash the
      rainbow out to white (within 2^24 LEDs per second either way, where the `int`
      conversion keeps the value). */
  lemma RainbowDesaturates(velocity: int64)
    requires -0x100_0000 * ONE <= velocity <= 0x100_0000 * ONE
    ensures RainbowDefined(velocity)
    ensures velocity <= 50 * ONE ==> RainbowSaturation(velocity) == 1000
    ensures velocity >= 100 * ONE ==> RainbowSaturation(velocity) == 0
  {
    var x := (velocity - 50 * ONE) * 1000;
    var q := CDiv(x, 50);
    assert -0x200_0000 * ONE * 1000 <= x <= 0x100_0000 * ONE * 1000;
    assert Abs(q) <= 0x200_0000 * ONE * 20 by {
      DivModUnique(0x200_0000 * ONE * 1000, 0x200_0000 * ONE * 20, 0, 50);
      DivMonotone(Abs(x), 0x200_0000 * ONE * 1000, 50);
    }
    DivIdentity(Abs(q), ONE);
    if q >= 0 {
      DivMonotone(q, 0x200_0000 * ONE * 20, ONE);
      DivModUnique(0x200_0000 * ONE * 20, 0x200_0000 * 20, 0, ONE);
    } else {
      DivMonotone(-q, 0x200_0000 * ONE * 20, ONE);
      DivModUnique(0x200_0000 * ONE * 20, 0x200_0000 * 20, 0, ONE);
      DivModUnique(q, -((-q) / ONE) - (if (-q) % ONE == 0 then 0 else 1),
                   if (-q) % ONE == 0 then 0 else ONE - (-q) % ONE, ONE);
    }
    if velocity >= 100 * ONE {
      DivModUnique(50 * ONE * 1000, 1000 * ONE, 0, 50);
      DivMonotone(50 * ONE * 1000, x, 50);
      DivMonotone(1000 * ONE, q, ONE);
      DivModUnique(1000 * ONE, 1000, 0, ONE);
    }
  }

  /** `ledpattern_bottom_rainbow`'s word at position `pos`: the hue turns once every
      30 LEDs. */
  function RainbowColourAt(pos: int64, velocity: int64, brightness: int32): (w: uint32)
    requires InInt64(pos * 120) && RainbowDefined(velocity)
    ensures w < 0x100_0000
  {
    Color.Hsv2(Hue(pos * 120), ToUint32(RainbowSaturation(velocity)), ToUint32(brightness))
  }

  /** The rainbow repeats every 30 LEDs (while the hue stays a non-negative `int`). */
  lemma RainbowRepeats(pos: int64, velocity: int64, brightness: int32)
    requires pos >= 0 && InInt64(pos * 120) && RainbowDefined(velocity)
    requires ShiftDown(pos * 120) + 3600 < 0x8000_0000
    ensures InInt64(pos + 30 * ONE) && InInt64((pos + 30 * ONE) * 120)
    ensures RainbowColourAt(pos + 30 * ONE, velocity, brightness) == RainbowColourAt(pos, velocity, brightness)
  {
    HueTurn(pos * 120, (pos + 30 * ONE) * 120, ToUint32(RainbowSaturation(velocity)), ToUint32(brightness));
  }

  /** `ledpattern_bottom_rainbow`. */
  method Rainbow(led: seq<uint32>, pos0: int64, velocity: int64, brightness: int32)
    returns (led': seq<uint32>)
    requires |led| >= STRIP_LEN && PositionsDefined(pos0) && RainbowDefined(velocity)
    requires forall i :: 0 <= i < N_BOTTOM ==> InInt64(BottomPos(pos0, i) * 120)
    ensures |led'| == |led| && Mirrored(led')
    ensures forall i :: 0 <= i < N_BOTTOM ==>
      led'[BottomLow(i)] == RainbowColourAt(BottomPos(pos0, i), velocity, brightness)
    ensures forall k :: 0 <= k < SIDES_END || STRIP_LEN <= k < |led| ==> led'[k] == led[k]
  {
    var colours := seq(N_BOTTOM, i requires 0 <= i < N_BOTTOM =>
      RainbowColourAt(BottomPos(pos0, i), velocity, brightness));
    led' := FillBottom(led, colours);
  }

  /** `ledpattern_bottom_position_color`'s single word: the hue turns once every 300
      LEDs travelled, at full saturation. */
  function PositionColourOf(pos0: int64, brightness: int32): (w: uint32)
    requires InInt64(pos0 * 12)
    ensures w < 0x100_0000
  {
    Color.Hsv2(Hue(pos0 * 12), 1000, ToUint32(brightness))
  }

  /** The position colour repeats every 300 LEDs travelled. */
  lemma PositionColourRepeats(pos0: int64, brightness: int32)
    requires pos0 >= 0 && InInt64(pos0 * 12) && ShiftDown(pos0 * 12) + 3600 < 0x8000_0000
    ensures InInt64(pos0 + 300 * ONE) && InInt64((pos0 + 300 * ONE) * 12)
    ensures PositionColourOf(pos0 + 300 * ONE, brightness) == PositionColourOf(pos0, brightness)
  {
    HueTurn(pos0 * 12, (pos0 + 300 * ONE) * 12, 1000, ToUint32(brightness));
  }

  /** `ledpattern_bottom_position_color`: the whole bottom in one colour. */
  method PositionColour(led: seq<uint32>, pos0: int64, brightness: int32) returns (led': seq<uint32>)
    requires |led| >= STRIP_LEN && InInt64(pos0 * 12)
    ensures |led'| == |led| && Mirrored(led')
    ensures forall k :: SIDES_END <= k < STRIP_LEN ==> led'[k] == PositionColourOf(pos0, brightness)
    ensures forall k :: 0 <= k < SIDES_END || STRIP_LEN <= k < |led| ==> led'[k] == led[k]
  {
    led' := FillBottomUniform(led, PositionColourOf(pos0, brightness));
  }

  /** `FillBottom` with one colour for every bottom LED. */
  method FillBottomUniform(led: seq<uint32>, w: uint32) returns (led': seq<uint32>)
    requires |led| >= STRIP_LEN
    ensures |led'| == |led| && Mirrored(led')
    ensures forall k :: SIDES_END <= k < STRIP_LEN ==> led'[k] == w
    ensures forall k :: 0 <= k < SIDES_END || STRIP_LEN <= k < |led| ==> led'[k] == led[k]
  {
    led' := FillBottom(led, seq(N_BOTTOM, _ => w));
    forall k | SIDES_END <= k < STRIP_LEN
      ensures led'[k] == w
    {
      if k < B {
        assert led'[BottomLow(B - 1 - k)] == w;
      } else {
        assert led'[BottomHigh(k - B)] == w;
      }
    }
  }

  // ledpattern_bottom_velocity_color

  /** The two statics of `ledpattern_bottom_velocity_color`: the last positive velocity
      and the smoothed brightness. */
  datatype VelocityState = VelocityState(saved: int64, smooth: int32)

  const VELOCITY_INIT: VelocityState := VelocityState(0, 0)

  /** What the statics keep between frames: a non-negative velocity and a brightness
      within 0..1000. */
  predicate VelocityInv(s: VelocityState)
  {
    s.saved >= 0 && 0 <= s.smooth <= 1000
  }

  /** The 64-bit products of one frame do not overflow. */
  predicate VelocityDefined(saved: int64, velocity: int64)
  {
    && InInt64(1000 * (velocity - 10 * ONE))
    && InInt64(3600 * CDiv(saved, 200))
    && InInt64(500 * saved)
  }

  /** The brightness the current speed asks for: off up to 10 LEDs per second, full from
      100. */
  function InstantValue(velocity: int64): (v: int32)
    requires InInt64(1000 * (velocity - 10 * ONE))
    ensures 0 <= v <= 1000
  {
    FixedMath.Clamp(ToInt32(ShiftDown(CDiv(1000 * (velocity - 10 * ONE), 90))), 0, 1000)
  }

  /** `value_smooth += (instant_value - value_smooth) / 30`: the smoothed brightness moves
      a thirtieth of the way toward the target, never past it, and stays put only when
      the gap is under 30. */
  function Smooth(smooth: int32, target: int32): (r: int32)
    requires 0 <= smooth <= 1000 && 0 <= target <= 1000
    ensures smooth <= target ==> smooth <= r <= target
    ensures target <= smooth ==> target <= r <= smooth
    ensures r == smooth <==> -30 < target - smooth < 30
  {
    var d := target - smooth;
    ThirtiethOfGap(d);
    smooth + CDiv(d, 30)
  }

  lemma ThirtiethOfGap(d: int)
    requires -1000 <= d <= 1000
    ensures Abs(CDiv(d, 30)) <= Abs(d)
    ensures CDiv(d, 30) == 0 <==> -30 < d < 30
  {
    DivAtMost(Abs(d), 30);
    if Abs(d) >= 30 {
      DivMonotone(30, Abs(d), 30);
    }
  }

  lemma DivAtMost(a: nat, d: nat)
    requires d >= 1
    ensures a / d <= a
  {
    DivIdentity(a, d);
    if a / d > a {
      MulAtLeast(d, a / d);
    }
  }

  /** One frame's update of the statics. */
  function VelocityStep(s: VelocityState, velocity: int64): (s': VelocityState)
    requires VelocityInv(s) && InInt64(1000 * (velocity - 10 * ONE))
    ensures VelocityInv(s')
    ensures velocity > 0 ==> s'.saved == velocity
    ensures velocity <= 0 ==> s'.saved == s.saved
  {
    VelocityState(if velocity > 0 then velocity else s.saved, Smooth(s.smooth, InstantValue(velocity)))
  }

  /** The saturation falls with the remembered speed: full when standing, white from 300
      LEDs per second on. */
  function VelocitySaturation(saved: int64): (sat: int32)
    requires InInt64(500 * saved)
    ensures 0 <= sat <= 1000
  {
    1000 - FixedMath.Clamp(ToInt32(ShiftDown(CDiv(500 * saved, 150))), 0, 1000)
  }

  /** The hue: one turn per 10 minutes, plus one turn per 200 LEDs per second of the
      remembered speed (`3600 * (velocity_saved / 200) >> SHIFT`, the product first). */
  function VelocityHue(t: int32, saved: int64): int
    requires InInt64(3600 * CDiv(saved, 200))
  {
    CDiv(t * (3600 / 600), FPS) + ToInt32(ShiftDown(3600 * CDiv(saved, 200)))
  }

  /** `t * 6` and `base_hue + velo_hue` are `int` arithmetic. */
  predicate VelocityHueDefined(t: int32, saved: int64)
  {
    InInt32(t * 6) && InInt64(3600 * CDiv(saved, 200)) && InInt32(VelocityHue(t, saved))
  }

  /** The colour of the frame, from the updated statics. */
  function VelocityColourOf(t: int32, s: VelocityState, brightness: int32): (w: uint32)
    requires VelocityInv(s) && InInt64(500 * s.saved) && VelocityHueDefined(t, s.saved)
    requires InInt32(1000 * brightness)
    ensures w < 0x100_0000
  {
    ScaleInInt32(s.smooth, brightness);
    Color.Hsv2(ToUint32(VelocityHue(t, s.saved)), ToUint32(VelocitySaturation(s.saved)),
               ToUint32(CDiv(s.smooth * brightness, 1000)))
  }

  /** The saved velocity only ever holds a positive speed or the initial 0, so the
      saturation stays full until the scooter has moved, and when it stands still the
      brightness decays toward 0. */
  lemma VelocityStandingStill(s: VelocityState, velocity: int64)
    requires VelocityInv(s) && InInt64(1000 * (velocity - 10 * ONE))
    requires 0 <= velocity <= 10 * ONE
    ensures VelocitySaturation(VELOCITY_INIT.saved) == 1000
    ensures InstantValue(velocity) == 0
    ensures VelocityStep(s, velocity).smooth <= s.smooth
  {
    var x := 1000 * (velocity - 10 * ONE);
    assert x <= 0;
    var q := CDiv(x, 90);
    assert q <= 0;
    assert x >= -1000 * (10 * ONE) && q >= x;
    assert -0x8000_0000 <= ShiftDown(q) <= 0;
    DivModUnique(0, 0, 0, ONE);
  }

  /** `ledpattern_bottom_velocity_color`: the statics advance by one frame and the whole
      bottom shows the one colour they give. */
  method VelocityColour(led: seq<uint32>, s: VelocityState, t: int32, velocity: int64, brightness: int32)
    returns (led': seq<uint32>, s': VelocityState)
    requires |led| >= STRIP_LEN && VelocityInv(s)
    requires VelocityDefined(if velocity > 0 then velocity else s.saved, velocity)
    requires VelocityHueDefined(t, if velocity > 0 then velocity else s.saved)
    requires InInt32(1000 * brightness)
    ensures s' == VelocityStep(s, velocity) && VelocityInv(s')
    ensures |led'| == |led| && Mirrored(led')
    ensures forall k :: SIDES_END <= k < STRIP_LEN ==> led'[k] == VelocityColourOf(t, s', brightness)
    ensures forall k :: 0 <= k < SIDES_END || STRIP_LEN <= k < |led| ==> led'[k] == led[k]
  {
    s' := VelocityStep(s, velocity);
    led' := FillBottomUniform(led, VelocityColourOf(t, s', brightness));
  }

  /** The patterns address LED 78, but `firmware/src/ws2812.h` declares `led_data` with
      `LED_COUNT` = 50 entries: indices 50 to 78 lie beyond the array. */
  lemma HeaderArrayTooShort()
    ensures BottomHigh(N_BOTTOM - 1) == 78 && 78 in BatEmptyWrites()
    ensures Ws2812.MAIN_LED_COUNT == 50 < STRIP_LEN == 79
    ensures !(78 < Ws2812.MAIN_LED_COUNT)
  {
    BatEmptyCoversStrip();
  }
}
