/** Colour helpers of the firmware: the gamma table, `clamp_and_gamma`, the `RGB`/`RGBg`
    packing macros and the integer HSV conversions `hsv` and `hsv2`.

    A colour word is laid out as 0x00GGRRBB: blue in bits 0-7, red in bits 8-15 and
    green in bits 16-23, the order in which the LED chips expect the bytes on the wire
    (most significant first). */
module Color {
  import opened MachineInt

  /** The 256-entry gamma table, kept in the 16-entries-per-row layout of the source;
      `Gamma8(i)` is entry i of the flat table. */
  const GAMMA8_ROWS: seq<seq<uint8>> :=
    [
      [  0,   0,   0,   0,   0,   0,   0,   0,   0,   0,   0,   0,   0,   0,   0,   0],
      [  0,   0,   0,   0,   0,   0,   0,   0,   0,   0,   0,   0,   1,   1,   1,   1],
      [  1,   1,   1,   1,   1,   1,   1,   1,   1,   2,   2,   2,   2,   2,   2,   2],
      [  2,   3,   3,   3,   3,   3,   3,   3,   4,   4,   4,   4,   4,   5,   5,   5],
      [  5,   6,   6,   6,   6,   7,   7,   7,   7,   8,   8,   8,   9,   9,   9,  10],
      [ 10,  10,  11,  11,  11,  12,  12,  13,  13,  13,  14,  14,  15,  15,  16,  16],
      [ 17,  17,  18,  18,  19,  19,  20,  20,  21,  21,  22,  22,  23,  24,  24,  25],
      [ 25,  26,  27,  27,  28,  29,  29,  30,  31,  32,  32,  33,  34,  35,  35,  36],
      [ 37,  38,  39,  39,  40,  41,  42,  43,  44,  45,  46,  47,  48,  49,  50,  50],
      [ 51,  52,  54,  55,  56,  57,  58,  59,  60,  61,  62,  63,  64,  66,  67,  68],
      [ 69,  70,  72,  73,  74,  75,  77,  78,  79,  81,  82,  83,  85,  86,  87,  89],
      [ 90,  92,  93,  95,  96,  98,  99, 101, 102, 104, 105, 107, 109, 110, 112, 114],
      [115, 117, 119, 120, 122, 124, 126, 127, 129, 131, 133, 135, 137, 138, 140, 142],
      [144, 146, 148, 150, 152, 154, 156, 158, 160, 162, 164, 167, 169, 171, 173, 175],
      [177, 180, 182, 184, 186, 189, 191, 193, 196, 198, 200, 203, 205, 208, 210, 213],
      [215, 218, 220, 223, 225, 228, 231, 233, 236, 239, 241, 244, 247, 249, 252, 255]
    ]

  function Gamma8(i: nat): uint8
    requires i < 256
  {
    GAMMA8_ROWS[i / 16][i % 16]
  }

  predicate NonDecreasingFrom(s: seq<int>, i: nat)
    decreases |s| - i
  {
    i + 1 >= |s| || (s[i] <= s[i + 1] && NonDecreasingFrom(s, i + 1))
  }

  lemma {:induction false} NonDecreasingFromMeans(s: seq<int>, i: nat, a: nat, b: nat)
    requires NonDecreasingFrom(s, i) && i <= a <= b < |s|
    ensures s[a] <= s[b]
    decreases b - i
  {
    if a < b {
      if i < a {
        NonDecreasingFromMeans(s, i + 1, a, b);
      } else {
        NonDecreasingFromMeans(s, i + 1, a + 1, b);
      }
    }
  }

  /** A 16 x 16 table read row by row is non-decreasing: every row is, and every row
      ends no higher than the next one starts. */
  ghost predicate SortedTable(t: seq<seq<int>>)
  {
    && |t| == 16
    && (forall r :: 0 <= r < 16 ==> |t[r]| == 16 && NonDecreasingFrom(t[r], 0))
    && (forall r :: 0 <= r < 15 ==> t[r][15] <= t[r + 1][0])
  }

  /** In a sorted table, flat entry i is at most flat entry i + 1. */
  lemma TableStep(t: seq<seq<int>>, i: nat)
    requires SortedTable(t) && i < 255
    ensures t[i / 16][i % 16] <= t[(i + 1) / 16][(i + 1) % 16]
  {
    DivIdentity(i, 16);
    if i % 16 < 15 {
      DivModUnique(i + 1, i / 16, i % 16 + 1, 16);
      NonDecreasingFromMeans(t[i / 16], 0, i % 16, i % 16 + 1);
    } else {
      DivModUnique(i + 1, i / 16 + 1, 0, 16);
    }
  }

  lemma Gamma8Sorted()
    ensures SortedTable(GAMMA8_ROWS)
  {
    Gamma8RowsSortedLow();
    Gamma8RowsSortedHigh();
    Gamma8RowsJoin();
  }

  lemma Gamma8RowsJoin()
    ensures forall r :: 0 <= r < 15 ==> GAMMA8_ROWS[r][15] <= GAMMA8_ROWS[r + 1][0]
  {
  }

  lemma Gamma8RowsSortedLow()
    ensures forall r :: 0 <= r < 8 ==> |GAMMA8_ROWS[r]| == 16 && NonDecreasingFrom(GAMMA8_ROWS[r], 0)
  {
  }

  lemma Gamma8RowsSortedHigh()
    ensures forall r :: 8 <= r < 16 ==> |GAMMA8_ROWS[r]| == 16 && NonDecreasingFrom(GAMMA8_ROWS[r], 0)
  {
  }

  /** Neighbouring gamma entries never decrease. */
  lemma Gamma8Step(i: nat)
    requires i < 255
    ensures Gamma8(i) <= Gamma8(i + 1)
  {
    Gamma8Sorted();
    TableStep(GAMMA8_ROWS, i);
  }

  /** The gamma table is monotone, starts at 0 and ends at 255. */
  lemma {:induction false} Gamma8Monotone(i: nat, j: nat)
    requires i <= j < 256
    ensures Gamma8(i) <= Gamma8(j)
    ensures Gamma8(0) == 0 && Gamma8(255) == 255
    decreases j - i
  {
    if i < j {
      Gamma8Step(i);
      Gamma8Monotone(i + 1, j);
    }
  }

  /** `clamp_and_gamma`: clamp into 0..255, then look up the gamma table. */
  function ClampAndGamma(val: int): (r: uint8)
    ensures val <= 0 ==> r == 0
    ensures val >= 255 ==> r == 255
    ensures 0 <= val <= 255 ==> r == Gamma8(val)
  {
    Gamma8Values();
    Gamma8(if val < 0 then 0 else if val > 255 then 255 else val)
  }

  /** Since the table is sorted and the index clamped, the result is monotone in the
      input. */
  lemma ClampAndGammaMonotone(a: int, b: int)
    requires a <= b
    ensures ClampAndGamma(a) <= ClampAndGamma(b)
  {
    var i := if a < 0 then 0 else if a > 255 then 255 else a;
    var j := if b < 0 then 0 else if b > 255 then 255 else b;
    Gamma8Monotone(i, j);
  }

  /** The `RGB(r,g,b)` macro, `(r << 8) | b | (g << 16)`: for byte-sized components
      the three fields do not overlap, so the bitwise or is a sum. */
  function Rgb(r: uint8, g: uint8, b: uint8): (w: uint32)
    ensures RedOf(w) == r && GreenOf(w) == g && BlueOf(w) == b
    ensures w < 0x100_0000
  {
    var w := g * 0x1_0000 + r * 0x100 + b;
    DivModUnique(w, g * 0x100 + r, b, 0x100);
    DivModUnique(g * 0x100 + r, g, r, 0x100);
    DivModUnique(w, g, r * 0x100 + b, 0x1_0000);
    w
  }

  function RedOf(w: uint32): uint8 { (w / 0x100) % 0x100 }
  function GreenOf(w: uint32): uint8 { (w / 0x1_0000) % 0x100 }
  function BlueOf(w: uint32): uint8 { w % 0x100 }

  /** Every 24-bit word is the packing of its own components. */
  lemma RgbRepack(w: uint32)
    requires w < 0x100_0000
    ensures Rgb(RedOf(w), GreenOf(w), BlueOf(w)) == w
  {
    var b := w % 0x100;
    var hi := w / 0x100;
    var r := hi % 0x100;
    var g := hi / 0x100;
    DivIdentity(w, 0x100);
    DivIdentity(hi, 0x100);
    DivDiv(w, 0x100, 0x100);
    assert g == w / 0x1_0000 < 0x100;
    DivModUnique(g, 0, g, 0x100);
    assert RedOf(w) == r && GreenOf(w) == g && BlueOf(w) == b;
    assert w == g * 0x1_0000 + r * 0x100 + b;
  }


  /** The `RGBg(r,g,b)` macro: each channel clamped and gamma-corrected, then packed. */
  function RgbG(r: int, g: int, b: int): (w: uint32)
    ensures w < 0x100_0000
    ensures RedOf(w) == ClampAndGamma(r)
    ensures GreenOf(w) == ClampAndGamma(g)
    ensures BlueOf(w) == ClampAndGamma(b)
  {
    Rgb(ClampAndGamma(r), ClampAndGamma(g), ClampAndGamma(b))
  }

  /** `uint32_t` multiplication and subtraction wrap modulo 2^32. */
  function Mul32(a: uint32, b: uint32): uint32 { (a * b) % 0x1_0000_0000 }
  function Sub32(a: uint32, b: uint32): uint32 { (a - b) % 0x1_0000_0000 }

  /** `value * k * 255 / 1000000` evaluated in `uint32_t`. */
  function Scale(value: uint32, k: uint32): uint32
  {
    Mul32(Mul32(value, k), 255) / 1000000
  }

  /** `1000 - saturation * x / 600` evaluated in `uint32_t`. */
  function Reduce(saturation: uint32, x: uint32): uint32
  {
    Sub32(1000, Mul32(saturation, x) / 600)
  }

  /** The uint32 intermediate levels of `hsv`: sector `hi`, and the p, q, t, v levels. */
  datatype Levels = Levels(hi: nat, p: uint32, q: uint32, t: uint32, v: uint32)

  function HsvLevels(hue: uint32, saturation: uint32, value: uint32): (l: Levels)
    ensures l.hi < 6
  {
    var h := hue % 3600;
    var f := h % 600;
    Levels(
      h / 600,
      Scale(value, Sub32(1000, saturation)),
      Scale(value, Reduce(saturation, f)),
      Scale(value, Reduce(saturation, 600 - f)),
      Mul32(value, 255) / 1000)
  }

  /** A `uint32_t` level passed to `clamp_and_gamma(int)`, with the green channel's 4/5 scaling. */
  function Level(x: uint32): int32 { ToInt32(x) }
  function GreenLevel(x: uint32): int32 { ToInt32(Mul32(x, 4) / 5) }

  /** The three channel levels handed to `RGBg` in each sector of `hsv`, before gamma. */
  datatype Channels = Channels(red: int, green: int, blue: int)

  /** The sector switch of `hsv`: which level drives which channel. Green is always
      scaled by 4/5. Around the hexagon the full level v sits on red in sectors 5 and 0,
      on green in 1 and 2 and on blue in 3 and 4, and the floor p on the opposite
      channel; with byte-sized levels every channel is a byte and green at most 204. */
  function SectorChannels(l: Levels): (c: Channels)
    ensures l.hi in {5, 0} ==> c.red == Level(l.v)
    ensures l.hi in {1, 2} ==> c.green == GreenLevel(l.v)
    ensures l.hi in {3, 4} ==> c.blue == Level(l.v)
    ensures l.hi in {2, 3} ==> c.red == Level(l.p)
    ensures l.hi in {4, 5} ==> c.green == GreenLevel(l.p)
    ensures l.hi in {0, 1} ==> c.blue == Level(l.p)
    ensures l.p <= 255 && l.q <= 255 && l.t <= 255 && l.v <= 255 ==>
      0 <= c.red <= 255 && 0 <= c.green <= 204 && 0 <= c.blue <= 255
  {
    LevelSmall(l.p);
    LevelSmall(l.q);
    LevelSmall(l.t);
    LevelSmall(l.v);

    if l.hi == 0 then Channels(Level(l.v), GreenLevel(l.t), Level(l.p))
    else if l.hi == 1 then Channels(Level(l.q), GreenLevel(l.v), Level(l.p))
    else if l.hi == 2 then Channels(Level(l.p), GreenLevel(l.v), Level(l.t))
    else if l.hi == 3 then Channels(Level(l.p), GreenLevel(l.q), Level(l.v))
    else if l.hi == 4 then Channels(Level(l.t), GreenLevel(l.p), Level(l.v))
    else Channels(Level(l.v), GreenLevel(l.p), Level(l.q))
  }

  /** `hsv`: hexagonal HSV to a gamma-corrected 0x00GGRRBB word. */
  function Hsv(hue: uint32, saturation: uint32, value: uint32): (w: uint32)
    ensures w < 0x100_0000
  {
    var c := SectorChannels(HsvLevels(hue, saturation, value));
    RgbG(c.red, c.green, c.blue)
  }

  lemma MulBound(a: int, b: int, x: int, y: int)
    requires 0 <= a <= x && 0 <= b <= y
    ensures 0 <= a * b <= x * y
  {
    assert a * b <= x * b;
    assert x * b <= x * y;
  }

  /** For value and factor at most 1000, `Scale` does not wrap and stays within a byte. */
  lemma ScaleInRange(value: uint32, k: uint32)
    requires value <= 1000 && k <= 1000
    ensures Scale(value, k) == value * k * 255 / 1000000 <= 255
  {
    MulBound(value, k, 1000, 1000);
    MulBound(value * k, 255, 1000000, 255);
    DivModUnique(255000000, 255, 0, 1000000);
    DivMonotone(value * k * 255, 255000000, 1000000);
  }

  lemma ReduceInRange(saturation: uint32, x: uint32)
    requires saturation <= 1000 && x <= 600
    ensures Reduce(saturation, x) == 1000 - saturation * x / 600 <= 1000
  {
    MulBound(saturation, x, 1000, 600);
    DivMonotone(saturation * x, 600000, 600);
  }

  /** With saturation and value at most 1000 no `uint32_t` operation of `hsv` wraps,
      and every level lies in 0..255. */
  lemma HsvLevelsInRange(hue: uint32, saturation: uint32, value: uint32)
    requires saturation <= 1000 && value <= 1000
    ensures var l := HsvLevels(hue, saturation, value);
      && l.p == value * (1000 - saturation) * 255 / 1000000
      && l.v == value * 255 / 1000
      && (var f := (hue % 3600) % 600;
          && l.q == value * (1000 - saturation * f / 600) * 255 / 1000000
          && l.t == value * (1000 - saturation * (600 - f) / 600) * 255 / 1000000)
      && l.p <= 255 && l.q <= 255 && l.t <= 255 && l.v <= 255
  {
    var f := (hue % 3600) % 600;
    PLevelInRange(saturation, value);
    ReducedLevelInRange(saturation, value, f);
    ReducedLevelInRange(saturation, value, 600 - f);
    VLevelInRange(value);
  }

  lemma PLevelInRange(saturation: uint32, value: uint32)
    requires saturation <= 1000 && value <= 1000
    ensures Scale(value, Sub32(1000, saturation)) == value * (1000 - saturation) * 255 / 1000000 <= 255
  {
    assert Sub32(1000, saturation) == 1000 - saturation;
    ScaleInRange(value, 1000 - saturation);
  }

  lemma ReducedLevelInRange(saturation: uint32, value: uint32, x: uint32)
    requires saturation <= 1000 && value <= 1000 && x <= 600
    ensures Scale(value, Reduce(saturation, x)) == value * (1000 - saturation * x / 600) * 255 / 1000000 <= 255
  {
    ReduceInRange(saturation, x);
    ScaleInRange(value, Reduce(saturation, x));
  }

  lemma VLevelInRange(value: uint32)
    requires value <= 1000
    ensures Mul32(value, 255) / 1000 == value * 255 / 1000 <= 255
  {
    MulBound(value, 255, 1000, 255);
    DivModUnique(value * 255, 0, value * 255, 0x1_0000_0000);
    DivMonotone(value * 255, 255000, 1000);
  }

  /** A level within a byte is passed to `clamp_and_gamma` unchanged, or (green) as
      its 4/5 share, which is at most 204. */
  lemma LevelSmall(x: uint32)
    ensures x <= 255 ==> Level(x) == x
    ensures x <= 255 ==> GreenLevel(x) == x * 4 / 5 <= 204
  {
    if x <= 255 {
      DivMonotone(x * 4, 1020, 5);
    }
  }

  lemma Gamma8Values()
    ensures Gamma8(0) == 0 && Gamma8(204) == 137 && Gamma8(255) == 255
  {
  }

  /** The green channel is scaled by 4/5 before gamma correction in every sector, so
      for in-range inputs green never exceeds `gamma8[204]` = 137; the other channels
      reach the full 255. */
  lemma HsvGreenCap(hue: uint32, saturation: uint32, value: uint32)
    requires saturation <= 1000 && value <= 1000
    ensures GreenOf(Hsv(hue, saturation, value)) <= 137
  {
    var l := HsvLevels(hue, saturation, value);
    HsvLevelsInRange(hue, saturation, value);
    LevelSmall(l.p);
    LevelSmall(l.q);
    LevelSmall(l.t);
    LevelSmall(l.v);
    var c := SectorChannels(l);
    assert c.green <= 204;
    ClampAndGammaMonotone(c.green, 204);
    Gamma8Values();
  }

  /** Zero saturation gives a grey: red and blue carry the gamma-corrected value,
      green the same level scaled by 4/5, whatever the hue. */
  lemma HsvGrey(hue: uint32, value: uint32)
    requires value <= 1000
    ensures var w := Hsv(hue, 0, value);
      && RedOf(w) == ClampAndGamma(value * 255 / 1000)
      && BlueOf(w) == ClampAndGamma(value * 255 / 1000)
      && GreenOf(w) == ClampAndGamma(value * 255 / 1000 * 4 / 5)
  {
    HsvLevelsInRange(hue, 0, value);
    var l := HsvLevels(hue, 0, value);
    MulBound(value, 1000, 1000, 1000);
    assert value * 1000 * 255 / 1000000 == value * 255 / 1000 by {
      var x := value * 255;
      assert value * 1000 * 255 == x * 1000;
      DivModUnique(x * 1000, x / 1000, (x % 1000) * 1000, 1000000);
    }
    assert l.q == l.p && l.t == l.p && l.v == l.p;
    LevelSmall(l.p);
    assert SectorChannels(l) == Channels(l.p, l.p * 4 / 5, l.p);
  }

  /** The colour at the start of sector `k` with full saturation and value, as 0x00GGRRBB. */
  function SectorStart(k: nat): uint32
  {
    if k == 0 then 0x00_00FF00
    else if k == 1 then 0x00_89FF00
    else if k == 2 then 0x00_890000
    else if k == 3 then 0x00_8900FF
    else if k == 4 then 0x00_0000FF
    else 0x00_00FFFF
  }

  /** The sector starts at full saturation and value: `hsv(0, 1000, 1000)` is the
      documented pure red 0x0000FF00; the secondary colours carry green at 137, which is
      why `hsv(600, 1000, 1000)` is 0x0089FF00 and not the 0x00FFFF00 its comment claims. */
  lemma HsvSectorStarts(k: nat, full: uint32)
    requires k < 6 && full == 1000
    ensures Hsv(600 * k, full, full) == SectorStart(k)
  {
    var c := SectorChannels(HsvLevels(600 * k, full, full));
    assert Hsv(600 * k, full, full) == RgbG(c.red, c.green, c.blue);
    var c' := SectorStartChannels(k, full);
    SectorStartColour(k, c);
  }

  /** The pre-gamma channels at a sector start: 255 for a full red or blue, 204 for a
      full green (4/5 of 255). */
  lemma SectorStartChannels(k: nat, full: uint32) returns (c: Channels)
    requires k < 6 && full == 1000
    ensures c == SectorChannels(HsvLevels(600 * k, full, full))
    ensures c.red == (if k == 0 || k == 1 || k == 5 then 255 else 0)
    ensures c.green == (if 1 <= k <= 3 then 204 else 0)
    ensures c.blue == (if 3 <= k then 255 else 0)
  {
    LevelSmall(0);
    LevelSmall(255);
    FullLevels(600 * k, full);
    assert (600 * k) / 600 == k;
    c := SectorChannels(Levels(k, 0, 255, 0, 255));
  }

  /** `RGBg` on the channel levels of a sector start. */
  lemma SectorStartColour(k: nat, c: Channels)
    requires k < 6
    requires c.red == (if k == 0 || k == 1 || k == 5 then 255 else 0)
    requires c.green == (if 1 <= k <= 3 then 204 else 0)
    requires c.blue == (if 3 <= k then 255 else 0)
    ensures RgbG(c.red, c.green, c.blue) == SectorStart(k)
  {
    Gamma8Values();
    assert ClampAndGamma(0) == 0 && ClampAndGamma(204) == 137 && ClampAndGamma(255) == 255;
    if k == 0 {
      assert RgbG(255, 0, 0) == 0x00_00FF00;
    } else if k == 1 {
      assert RgbG(255, 204, 0) == 0x00_89FF00;
    } else if k == 2 {
      assert RgbG(0, 204, 0) == 0x00_890000;
    } else if k == 3 {
      assert RgbG(0, 204, 255) == 0x00_8900FF;
    } else if k == 4 {
      assert RgbG(0, 0, 255) == 0x00_0000FF;
    } else {
      assert RgbG(255, 0, 255) == 0x00_00FFFF;
    }
  }

  /** At a sector start with full saturation and value the levels are 0 or 255. */
  lemma FullLevels(hue: uint32, full: uint32)
    requires hue < 3600 && hue % 600 == 0 && full == 1000
    ensures HsvLevels(hue, full, full) == Levels(hue / 600, 0, 255, 0, 255)
  {
    var w := 0x1_0000_0000;
    assert hue % 3600 == hue;
    assert Reduce(full, 0) == 1000 by {
      DivModUnique(0, 0, 0, w);
      DivModUnique(0, 0, 0, 600);
      DivModUnique(1000, 0, 1000, w);
    }
    assert Reduce(full, 600) == 0 by {
      DivModUnique(600000, 0, 600000, w);
      DivModUnique(600000, 1000, 0, 600);
      DivModUnique(0, 0, 0, w);
    }
    assert Scale(full, 1000) == 255 by {
      DivModUnique(1000000, 0, 1000000, w);
      DivModUnique(255000000, 0, 255000000, w);
      DivModUnique(255000000, 255, 0, 1000000);
    }
    assert Scale(full, 0) == 0 by {
      DivModUnique(0, 0, 0, w);
      DivModUnique(0, 0, 0, 1000000);
    }
    assert Sub32(1000, full) == 0 by {
      DivModUnique(0, 0, 0, w);
    }
    assert Mul32(full, 255) / 1000 == 255 by {
      DivModUnique(255000, 0, 255000, w);
      DivModUnique(255000, 255, 0, 1000);
    }
  }

  /** `hsv` only sees the hue modulo 3600. */
  lemma HsvHuePeriodic(hue: uint32, saturation: uint32, value: uint32)
    ensures Hsv(hue, saturation, value) == Hsv(hue % 3600, saturation, value)
  {
    assert HsvLevels(hue, saturation, value) == HsvLevels(hue % 3600, saturation, value) by {
      assert (hue % 3600) % 3600 == hue % 3600;
    }
  }

  /** The `hsv2` dimming divisor `3200 - abs(hue % 1200 - 600)`. */
  function LightFactor(hue: uint32): (lf: int)
    ensures 2600 <= lf <= 3200
  {
    3200 - Abs(hue % 1200 - 600)
  }

  /** `hsv2`: "circular" HSV; dims the value by 2600 / light_factor before `hsv`. The
      colour is the `hsv` colour of the same hue and saturation at a value no larger
      than the given one. */
  function Hsv2(hue: uint32, saturation: uint32, value: uint32): (w: uint32)
    ensures w < 0x100_0000
    ensures exists v: uint32 :: v <= value && w == Hsv(hue, saturation, v)
  {
    var dimmed := Mul32(value, 3200 - 600);
    var lf := LightFactor(hue);
    DimmedAtMost(value, lf);
    Hsv(hue, saturation, dimmed / lf)
  }

  /** `value * 2600 / light_factor` in `uint32_t` is at most `value`, wrapped or not. */
  lemma DimmedAtMost(value: uint32, lf: int)
    requires 2600 <= lf
    ensures 0 <= Mul32(value, 2600) / lf <= value
  {
    if value * 2600 < 0x1_0000_0000 {
      DivModUnique(value * 2600, 0, value * 2600, 0x1_0000_0000);
    }
    assert Mul32(value, 2600) <= value * 2600;
    MulBound(value, 2600, value, lf);
    DivMonotone(Mul32(value, 2600), value * lf, lf);
    DivModUnique(value * lf, value, 0, lf);
  }

  /** `hsv2` only ever dims: the value handed to `hsv` is at most the input value, even
      when `value * 2600` wraps. Unless it wraps, at the primaries (hue a multiple of
      1200) the value is unchanged, so there `hsv2` and `hsv` agree. */
  lemma Hsv2Dims(hue: uint32, saturation: uint32, value: uint32)
    ensures Mul32(value, 2600) / LightFactor(hue) <= value
    ensures hue % 1200 == 0 && value * 2600 < 0x1_0000_0000 ==>
      Hsv2(hue, saturation, value) == Hsv(hue, saturation, value)
  {
    var lf := LightFactor(hue);
    DimmedAtMost(value, lf);
    if hue % 1200 == 0 && value * 2600 < 0x1_0000_0000 {
      DivModUnique(value * 2600, 0, value * 2600, 0x1_0000_0000);
      assert lf == 2600;
      DivModUnique(value * 2600, value, 0, 2600);
      assert Mul32(value, 3200 - 600) / LightFactor(hue) == value;
    }
  }

  /** Adding a full turn of 3600 to the hue leaves `hsv2` unchanged: both the dimming
      divisor (period 1200) and `hsv` (period 3600) see the same remainder. */
  lemma Hsv2HuePeriodic(hue: uint32, saturation: uint32, value: uint32)
    requires hue + 3600 < 0x1_0000_0000
    ensures Hsv2(hue + 3600, saturation, value) == Hsv2(hue, saturation, value)
  {
    var h' := hue + 3600;
    DivIdentity(hue, 1200);
    DivIdentity(hue, 3600);
    DivModUnique(h', hue / 1200 + 3, hue % 1200, 1200);
    DivModUnique(h', hue / 3600 + 1, hue % 3600, 3600);
    assert LightFactor(h') == LightFactor(hue);
    var v := Mul32(value, 3200 - 600) / LightFactor(hue);
    HsvHuePeriodic(h', saturation, v);
    HsvHuePeriodic(hue, saturation, v);
  }
}
