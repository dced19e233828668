/** The WS2812 LED-strip driver: timer 3 plays a circular DMA buffer of pulse widths
    on the data line, one byte per bit of colour. The buffer has two banks; when the
    DMA engine finishes one bank, `dma1_channel3_isr` refills it with the next 40 LED
    slots while the other bank is played.

    `populate_dma_data` turns each 24-bit word of `led_data` into 24 pulse widths,
    most significant bit first, and after the last LED emits three slots of zero
    pulses, the reset gap that latches a frame. The cursor `led_cur` walks over the
    `LED_COUNT + 3` slots cyclically and persists between calls.

    Both copies of the driver (`firmware/src/ws2812.c` with 50 LEDs and
    `firmware/ws2812/ws2812.c` with 10) share this code; the model is generic in the
    LED count, which is `|led|`. */
module Ws2812 {
  import opened MachineInt
  import Color

  /** Timer ticks at 72 MHz, in whole nanoseconds. */
  const TICK_NS: int := 1000 / 72
  /** Pulse width of a 0 bit, of a 1 bit, and the bit period, in ticks. */
  const WS0: int := 350 / TICK_NS
  const WS1: int := 800 / TICK_NS
  const WSP: int := 1300 / TICK_NS

  /** Symbols per LED slot: one per colour bit. */
  const SLOT: nat := 24
  /** Each bank holds 40 slots; the buffer holds two banks. */
  const SLOTS_PER_BANK: nat := 40
  const DMA_BANK_SIZE: nat := 40 * 8 * 3
  const DMA_SIZE: nat := DMA_BANK_SIZE * 2
  /** Zero slots after the last LED. */
  const RESET_SLOTS: nat := 3

  /** The LED counts of the two copies of the driver. */
  const MAIN_LED_COUNT: nat := 50
  const UART_LED_COUNT: nat := 10

  /** The integer divisions give 13 ns ticks, so the pulses are 26 and 61 ticks long in
      a 100-tick period: a 0 is shorter than a 1, and both fit within the period. */
  lemma TimingConstants()
    ensures TICK_NS == 13 && WS0 == 26 && WS1 == 61 && WSP == 100
    ensures 0 < WS0 < WS1 < WSP < 0x100
    ensures DMA_BANK_SIZE == SLOTS_PER_BANK * SLOT && DMA_SIZE == 1920
  {
    DivModUnique(1000, 13, 64, 72);
    DivModUnique(350, 26, 12, 13);
    DivModUnique(800, 61, 7, 13);
    DivModUnique(1300, 100, 0, 13);
  }

  /** The number of slots the cursor cycles over. */
  function Slots(ledCount: nat): nat { ledCount + RESET_SLOTS }

  /** `LED_COUNT + 3` is an `int` expression; the LED array must also be addressable. */
  predicate ValidLedCount(ledCount: nat)
  {
    ledCount + RESET_SLOTS < 0x8000_0000
  }

  /** The reference meaning of the bitstream: symbol `j` of slot `c` is the pulse for
      bit `23 - j` of LED `c`'s word, and a reset slot is silent. */
  function Symbol(led: seq<uint32>, c: nat, j: nat): (s: uint8)
    requires c < Slots(|led|) && j < SLOT
    ensures s == 0 || s == WS0 || s == WS1
  {
    if c < |led| then Pulse(led[c], j) else 0
  }

  /** The pulse for bit `23 - j` of a colour word. */
  function Pulse(x: uint32, j: nat): (s: uint8)
    requires j < SLOT
  {
    TimingConstants();
    if Bit(x, 23 - j) then WS1 else WS0
  }

  /** Symbol `p` of the stream that starts at cursor `cur`: slot `p / 24` belongs to
      cursor `cur + p / 24` modulo the slot count. */
  function StreamSymbol(led: seq<uint32>, cur: nat, p: nat): uint8
  {
    Symbol(led, (cur + p / SLOT) % Slots(|led|), p % SLOT)
  }

  /** The C test `v & 0x800000`: bit 23 of a word. */
  predicate TopBit(v: uint32)
  {
    (v / 0x80_0000) % 2 == 1
  }

  lemma TopBitIsBit23(v: uint32)
    ensures TopBit(v) <==> Bit(v, 23)
  {
    Pow2Add(16, 7);
    Pow2Add(8, 8);
    Pow2Add(4, 4);
    assert Pow2(4) == 16;
    assert Pow2(7) == 128;
    BitIsMaskTest(v, 23);
  }

  /** The inner loop of `populate_dma_data` for a lit LED: the word is shifted left
      through bit 23, producing 24 pulses, most significant bit first. */
  method EncodeWord(x: uint32) returns (s: seq<uint8>)
    ensures |s| == SLOT
    ensures forall j :: 0 <= j < SLOT ==> s[j] == Pulse(x, j)
  {
    TimingConstants();
    s := [];
    var v: uint32 := x;
    var j := 0;
    while j < SLOT
      invariant 0 <= j <= SLOT && |s| == j
      invariant forall j' :: 0 <= j' < j ==> s[j'] == Pulse(x, j')
      invariant forall k :: j <= k < SLOT ==> (Bit(v, k) <==> Bit(x, k - j))
    {
      ShiftStep(x, v, j);
      s := s + [if TopBit(v) then WS1 else WS0];
      v := (2 * v) % 0x1_0000_0000;
      j := j + 1;
    }
  }

  /** One turn of the encoding loop: with bit `k` of `v` holding bit `k - j` of the
      word, the tested top bit is bit `23 - j` of the word and `v <<= 1` moves the
      correspondence on by one place. */
  lemma ShiftStep(x: uint32, v: uint32, j: nat)
    requires j < SLOT
    requires forall k :: j <= k < SLOT ==> (Bit(v, k) <==> Bit(x, k - j))
    ensures TopBit(v) <==> Bit(x, 23 - j)
    ensures forall k :: j + 1 <= k < SLOT ==>
      (Bit((2 * v) % 0x1_0000_0000, k) <==> Bit(x, k - (j + 1)))
  {
    TopBitIsBit23(v);
    forall k | j + 1 <= k < SLOT
      ensures Bit((2 * v) % 0x1_0000_0000, k) <==> Bit(x, k - (j + 1))
    {
      BitOfShiftLeft(v, k);
    }
  }

  /** The inner loop for a reset slot: 24 zero pulses. */
  method EncodeGap() returns (s: seq<uint8>)
    ensures |s| == SLOT
    ensures forall j :: 0 <= j < SLOT ==> s[j] == 0
  {
    s := [];
    var j := 0;
    while j < SLOT
      invariant 0 <= j <= SLOT && |s| == j
      invariant forall j' :: 0 <= j' < j ==> s[j'] == 0
    {
      s := s + [0];
      j := j + 1;
    }
  }

  /** One slot of `populate_dma_data`: the LED's word, or the gap. */
  method EncodeSlot(led: seq<uint32>, c: nat) returns (s: seq<uint8>)
    requires c < Slots(|led|)
    ensures |s| == SLOT
    ensures forall j :: 0 <= j < SLOT ==> s[j] == Symbol(led, c, j)
  {
    if c < |led| {
      s := EncodeWord(led[c]);
    } else {
      s := EncodeGap();
    }
  }

  /** Position `p` of slot `k` is symbol `p - 24k` of that slot. */
  lemma SlotPosition(p: nat, k: nat)
    requires SLOT * k <= p < SLOT * k + SLOT
    ensures p / SLOT == k && p % SLOT == p - SLOT * k
  {
    DivModUnique(p, k, p - SLOT * k, SLOT);
  }

  /** Reducing the incremented cursor is the same as counting one more slot. */
  lemma CursorStep(cur: nat, k: nat, m: nat)
    requires m > 0
    ensures ((cur + k) % m + 1) % m == (cur + k + 1) % m
  {
    var q := (cur + k) / m;
    var r := (cur + k) % m;
    assert cur + k + 1 == q * m + (r + 1);
    if r + 1 < m {
      DivModUnique(cur + k + 1, q, r + 1, m);
    } else {
      DivModUnique(cur + k + 1, q + 1, 0, m);
    }
  }

  /** The cursor after one bank: 40 slots further on, kept in `[1, LED_COUNT + 3]`. */
  function NextCursor(ledCount: nat, cur: nat): (c: nat)
    ensures 1 <= c <= Slots(ledCount)
  {
    (cur + SLOTS_PER_BANK - 1) % Slots(ledCount) + 1
  }

  /** `populate_dma_data`: fills one bank with the next 40 slots of the stream that
      starts at `led_cur`, and returns the advanced cursor. The cursor is in
      `[1, LED_COUNT + 3]` afterwards, so the next call continues where this one
      stopped. */
  method PopulateBank(led: seq<uint32>, cur: uint32) returns (bank: seq<uint8>, cur': uint32)
    requires ValidLedCount(|led|)
    ensures |bank| == DMA_BANK_SIZE
    ensures forall p :: 0 <= p < DMA_BANK_SIZE ==> bank[p] == StreamSymbol(led, cur, p)
    ensures cur' == NextCursor(|led|, cur)
  {
    var m := Slots(|led|);
    var c: uint32 := cur;
    var i := 0;
    var k := 0;
    bank := [];
    while i < DMA_BANK_SIZE
      invariant 0 <= k <= SLOTS_PER_BANK && i == SLOT * k && |bank| == i
      invariant forall p :: 0 <= p < i ==> bank[p] == StreamSymbol(led, cur, p)
      invariant k == 0 ==> c == cur
      invariant k > 0 ==> c == (cur + k - 1) % m + 1
    {
      if k > 0 {
        CursorStep(cur, k - 1, m);
      }
      c := c % m;
      assert c == (cur + k) % m;
      var slot := EncodeSlot(led, c);
      forall p | i <= p < i + SLOT
        ensures (bank + slot)[p] == StreamSymbol(led, cur, p)
      {
        SlotPosition(p, k);
      }
      bank := bank + slot;
      c := c + 1;
      i := i + SLOT;
      k := k + 1;
    }
    cur' := c;
  }

  /** Cursors from consecutive calls line up: slot `k` of the next bank is slot
      `40 + k` counted from the previous call's starting cursor. */
  lemma CallsAreConsecutive(ledCount: nat, cur: nat, k: nat)
    ensures var m := Slots(ledCount);
      ((cur + SLOTS_PER_BANK - 1) % m + 1 + k) % m == (cur + SLOTS_PER_BANK + k) % m
  {
    var m := Slots(ledCount);
    var r := (cur + SLOTS_PER_BANK - 1) % m;
    var q := (cur + SLOTS_PER_BANK - 1) / m;
    assert cur + SLOTS_PER_BANK + k == q * m + (r + 1 + k);
    ModShift(r + 1 + k, q, m);
  }

  /** A slot is silent exactly when it is one of the three reset slots; a lit LED's
      pulses are never zero, so the gap is exactly 72 zero symbols per frame. */
  lemma ResetGap(led: seq<uint32>, c: nat, j: nat)
    requires c < Slots(|led|) && j < SLOT
    ensures Symbol(led, c, j) == 0 <==> c >= |led|
  {
    TimingConstants();
  }

  /** A lit LED's bit is recovered from its pulse: `WS1` marks a set bit, `WS0` a clear
      one, the most significant first. */
  lemma SymbolDecodes(led: seq<uint32>, c: nat, j: nat)
    requires c < |led| && j < SLOT
    ensures Symbol(led, c, j) == WS1 <==> Bit(led[c], 23 - j)
    ensures Symbol(led, c, j) == WS0 <==> !Bit(led[c], 23 - j)
  {
    TimingConstants();
  }

  /** The whole transfer buffer, `DMA_SIZE` symbols. */
  predicate ValidBuffer(dma: seq<uint8>)
  {
    |dma| == DMA_SIZE
  }

  /** `dma1_channel3_isr`: transfer-complete refills the upper bank, half-transfer the
      lower one; with both flags up the upper bank is filled first and the cursor runs
      on into the lower one. */
  method DmaIsr(dma: seq<uint8>, led: seq<uint32>, cur: uint32, tc: bool, ht: bool)
    returns (dma': seq<uint8>, cur': uint32)
    requires ValidBuffer(dma) && ValidLedCount(|led|)
    ensures ValidBuffer(dma')
    ensures !tc ==> dma'[DMA_BANK_SIZE..] == dma[DMA_BANK_SIZE..]
    ensures !ht ==> dma'[..DMA_BANK_SIZE] == dma[..DMA_BANK_SIZE]
    ensures tc ==> forall p :: 0 <= p < DMA_BANK_SIZE ==>
      dma'[DMA_BANK_SIZE + p] == StreamSymbol(led, cur, p)
    ensures ht && !tc ==> forall p :: 0 <= p < DMA_BANK_SIZE ==>
      dma'[p] == StreamSymbol(led, cur, p)
    ensures tc && ht ==> forall p :: 0 <= p < DMA_BANK_SIZE ==>
      dma'[p] == StreamSymbol(led, NextCursor(|led|, cur), p)
    ensures cur' == if tc && ht then NextCursor(|led|, NextCursor(|led|, cur))
      else if tc || ht then NextCursor(|led|, cur) else cur
    ensures !tc && !ht ==> dma' == dma
  {
    dma' := dma;
    cur' := cur;
    if tc {
      var bank;
      bank, cur' := PopulateBank(led, cur');
      dma' := dma'[..DMA_BANK_SIZE] + bank;
    }
    if ht {
      var bank;
      bank, cur' := PopulateBank(led, cur');
      dma' := bank + dma'[DMA_BANK_SIZE..];
    }
  }

  /** `memset(dma_data, 0, DMA_SIZE)`: the line stays low until the first refill. */
  function InitialBuffer(): (dma: seq<uint8>)
    ensures ValidBuffer(dma)
    ensures forall p :: 0 <= p < DMA_SIZE ==> dma[p] == 0
  {
    seq(DMA_SIZE, p => 0)
  }

  /** The start-up colour of LED `i`: full red, no blue, and a green that varies from
      LED to LED (`127 - 255/2` cancels to 0). */
  function InitialColour(i: nat): (w: uint32)
    ensures Color.RedOf(w) == 255 && Color.BlueOf(w) == 0
    ensures Color.GreenOf(w) == ((i * 400) % 251) / 2 <= 125
    ensures w < 0x100_0000
  {
    var green := 127 - 255 / 2 + ((i * 400) % 251) / 2;
    assert 0 <= green <= 125;
    Color.Rgb(255, green, 0)
  }

  /** The start-up contents of `led_data`: every LED decodes to red 255, blue 0 and a
      green of `((i*400) % 251) / 2`, within 0..125, with nothing above bit 23. */
  function InitialLeds(ledCount: nat): (led: seq<uint32>)
    ensures |led| == ledCount
    ensures forall i :: 0 <= i < ledCount ==>
      && Color.RedOf(led[i]) == 255 && Color.BlueOf(led[i]) == 0
      && Color.GreenOf(led[i]) == ((i * 400) % 251) / 2 <= 125
      && led[i] < 0x100_0000
  {
    seq(ledCount, i requires 0 <= i => InitialColour(i))
  }
}
