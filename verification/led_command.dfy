/** The serial LED protocol of the stand-alone driver (`firmware/ws2812/ws2812.c`):
    `handle_cmd` receives one byte per UART interrupt and assembles 8-byte commands
    `id_hi id_lo r _ g _ b _`. The id is offset by `0xA000`; a command for an id within
    the LED array sets that LED's colour word. A zero byte while waiting is skipped, so
    a run of zeros re-synchronises a sender that lost its place.

    The function-local statics of `handle_cmd` become the parser state; `led_data` is
    part of the state, of any length (`LED_COUNT` is 10 in the source). */
module LedCommand {
  import opened MachineInt
  import Color

  /** Ids are offset so that the first id byte of a command is never zero. */
  const ID_OFFSET: nat := 0xA000

  const LED_COUNT: nat := 10

  datatype Phase = Waiting | GotId1 | GotId2 | GotCol1 | GotCol2 | GotCol3 | GotCol4 | GotCol5

  datatype Parser = Parser(phase: Phase, id: uint16, r: uint16, g: uint16, b: uint16,
                           led: seq<uint32>)

  /** The static initialisers of `handle_cmd`, with the LED array as given. */
  function Start(led: seq<uint32>): (p: Parser)
    ensures p.phase == Waiting && p.led == led
  {
    Parser(Waiting, 0, 0, 0, 0, led)
  }

  /** The colour fields are declared 16 bits wide but only ever hold a received byte. */
  predicate Inv(p: Parser)
  {
    p.r < 0x100 && p.g < 0x100 && p.b < 0x100
  }

  /** The LED a completed command addresses: `id -= ID_OFFSET` on a `uint16_t`, which
      wraps modulo 2^16. */
  function Target(id: uint16): uint16
  {
    ToUint16(id - ID_OFFSET)
  }

  /** `handle_cmd(cmd)`. */
  function Step(p: Parser, cmd: uint8): (p': Parser)
    requires Inv(p)
    ensures Inv(p')
    ensures |p'.led| == |p.led|
    ensures p.phase != GotCol5 ==> p'.led == p.led
    ensures forall i :: 0 <= i < |p.led| && p'.led[i] != p.led[i] ==>
      p.phase == GotCol5 && i == Target(p.id) && p'.led[i] < 0x100_0000
  {
    match p.phase
    case Waiting =>
      p.(id := cmd, phase := if cmd != 0 then GotId1 else Waiting)
    case GotId1 =>
      p.(id := ToUint16(p.id * 0x100 + cmd), phase := GotId2)
    case GotId2 =>
      p.(r := cmd, phase := GotCol1)
    case GotCol1 =>
      p.(phase := GotCol2)
    case GotCol2 =>
      p.(g := cmd, phase := GotCol3)
    case GotCol3 =>
      p.(phase := GotCol4)
    case GotCol4 =>
      p.(b := cmd, phase := GotCol5)
    case GotCol5 =>
      var id := Target(p.id);
      var led := if id < |p.led| then p.led[id := Color.Rgb(p.r, p.g, p.b)] else p.led;
      p.(id := id, led := led, phase := Waiting)
  }

  /** The bytes received, in order. */
  function Feed(p: Parser, bytes: seq<uint8>): (p': Parser)
    requires Inv(p)
    ensures Inv(p') && |p'.led| == |p.led|
    decreases |bytes|
  {
    if |bytes| == 0 then p else Feed(Step(p, bytes[0]), bytes[1..])
  }

  /** Whatever bytes arrive, every LED word is either the one it started with or a word
      the parser stored, and those carry nothing above bit 23. */
  lemma {:induction false} FeedStoresColours(p: Parser, bytes: seq<uint8>)
    requires Inv(p)
    ensures forall i :: 0 <= i < |p.led| ==>
      Feed(p, bytes).led[i] == p.led[i] || Feed(p, bytes).led[i] < 0x100_0000
    decreases |bytes|
  {
    if |bytes| > 0 {
      var p1 := Step(p, bytes[0]);
      FeedStoresColours(p1, bytes[1..]);
    }
  }

  /** While waiting, a zero byte changes nothing that matters: the parser keeps waiting
      and the LEDs keep their colours. */
  lemma ZeroResyncs(p: Parser)
    requires Inv(p) && p.phase == Waiting
    ensures Step(p, 0).phase == Waiting && Step(p, 0).led == p.led
  {
  }

  /** The colour word a command with components `r`, `g`, `b` stores. */
  function Word(r: uint8, g: uint8, b: uint8): uint32
  {
    Color.Rgb(r, g, b)
  }

  /** The effect of one whole command on the LED array: the LED at `id - 0xA000`
      (modulo 2^16) gets the colour, if there is such an LED. */
  function Apply(led: seq<uint32>, idHi: uint8, idLo: uint8, r: uint8, g: uint8, b: uint8)
    : (led': seq<uint32>)
    ensures |led'| == |led|
  {
    var id := Target(idHi * 0x100 + idLo);
    if id < |led| then led[id := Word(r, g, b)] else led
  }

  /** A command is exactly eight bytes: a non-zero first id byte starts it, no prefix of
      it returns to waiting, and after the eighth byte the parser waits again with
      the command applied to the LEDs; the bytes in positions 4, 6 and 8 are ignored. */
  lemma CommandIsEightBytes(p: Parser, idHi: uint8, idLo: uint8, r: uint8, x1: uint8,
                            g: uint8, x2: uint8, b: uint8, x3: uint8)
    requires Inv(p) && p.phase == Waiting && idHi != 0
    ensures var cmd := [idHi, idLo, r, x1, g, x2, b, x3];
      && (forall k :: 1 <= k < 8 ==> Feed(p, cmd[..k]).phase != Waiting)
      && Feed(p, cmd).phase == Waiting
      && Feed(p, cmd).led == Apply(p.led, idHi, idLo, r, g, b)
  {
    var cmd := [idHi, idLo, r, x1, g, x2, b, x3];
    var s1 := Step(p, idHi);
    var s2 := Step(s1, idLo);
    var s3 := Step(s2, r);
    var s4 := Step(s3, x1);
    var s5 := Step(s4, g);
    var s6 := Step(s5, x2);
    var s7 := Step(s6, b);
    var s8 := Step(s7, x3);
    assert s2.id == idHi * 0x100 + idLo;
    FeedSteps(p, cmd, [p, s1, s2, s3, s4, s5, s6, s7, s8]);
    assert cmd[..8] == cmd;
  }

  /** `Feed` over a prefix is the chain of single steps. */
  lemma {:induction false} FeedSteps(p: Parser, bytes: seq<uint8>, states: seq<Parser>)
    requires Inv(p) && |states| == |bytes| + 1 && states[0] == p
    requires forall k :: 0 <= k < |bytes| ==> Inv(states[k]) && states[k + 1] == Step(states[k], bytes[k])
    ensures forall k :: 0 <= k <= |bytes| ==> Feed(p, bytes[..k]) == states[k]
    decreases |bytes|
  {
    if |bytes| > 0 {
      var p1 := Step(p, bytes[0]);
      FeedSteps(p1, bytes[1..], states[1..]);
      forall k | 0 <= k <= |bytes|
        ensures Feed(p, bytes[..k]) == states[k]
      {
        if k > 0 {
          assert bytes[..k][1..] == bytes[1..][..k - 1];
        }
      }
    }
  }

  /** Which ids reach an LED: exactly `0xA000` up to `0xA000 + LED_COUNT - 1`; every
      smaller id wraps to at least `0x6000` and is ignored. */
  lemma TargetInRange(id: uint16, n: nat)
    requires n <= 0x6000
    ensures Target(id) < n <==> ID_OFFSET <= id < ID_OFFSET + n
    ensures id >= ID_OFFSET ==> Target(id) == id - ID_OFFSET
    ensures id < ID_OFFSET ==> Target(id) == id + 0x6000
  {
    if id < ID_OFFSET {
      DivModUnique(id - ID_OFFSET, -1, id + 0x6000, 0x1_0000);
    }
  }

  /** For the source's 10 LEDs, ids `0xA000` to `0xA009` address LEDs 0 to 9. */
  lemma TargetOfSourceIds(id: uint16)
    ensures Target(id) < LED_COUNT <==> 0xA000 <= id <= 0xA009
  {
    TargetInRange(id, LED_COUNT);
  }
}
