/** Shared fixed-point format and strip geometry of the firmware. */
module Common {
  /** Fixed-point numbers (`fixed_t`, a 64-bit integer) carry 16 fraction bits. */
  const SHIFT: nat := 16
  const ONE: int := 0x1_0000

  /** LEDs per side strip, on the front, and per bottom strip. The strip is wired as
      side, front, side, bottom, bottom. */
  const N_SIDE: nat := 11
  const N_FRONT: nat := 5
  const N_BOTTOM: nat := 26

  /** Frames per second of the pattern loop. */
  const FPS: nat := 60

  /** `v >> SHIFT` on a signed value: GCC shifts arithmetically, which rounds toward minus
      infinity like Dafny's division by a positive number. */
  function ShiftDown(v: int): int
  {
    v / ONE
  }
}
