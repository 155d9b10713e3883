/** Machine arithmetic shared by the models: 64-bit unsigned words and the
    rounding macros of kernel/lib/include/util.h. */
module Machine {
  const WORD: nat := 0x1_0000_0000_0000_0000
  const PAGE: nat := 4096

  /** The value a 64-bit unsigned variable holds after being assigned `x`. */
  function Wrap(x: int): (w: nat)
    ensures w < WORD
    ensures 0 <= x < WORD ==> w == x
  {
    x % WORD
  }

  /** `ALIGN_UP(value, 16)` on `size_t`: the addition can wrap. */
  function AlignUp16(value: nat): nat
  {
    Wrap(value + 15) / 16 * 16
  }

  /** Rounding reaches the request exactly when the addition does not wrap. */
  lemma AlignUp16Reaches(value: nat)
    requires value < WORD
    ensures AlignUp16(value) % 16 == 0
    ensures AlignUp16(value) >= value <==> value <= WORD - 16
    ensures value <= WORD - 16 ==> value <= AlignUp16(value) < value + 16
    ensures AlignUp16(AlignUp16(value)) == AlignUp16(value)
  {
  }
}
