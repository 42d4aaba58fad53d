/** Machine words of a 32-bit x86 and the constants every component shares. */
module Words {
  const TWO_31 := 0x8000_0000
  const TWO_32 := 0x1_0000_0000
  const PAGE_SIZE := 4096

  type u32 = x: int | 0 <= x < TWO_32

  type byte = x: int | 0 <= x < 256

  datatype Option<+T> = None | Some(value: T)

  /** The value a 32-bit unsigned register keeps of `x`. */
  function U32(x: int): u32 {
    x % TWO_32
  }

  /** The value a 32-bit register keeps of `x`, read back as a signed number. */
  function Signed32(x: int): (r: int)
    ensures -TWO_31 <= r < TWO_31
  {
    (x + TWO_31) % TWO_32 - TWO_31
  }

  /** The value an 8-bit register keeps of `x`, read back as a signed number. */
  function Signed8(x: int): (r: int)
    ensures -128 <= r < 128
  {
    (x + 128) % 256 - 128
  }

  /** Arithmetic on wrapped words may postpone the wrap to the end. */
  lemma Signed32Add(x: int, k: int)
    ensures Signed32(Signed32(x) + k) == Signed32(x + k)
  {
  }
}
