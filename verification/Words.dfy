/** The machine word. */
module Words {
  const WORD_BITS: nat := 64

  /** The number of values of a word. */
  const WORD: nat := 0x1_0000_0000_0000_0000

  /** The sum of two words, reduced to one word. */
  function Wrap(sum: nat): nat { if sum < WORD then sum else sum - WORD }

  const INT_MAX: nat := 0x7FFF_FFFF

  /** A signed 32-bit number. */
  predicate Int32(i: int) { -0x8000_0000 <= i <= INT_MAX }

  const NULL: nat := 0
  const PAGE: nat := 4096

  /** `x & ~(PAGE - 1)`. */
  function PageFloor(x: nat): nat { x / PAGE * PAGE }
}
