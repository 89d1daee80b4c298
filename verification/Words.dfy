/** Machine words as the driver uses them.

Unsigned words are bounded naturals, so that every wrap-around is written out.  A
register that is only ever used one bit at a time is the set of its bits that are one:
`w |= BIT(i)` is `w + {i}` and `w &= ~BIT(i)` is `w - {i}`. */
module Words {
  const TWO16 := 0x1_0000
  const TWO32 := 0x1_0000_0000

  type byte = x: nat | x < 0x100
  type u16 = x: nat | x < TWO16
  type u32 = x: nat | x < TWO32
  type bits = s: set<nat> | forall i :: i in s ==> i < 32

  /** The 16-bit half of a word: half 0 is the low one. */
  function Half(w: u32, high: bool): u16 {
    if high then w / TWO16 else w % TWO16
  }

  /** `w &= ~(0xffff << 16 * high); w |= (v & 0xffff) << 16 * high`. */
  function WithHalf(w: u32, high: bool, v: nat): u32 {
    if high then w % TWO16 + v % TWO16 * TWO16 else w / TWO16 * TWO16 + v % TWO16
  }

  /** Writing one half stores the low 16 bits there and leaves the other half alone. */
  lemma HalfWritten(w: u32, high: bool, v: nat)
    ensures Half(WithHalf(w, high, v), high) == v % TWO16
    ensures Half(WithHalf(w, high, v), !high) == Half(w, !high)
  {
  }
}
