/** Machine words and addresses, shared by the other modules. */
module Words {
  const TWO64 := 0x1_0000_0000_0000_0000
  const TWO63 := 0x8000_0000_0000_0000

  type U64 = x: int | 0 <= x < TWO64

  /** A 20-byte address; only equality and the zero address matter. */
  type Address = nat

  const ZERO_ADDRESS: Address := 0
}
