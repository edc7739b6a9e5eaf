/**
  Fixed-width values of the Stylus (Arbitrum) host that the Verifier contract
  stores and exchanges: 256-bit unsigned words, 160-bit addresses, the 64-bit
  block timestamp and bytes. Each is a bounded natural number.
 */
module Words {

  /** 2^256, one more than the largest U256. */
  const TWO_256: nat := 0x1_0000000000000000_0000000000000000_0000000000000000_0000000000000000

  /** 2^160, one more than the largest address. */
  const TWO_160: nat := 0x1_00000000_0000000000000000_0000000000000000

  /** 2^64, one more than the largest block timestamp. */
  const TWO_64: nat := 0x1_0000000000000000

  /** The largest value a U256 storage slot can hold. */
  const MAX_U256: nat := TWO_256 - 1

  type U256 = x: nat | x < TWO_256

  type Address = x: nat | x < TWO_160

  type U64 = x: nat | x < TWO_64

  type Byte = x: nat | x < 256

  /** What an unwritten address slot reads as. */
  const ZERO_ADDRESS: Address := 0
}
