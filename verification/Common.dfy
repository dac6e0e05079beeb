/** Types shared by every component: bytes, words and the usual optional value. */
module Common {
  type Byte = bv8
  type Word = bv16

  /** Two bytes side by side. */
  function BothBytes(high: Byte, low: Byte): Word { ((high as Word) << 8) | (low as Word) }

  /** A byte read as a number, where the code does arithmetic on it rather than bit algebra. */
  type Octet = b: nat | b < 256

  function Min(a: nat, b: nat): nat { if a < b then a else b }

  function AtLeastOne(n: nat): nat { if n == 0 then 1 else n }

  datatype Option<+T> = None | Some(value: T)
}
