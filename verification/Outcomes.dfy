/** Result types shared by the models. */
module Outcomes {

  /** A value that may be absent: Rust's and Python's `None`, JavaScript's `undefined`. */
  datatype Option<+T> = None | Some(value: T) {
    function GetOr(default: T): (value: T)
      ensures this == None ==> value == default
      ensures this != None ==> this == Some(value)
    {
      match this
      case None => default
      case Some(v) => v
    }
  }

  /** What a Rust function does: it panics, or it returns a value. */
  datatype Outcome<+T> = Panic | Value(value: T)

  type u16 = n: nat | n < 0x1_0000
  type u64 = n: nat | n < 0x1_0000_0000_0000_0000
  type u128 = n: nat | n < 0x1_0000_0000_0000_0000_0000_0000_0000_0000

  const U64_MAX: nat := 0xFFFF_FFFF_FFFF_FFFF
  const TWO_128: nat := 0x1_0000_0000_0000_0000_0000_0000_0000_0000
  const TWO_256: nat :=
    0x1_0000_0000_0000_0000_0000_0000_0000_0000_0000_0000_0000_0000_0000_0000_0000_0000

  type u256 = n: nat | n < TWO_256 witness 0
}
