// Option, Result and the machine-word arithmetic the other modules share.

module Wrappers {

  datatype Option<+T> = None | Some(value: T)

  datatype Result<+T, +E> = Ok(value: T) | Err(error: E)
}

// `usize` and `u64` on a 64-bit host, and the saturating operations the source asks for.
module Words {

  const WORD_MAX: nat := 0xFFFF_FFFF_FFFF_FFFF

  function SatAdd(a: nat, b: nat): (sum: nat)
    ensures sum <= a + b
    ensures a <= WORD_MAX ==> a <= sum <= WORD_MAX
    ensures a + b <= WORD_MAX <==> sum == a + b
  {
    if a + b <= WORD_MAX then a + b else WORD_MAX
  }

  function SatSub(a: nat, b: nat): nat {
    if b <= a then a - b else 0
  }
}
