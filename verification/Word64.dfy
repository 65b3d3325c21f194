/** The 64-bit words of C: addition wraps. */
module Word64 {
  import opened Bits

  function ToWord(n: u64): bv64 {
    n as bv64
  }

  function FromWord(w: bv64): u64 {
    w as int
  }

  function Add64(x: bv64, y: bv64): bv64 {
    x + y
  }

  function Xor64(x: bv64, y: bv64): bv64 {
    x ^ y
  }

  function And64(x: bv64, y: bv64): bv64 {
    x & y
  }

  function Not64(x: bv64): bv64 {
    !x
  }

  function Shr(x: bv64, n: bv64): bv64
    requires n <= 64
  {
    x >> n
  }

  function Rotr(x: bv64, n: bv64): bv64
    requires n <= 64
  {
    (x >> n) | (x << (64 - n))
  }
}
