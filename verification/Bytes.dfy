/** Bytes as numbers, for the code that does arithmetic on them or compares them, and as eight bits. */
module Bytes {
  type Byte = x: nat | x < 256 witness 0

  lemma BitsForth(b: bv8)
    ensures (b as nat) as bv8 == b
  {
  }

  lemma NextBits(b: bv8)
    requires b != 255
    ensures (b + 1) as nat == b as nat + 1
  {
  }

  /** Every number below 256 has its eight bits. */
  lemma {:induction false} BitsOf(n: nat) returns (b: bv8)
    requires n < 256
    ensures b as nat == n
  {
    if n == 0 {
      b := 0;
    } else {
      b := BitsOf(n - 1);
      NextBits(b);
      b := b + 1;
    }
  }

  /** A number below 256 survives as eight bits. */
  lemma BitsBack(n: nat)
    requires n < 256
    ensures (n as bv8) as nat == n
  {
    var b := BitsOf(n);
    BitsForth(b);
  }
}
