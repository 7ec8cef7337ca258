/** Facts about 32-bit words that the solver proves by looking at bits: other ways to write the
    choice and majority functions of SHA-256, sums in another order, and byte swapping. */
module WordLogic {
  lemma ChooseForm(x: bv32, y: bv32, z: bv32)
    ensures z ^ (x & (y ^ z)) == (x & y) ^ (!x & z)
  {}

  lemma MajorityForm(x: bv32, y: bv32, z: bv32)
    ensures (x & y) | (z & (x | y)) == (x & y) ^ (x & z) ^ (y & z)
  {}

  lemma MajorityForm2(x: bv32, y: bv32, z: bv32)
    ensures (x & z) | (y & (x | z)) == (x & y) ^ (x & z) ^ (y & z)
  {}

  /** Addition modulo 2^32, named so that proofs need not open it. */
  function Plus(x: bv32, y: bv32): bv32 { x + y }

  /** The sum of four words, and the two other orders in which the sources add them. */
  function Sum4(a: bv32, b: bv32, c: bv32, d: bv32): bv32 { ((a + b) + c) + d }

  function AddTo(d: bv32, a: bv32, b: bv32, c: bv32): (r: bv32)
    ensures r == Sum4(a, b, c, d)
  {
    d + ((a + b) + c)
  }

  lemma Sum4Reversed(a: bv32, b: bv32, c: bv32, d: bv32)
    ensures Sum4(a, b, c, d) == Sum4(d, c, b, a)
  {}

  function JoinBytes(b0: bv8, b1: bv8, b2: bv8, b3: bv8): bv32
  {
    (b3 as bv32) | ((b2 as bv32) << 8) | ((b1 as bv32) << 16) | ((b0 as bv32) << 24)
  }

  function SwapBytes(val: bv32): bv32
  {
    ((val & 0xFF) << 24) | ((val & 0xFF00) << 8) | ((val & 0xFF0000) >> 8) | ((val & 0xFF000000) >> 24)
  }

  /** Swapping the bytes of the word that joins four bytes backwards. */
  lemma SwapJoined(b0: bv8, b1: bv8, b2: bv8, b3: bv8)
    ensures SwapBytes(JoinBytes(b3, b2, b1, b0)) == JoinBytes(b0, b1, b2, b3)
  {}
}
