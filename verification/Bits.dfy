/** Single bits of a byte: testing one, setting one, and the fact that setting one leaves the other
    seven alone. The visited bitmap and the Bloom filter are arrays of such bytes. */
module Bits {

  /** The byte `1 << k`. */
  function Mask(k: nat): bv8
    requires k < 8
  {
    (1 as bv8) << k
  }

  predicate IsSet(b: bv8, k: nat)
    requires k < 8
  {
    b & Mask(k) != 0
  }

  function WithBit(b: bv8, k: nat): bv8
    requires k < 8
  {
    b | Mask(k)
  }

  lemma MaskValues(k: nat)
    requires k < 8
    ensures Mask(k) == [1, 2, 4, 8, 16, 32, 64, 128][k]
  {
    if k == 0 {} else if k == 1 {} else if k == 2 {} else if k == 3 {}
    else if k == 4 {} else if k == 5 {} else if k == 6 {} else {}
  }

  /** Setting a bit sets that bit and changes no other. */
  lemma WithBitSetsOne(b: bv8, k: nat, j: nat)
    requires k < 8 && j < 8
    ensures IsSet(WithBit(b, k), j) <==> j == k || IsSet(b, j)
  {
    MaskValues(k);
    MaskValues(j);
    DistinctMasks(b, Mask(k), Mask(j));
  }

  lemma DistinctMasks(b: bv8, m: bv8, n: bv8)
    requires m in [1 as bv8, 2, 4, 8, 16, 32, 64, 128] && n in [1 as bv8, 2, 4, 8, 16, 32, 64, 128]
    ensures (b | m) & n != 0 <==> m == n || b & n != 0
  {
  }

  lemma ZeroHasNoBits(k: nat)
    requires k < 8
    ensures !IsSet(0, k)
  {
  }
}
