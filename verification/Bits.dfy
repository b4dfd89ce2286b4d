/** Small numbers as bit sequences, least significant bit first. */
module Bits {
  function Pow2(n: nat): (r: nat)
    ensures r > 0
  {
    if n == 0 then 1 else 2 * Pow2(n - 1)
  }

  /** The number with these bits, least significant first. */
  function FromBits(bits: seq<bool>): (v: nat)
    ensures v < Pow2(|bits|)
  {
    if bits == [] then 0 else (if bits[0] then 1 else 0) + 2 * FromBits(bits[1..])
  }

  /** `v & (1 << k)` is not zero. */
  predicate TestBit(v: nat, k: nat) {
    if k == 0 then v % 2 == 1 else TestBit(v / 2, k - 1)
  }

  lemma {:induction false} BitsRoundTrip(bits: seq<bool>, k: nat)
    requires k < |bits|
    ensures TestBit(FromBits(bits), k) == bits[k]
  {
    if k > 0 {
      assert FromBits(bits) / 2 == FromBits(bits[1..]);
      BitsRoundTrip(bits[1..], k - 1);
    }
  }
}
