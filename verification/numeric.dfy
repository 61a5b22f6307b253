/**
  Machine integer ranges and powers, shared by the byte-level and the
  decimal encodings.
 */
module Numeric {

  type byte = x: int | 0 <= x < 256

  /** The range of an unsigned 64-bit integer. */
  type u64 = x: nat | x < 0x1_0000_0000_0000_0000

  /** b^k. The weight of a byte k places from the right is Pow(256, k),
      that of a decimal digit Pow(10, k). */
  function Pow(b: nat, k: nat): (p: nat)
    ensures b >= 1 ==> p >= 1
  {
    if k == 0 then 1 else b * Pow(b, k - 1)
  }

  /** Powers of a base of at least one grow with the exponent. */
  lemma {:induction false} PowMonotone(b: nat, j: nat, k: nat)
    requires b >= 1
    requires j <= k
    ensures Pow(b, j) <= Pow(b, k)
  {
    if j < k {
      PowMonotone(b, j, k - 1);
      var q := Pow(b, k - 1);
      assert Pow(b, k) == b * q == q + (b - 1) * q;
    }
  }
}
