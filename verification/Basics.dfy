/** What several of the models share. */
module Basics {

  type byte = b: int | 0 <= b < 256

  type uint32 = n: int | 0 <= n < 0x1_0000_0000

  const SPACE: byte := 32

  /** isspace in the C locale */
  predicate IsSpace(b: byte) { b == SPACE || 9 <= b <= 13 }

  function Pow2(k: nat): (r: nat)
    ensures 1 <= r
  {
    if k == 0 then 1 else 2 * Pow2(k - 1)
  }

  /** Quotient and remainder are the only ones. */
  lemma DivUnique(n: int, k: int, q: int, r: int)
    requires 0 < k && 0 <= r < k && n == k * q + r
    ensures n / k == q && n % k == r
  {
    var d := n / k - q;
    assert k * d == r - n % k;
    assert d >= 1 ==> k * d >= k;
    assert d <= -1 ==> k * d <= -k;
  }
}
