/** Single bits of numbers. */
module BitTests {
  import opened Limbs

  /** Bit i of a number. */
  predicate NatBit(n: nat, i: nat) {
    if i == 0 then n % 2 == 1 else NatBit(n / 2, i - 1)
  }

  lemma {:induction false} NatBitIs(n: nat, i: nat)
    ensures NatBit(n, i) <==> n / Pow2(i) % 2 == 1
  {
    if i > 0 {
      NatBitIs(n / 2, i - 1);
      HalveFirst(n, Pow2(i - 1));
    }
  }

  lemma HalveFirst(n: nat, p: nat)
    requires p > 0
    ensures n / (2 * p) == n / 2 / p
  {
    var q, r := n / 2 / p, n / 2 % p;
    assert n / 2 == q * p + r && n == 2 * (n / 2) + n % 2;
    assert 2 * (q * p) == q * (2 * p);
    RemainderIs(n, 2 * p, 2 * r + n % 2, q);
    SameQuotient(n, 2 * p, q, 2 * r + n % 2);
  }

  lemma SameQuotient(n: nat, d: nat, q: nat, r: nat)
    requires d > 0 && n == q * d + r && n % d == r
    ensures n / d == q
  {
    assert n == n / d * d + n % d;
    if n / d != q {
      assert (n / d - q) * d == 0;
      MulAtLeast(if n / d > q then n / d - q else q - n / d, d);
    }
  }
}
