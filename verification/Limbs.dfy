/** Little-endian multi-limb naturals: the integers that hashes, targets and
    `base_uint` arrays stand for. */
module Limbs {

  const BASE: nat := 0x1_0000_0000

  type Limb = x: nat | x < 0x1_0000_0000

  type Octet = x: nat | x < 256

  function Pow2(n: nat): (r: nat)
    ensures r > 0
  {
    if n == 0 then 1 else 2 * Pow2(n - 1)
  }

  lemma {:induction false} Pow2Add(m: nat, n: nat)
    ensures Pow2(m + n) == Pow2(m) * Pow2(n)
  {
    if m > 0 {
      Pow2Add(m - 1, n);
      assert Pow2(m + n) == 2 * (Pow2(m - 1) * Pow2(n));
    }
  }

  /** BASE to the power n. */
  function Pow(n: nat): nat {
    if n == 0 then 1 else BASE * Pow(n - 1)
  }

  /** The integer a limb array stands for, least significant limb first. */
  function Value(s: seq<Limb>): nat {
    if |s| == 0 then 0 else s[0] + BASE * Value(s[1..])
  }

  lemma {:induction false} PowPositive(n: nat)
    ensures Pow(n) > 0
  {
    if n > 0 {
      PowPositive(n - 1);
    }
  }

  lemma {:induction false} PowAdd(m: nat, n: nat)
    ensures Pow(m + n) == Pow(m) * Pow(n)
  {
    if m > 0 {
      PowAdd(m - 1, n);
      assert Pow(m + n) == BASE * (Pow(m - 1) * Pow(n));
    }
  }

  lemma {:induction false} ValueBound(s: seq<Limb>)
    ensures Value(s) < Pow(|s|)
  {
    if |s| > 0 {
      ValueBound(s[1..]);
    }
  }

  /** The value splits at any limb boundary. */
  lemma {:induction false} ValueConcat(s: seq<Limb>, t: seq<Limb>)
    ensures Value(s + t) == Value(s) + Pow(|s|) * Value(t)
  {
    if |s| == 0 {
      assert s + t == t;
    } else {
      ValueConcat(s[1..], t);
      assert (s + t)[1..] == s[1..] + t;
      assert Pow(|s|) * Value(t) == BASE * (Pow(|s| - 1) * Value(t));
    }
  }

  /** The most significant differing limb decides the order. */
  lemma TopLimbDecides(a: seq<Limb>, b: seq<Limb>, i: nat)
    requires |a| == |b| && i < |a|
    requires a[i + 1..] == b[i + 1..] && a[i] < b[i]
    ensures Value(a) < Value(b)
  {
    ValueConcat(a[..i + 1], a[i + 1..]);
    ValueConcat(b[..i + 1], b[i + 1..]);
    assert a == a[..i + 1] + a[i + 1..] && b == b[..i + 1] + b[i + 1..];
    TopLimbLess(a[..i + 1], b[..i + 1]);
  }

  lemma TopLimbLess(a: seq<Limb>, b: seq<Limb>)
    requires |a| == |b| > 0 && a[|a| - 1] < b[|b| - 1]
    ensures Value(a) < Value(b)
  {
    var n := |a| - 1;
    var x: Limb, y: Limb := a[n], b[n];
    TopLimb(a);
    TopLimb(b);
    ValueBound(a[..n]);
    MulStep(Pow(n), x, y);
  }

  lemma TopLimb(a: seq<Limb>)
    requires |a| > 0
    ensures Value(a) == Value(a[..|a| - 1]) + Pow(|a| - 1) * a[|a| - 1]
  {
    var n := |a| - 1;
    ValueConcat(a[..n], [a[n]]);
    assert a == a[..n] + [a[n]] && Value([a[n]]) == a[n];
  }

  lemma MulStep(p: nat, x: nat, y: nat)
    requires x < y
    ensures p * x + p <= p * y
  {
    var d: nat := y - x - 1;
    assert p * d >= 0;
    assert p * y == p * (x + 1 + d) == p * x + p + p * d;
  }

  /** Equal values of equal length have equal limbs. */
  lemma {:induction false} ValueInjective(a: seq<Limb>, b: seq<Limb>)
    requires |a| == |b| && Value(a) == Value(b)
    ensures a == b
  {
    if |a| > 0 {
      assert a[0] == b[0] && Value(a[1..]) == Value(b[1..]);
      ValueInjective(a[1..], b[1..]);
      assert a == [a[0]] + a[1..] && b == [b[0]] + b[1..];
    }
  }

  lemma MulAtLeast(k: int, p: int)
    requires k >= 1 && p > 0
    ensures k * p >= p
  {
    assert k * p == p + (k - 1) * p;
  }

  lemma RemainderIs(x: int, p: int, r: int, q: int)
    requires 0 <= r < p && x == r + q * p
    ensures x % p == r
  {
    var d, m := x / p, x % p;
    var k := d - q;
    assert k * p == d * p - q * p == r - m;
    if k >= 1 {
      MulAtLeast(k, p);
    } else if k <= -1 {
      MulAtLeast(-k, p);
    }
  }

  /** The last element first. */
  function Backwards<T>(s: seq<T>): (r: seq<T>)
    ensures |r| == |s| && forall i :: 0 <= i < |s| ==> r[i] == s[|s| - 1 - i]
  {
    seq(|s|, i requires 0 <= i < |s| => s[|s| - 1 - i])
  }
}
