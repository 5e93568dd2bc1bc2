/** Carry-less arithmetic: polynomials over GF(2) as bit sequences, bit i the
    coefficient of x^i, and the table-based reduction of verus/verus_clhash.cpp. */
module Gf2 {
  import opened Limbs

  type Bits = seq<bool>

  /** Coefficient i; all coefficients outside the sequence are 0. */
  function C(p: Bits, i: int): bool {
    0 <= i < |p| && p[i]
  }

  /** The sum of C(a, k - i) * C(b, i) over i < n. */
  function Convolve(a: Bits, b: Bits, k: int, n: nat): bool {
    if n == 0 then false else Convolve(a, b, k, n - 1) != (C(b, n - 1) && C(a, k - (n - 1)))
  }

  /** Coefficient k of the product of two polynomials. */
  function Product(a: Bits, b: Bits, k: int): bool {
    Convolve(a, b, k, |b|)
  }

  function Zeros(n: nat): Bits {
    seq(n, _ => false)
  }

  /** x^4 + x^3 + x + 1, as the 64-bit operand 0x1B. */
  const LOW: Bits := [true, true, false, true, true] + Zeros(59)

  /** x^64 + x^4 + x^3 + x + 1. */
  const MODULUS: Bits := LOW + [true]

  /** r is a remainder of a: for some polynomial q, a = q * MODULUS + r, with the degree
      of r below 64. */
  ghost predicate IsRemainder(a: Bits, r: Bits) {
    |r| == 64 && exists q: Bits :: IsQuotient(a, r, q)
  }

  ghost predicate IsQuotient(a: Bits, r: Bits, q: Bits) {
    forall k: nat :: C(a, k) == (Product(q, MODULUS, k) != C(r, k))
  }

  //
  // precompReduction64
  //

  /** PCLMULQDQ / PMULL: 64 x 64 bits to 128. */
  function Clmul(a: Bits, b: Bits): (r: Bits)
    ensures |r| == 128
  {
    seq(128, k requires 0 <= k < 128 => Product(a, b, k))
  }

  const TABLE: seq<nat> := [0, 27, 54, 45, 108, 119, 90, 65, 216, 195, 238, 245, 180, 175, 130, 153]

  function Digit(b: bool): nat {
    if b then 1 else 0
  }

  /** The number in the low four bits of byte `at / 8`. */
  function Nibble(x: Bits, at: nat): (n: nat)
    ensures n < 16
  {
    Digit(C(x, at)) + 2 * Digit(C(x, at + 1)) + 4 * Digit(C(x, at + 2)) + 8 * Digit(C(x, at + 3))
  }

  predicate BitOf(n: nat, i: nat) {
    n / Pow2(i) % 2 == 1
  }

  /** PSHUFB into the table: byte j of the result is the table byte selected by the low
      nibble of index byte j, or 0 when that byte has its top bit set. */
  function Shuffle(index: Bits): (r: Bits)
    ensures |r| == 128
  {
    seq(128, k requires 0 <= k < 128 =>
      !C(index, k / 8 * 8 + 7) && BitOf(TABLE[Nibble(index, k / 8 * 8)], k % 8))
  }

  function Xor(a: Bits, b: Bits): (r: Bits)
    requires |a| == |b|
    ensures |r| == |a|
  {
    seq(|a|, i requires 0 <= i < |a| => a[i] != b[i])
  }

  /** ARM: the register joined to a zero register, from byte 8 on. */
  function VextZero8(q: Bits): (r: Bits)
    requires |q| == 128
    ensures |r| == 128
  {
    (q + Zeros(128))[64..192]
  }

  /** x86: the register shifted right by 8 bytes. */
  function ShiftRight8(q: Bits): (r: Bits)
    requires |q| == 128
    ensures |r| == 128
  {
    seq(128, i requires 0 <= i < 128 => C(q, i + 64))
  }

  /** The high half, as either build moves it down. */
  function HighHalf(arm: bool, q: Bits): (r: Bits)
    requires |q| == 128
    ensures |r| == 128
  {
    if arm then VextZero8(q) else ShiftRight8(q)
  }

  lemma HighHalfIs(arm: bool, q: Bits)
    requires |q| == 128
    ensures HighHalf(arm, q) == q[64..] + Zeros(64)
  {
  }

  /** `precompReduction64`: the low 64 bits of the reduced register. */
  function PrecompReduction64(arm: bool, a: Bits): (r: Bits)
    requires |a| == 128
    ensures |r| == 64
  {
    var q2 := Clmul(a[64..], LOW);
    var q2High := HighHalf(arm, q2);
    var q3 := Shuffle(q2High);
    var q4 := Xor(q2, a);
    Xor(q3, q4)[..64]
  }

  //
  // Multiplying by the two fixed polynomials
  //

  /** Coefficient k of p times x^4 + x^3 + x + 1. */
  function L(p: Bits, k: int): bool {
    ((C(p, k) != C(p, k - 1)) != C(p, k - 3)) != C(p, k - 4)
  }

  lemma {:induction false} ConvolveSparse(a: Bits, b: Bits, k: int, n: nat)
    requires n >= 5 && |b| >= n && b[..5] == [true, true, false, true, true]
    requires forall i :: 5 <= i < n ==> !b[i]
    ensures Convolve(a, b, k, n) == L(a, k)
  {
    if n > 5 {
      ConvolveSparse(a, b, k, n - 1);
    } else {
      assert b[0] == b[..5][0] && b[1] == b[..5][1] && b[2] == b[..5][2] && b[3] == b[..5][3] && b[4] == b[..5][4];
      assert Convolve(a, b, k, 1) == C(a, k);
      assert Convolve(a, b, k, 2) == (C(a, k) != C(a, k - 1));
      assert Convolve(a, b, k, 3) == (C(a, k) != C(a, k - 1));
      assert Convolve(a, b, k, 4) == ((C(a, k) != C(a, k - 1)) != C(a, k - 3));
    }
  }

  lemma TimesLow(a: Bits, k: int)
    ensures Product(a, LOW, k) == L(a, k)
  {
    assert LOW[..5] == [true, true, false, true, true];
    ConvolveSparse(a, LOW, k, 64);
  }

  lemma TimesModulus(q: Bits, k: int)
    ensures Product(q, MODULUS, k) == (L(q, k) != C(q, k - 64))
  {
    assert MODULUS[..5] == [true, true, false, true, true];
    assert MODULUS[64] && |MODULUS| == 65;
    ConvolveSparse(q, MODULUS, k, 64);
  }

  //
  // The reduction is the remainder
  //

  /** The first product overflows 64 bits by at most four bits. */
  lemma OverflowFitsFourBits(hi: Bits, i: nat)
    requires |hi| == 64 && 4 <= i < 64
    ensures !Clmul(hi, LOW)[64..][i]
  {
    TimesLow(hi, 64 + i);
  }

  /** The table is multiplication of a 4-bit polynomial by x^4 + x^3 + x + 1. */
  lemma TableIsProduct(over: Bits, j: nat)
    requires |over| == 128 && j < 8
    ensures BitOf(TABLE[Nibble(over, 0)], j) == L(over[..4], j)
  {
    assert Pow2(0) == 1 && Pow2(1) == 2 && Pow2(2) == 4 && Pow2(3) == 8;
    assert Pow2(4) == 16 && Pow2(5) == 32 && Pow2(6) == 64 && Pow2(7) == 128;
    var b0, b1, b2, b3 := over[0], over[1], over[2], over[3];
    var n := Nibble(over, 0);
  }

  lemma ShuffleIsProduct(over: Bits, k: nat)
    requires |over| == 128 && k < 64 && forall i :: 4 <= i < 128 ==> !over[i]
    ensures Shuffle(over)[k] == L(over, k)
  {
    if k < 8 {
      TableIsProduct(over, k);
    } else {
      assert Nibble(over, k / 8 * 8) == 0;
      assert TABLE[0] == 0 && !BitOf(0, k % 8);
    }
  }

  /** The quotient: the high half, corrected by the overflow of the first product. */
  lemma ReductionHasQuotient(arm: bool, a: Bits)
    requires |a| == 128
    ensures var hi := a[64..]; IsQuotient(a, PrecompReduction64(arm, a), Xor(hi, Clmul(hi, LOW)[64..]))
  {
    var hi := a[64..];
    var over := Clmul(hi, LOW)[64..];
    var q, r := Xor(hi, over), PrecompReduction64(arm, a);
    forall i | 4 <= i < 64 ensures !over[i] { OverflowFitsFourBits(hi, i); }
    forall k: nat ensures C(a, k) == (Product(q, MODULUS, k) != C(r, k)) {
      CoefficientAt(arm, a, hi, over, q, k);
    }
  }

  lemma CoefficientAt(arm: bool, a: Bits, hi: Bits, over: Bits, q: Bits, k: nat)
    requires |a| == 128 && hi == a[64..] && over == Clmul(hi, LOW)[64..] && q == Xor(hi, over)
    requires forall i :: 4 <= i < 64 ==> !over[i]
    ensures C(a, k) == (Product(q, MODULUS, k) != C(PrecompReduction64(arm, a), k))
  {
    TimesModulus(q, k);
    assert L(q, k) == (L(hi, k) != L(over, k));
    if k < 64 {
      TimesLow(hi, k);
      TableStep(arm, Clmul(hi, LOW), k);
    } else if k < 128 {
      TimesLow(hi, k);
      assert over[k - 64] == L(hi, k);
    }
  }

  lemma TableStep(arm: bool, q2: Bits, k: nat)
    requires |q2| == 128 && k < 64 && forall i :: 4 <= i < 64 ==> !q2[64..][i]
    ensures Shuffle(HighHalf(arm, q2))[k] == L(q2[64..], k)
  {
    HighHalfIs(arm, q2);
    ShuffleIsProduct(HighHalf(arm, q2), k);
  }

  /** Quotients of the same dividend agree, highest coefficient first. */
  lemma {:induction false} QuotientUnique(a: Bits, r: Bits, s: Bits, p: Bits, q: Bits, i: nat)
    requires |r| == |s| == 64 && IsQuotient(a, r, p) && IsQuotient(a, s, q)
    ensures C(p, i) == C(q, i)
    decreases |p| + |q| - i
  {
    if i < |p| || i < |q| {
      var k := i + 64;
      QuotientUnique(a, r, s, p, q, i + 60);
      QuotientUnique(a, r, s, p, q, i + 61);
      QuotientUnique(a, r, s, p, q, i + 63);
      QuotientUnique(a, r, s, p, q, i + 64);
      TimesModulus(p, k);
      TimesModulus(q, k);
      assert C(a, k) == (Product(p, MODULUS, k) != C(r, k)) == (Product(q, MODULUS, k) != C(s, k));
    }
  }

  lemma RemainderUnique(a: Bits, r: Bits, s: Bits)
    requires IsRemainder(a, r) && IsRemainder(a, s)
    ensures r == s
  {
    var p: Bits :| IsQuotient(a, r, p);
    var q: Bits :| IsQuotient(a, s, q);
    forall i | 0 <= i < 64 ensures r[i] == s[i] {
      TimesModulus(p, i);
      TimesModulus(q, i);
      QuotientUnique(a, r, s, p, q, i);
      if i >= 1 { QuotientUnique(a, r, s, p, q, i - 1); }
      if i >= 3 { QuotientUnique(a, r, s, p, q, i - 3); }
      if i >= 4 { QuotientUnique(a, r, s, p, q, i - 4); }
      assert C(a, i) == (Product(p, MODULUS, i) != C(r, i)) == (Product(q, MODULUS, i) != C(s, i));
    }
  }

  /** For every 128-bit register the reduction is the remainder modulo the polynomial,
      the only one there is. */
  lemma ReductionIsRemainder(arm: bool, a: Bits, r: Bits)
    requires |a| == 128
    ensures IsRemainder(a, r) <==> r == PrecompReduction64(arm, a)
  {
    ReductionHasQuotient(arm, a);
    if IsRemainder(a, r) {
      RemainderUnique(a, r, PrecompReduction64(arm, a));
    }
  }

  /** Hence both builds reduce alike. */
  lemma ReductionsAgree(a: Bits)
    requires |a| == 128
    ensures PrecompReduction64(true, a) == PrecompReduction64(false, a)
  {
    ReductionIsRemainder(true, a, PrecompReduction64(true, a));
    ReductionIsRemainder(false, a, PrecompReduction64(true, a));
  }
}
