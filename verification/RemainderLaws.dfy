/** The remainder of cases 3 and 6 as an integer. */
module RemainderLaws {
  import opened Simd
  import opened BitNumbers
  import opened Octets
  import opened Selector
  import opened Clhash

  /** The two's complement reading of a number below 2 * half. */
  function Wrap(n: nat, half: nat): int
    requires n < 2 * half
  {
    if n < half then n else n - 2 * half
  }

  lemma Signed32Is(x: bv32)
    ensures x as nat < 0x1_0000_0000 && Signed32(x) == Wrap(x as nat, 0x8000_0000)
  {
  }

  lemma Signed64Is(x: bv64)
    ensures x as nat < 0x1_0000_0000_0000_0000 && Signed64(x) == Wrap(x as nat, 0x8000_0000_0000_0000)
  {
  }

  /** The divisor is the low word of the selector, as a signed integer. */
  lemma DivisorIs(sel: bv64)
    ensures Divisor(sel) == Wrap(sel as nat % 0x1_0000_0000, 0x8000_0000)
  {
    Words64(sel);
    Signed32Is((sel & 0xffff_ffff) as bv32);
  }

  lemma TakeWord(r: int) returns (w: bv32, n: nat)
    ensures FromInt32(r) == Vec(w, 0, 0, 0) && n == r % 0x1_0000_0000 && w as nat == n
  {
    n := r % 0x1_0000_0000;
    w := WordOf(n);
    WordOfValue(n);
  }

  /** A register holds a 32-bit integer in its low word. */
  lemma FromInt32Is(r: int)
    requires -0x8000_0000 <= r < 0x8000_0000
    ensures FromInt32(r) == Vec(FromInt32(r).w0, 0, 0, 0) && Signed32(FromInt32(r).w0) == r
  {
    var w, n := TakeWord(r);
    WrapRound(r, n);
    Signed32Is(w);
  }

  lemma WrapRound(r: int, n: nat)
    requires -0x8000_0000 <= r < 0x8000_0000 && n == r % 0x1_0000_0000
    ensures Wrap(n, 0x8000_0000) == r
  {
  }

  /** What cases 3 and 6 add is the one remainder of the low half by the divisor that is
      smaller than it and has the sign of the dividend, and nothing in the other words. */
  lemma ModuloMeaning(sel: bv64, dividend: bv64)
    requires Tag(sel) == 3 || Tag(sel) == 6
    ensures var v, a, b := Modulo(sel, dividend), Signed64(dividend), Divisor(sel);
      v.w1 == v.w2 == v.w3 == 0 && Divides64(a, b, Signed32(v.w0)) && Truncated(a, b, Signed32(v.w0))
  {
    RemainderIsSafe(sel, dividend);
    var a, b := Signed64(dividend), Divisor(sel);
    TruncatedRange(a, b);
    FromInt32Is(TruncRem(a, b));
  }

  /** The C remainder is smaller than the divisor and has the sign of the dividend. */
  predicate Truncated(a: int, b: int, r: int) {
    (if b < 0 then b < r < -b else -b < r < b) && (a >= 0 ==> r >= 0) && (a <= 0 ==> r <= 0)
  }

  lemma TruncatedRange(a: int, b: int)
    requires b != 0
    ensures Truncated(a, b, TruncRem(a, b))
  {
  }

  /** There is only one. */
  lemma RemainderUnique(a: int, b: int, q: int, r: int, p: int, s: int)
    requires b != 0 && a == q * b + r && a == p * b + s && Truncated(a, b, r) && Truncated(a, b, s)
    ensures r == s && q == p
  {
    assert (q - p) * b == s - r;
    if q != p {
      Apart(q - p, b);
    }
  }

  lemma Apart(k: int, b: int)
    requires k != 0 && b != 0
    ensures k * b <= -1 * (if b < 0 then -b else b) || k * b >= if b < 0 then -b else b
  {
    var m, c := if k < 0 then -k else k, if b < 0 then -b else b;
    assert m * c == c + (m - 1) * c;
    assert (m - 1) * c >= 0;
    assert k * b == if (k < 0) == (b < 0) then m * c else -(m * c);
  }
}
