/** The rounded 16-bit multiply (verus/verus_clhash.cpp): the x86 instruction and the
    form the ARM build emulates it with. */
module Mulhrs {

  type Int16 = x: int | -32768 <= x <= 32767

  /** Truncation to 16 bits, two's complement. */
  function Wrap16(x: int): Int16 {
    (x + 32768) % 65536 - 32768
  }

  function Saturate16(x: int): Int16 {
    if x < -32768 then -32768 else if x > 32767 then 32767 else x
  }

  /** One lane of x86 PMULHRSW: product shifted right by 14, plus one, shifted by 1. */
  function Pmulhrsw(a: Int16, b: Int16): Int16 {
    Wrap16((a * b / 16384 + 1) / 2)
  }

  /** One lane of ARM SQRDMULH: doubled product, rounded, high half, saturated. */
  function Sqrdmulh(a: Int16, b: Int16): Int16 {
    Saturate16((2 * (a * b) + 32768) / 65536)
  }

  /** Exclusive or with a lane mask of all zeros or all ones. */
  function XorMask(x: Int16, ones: bool): Int16 {
    if ones then -1 - x else x
  }

  /** One lane of `verus_mulhrs_epi16` on ARM. */
  function Native(a: Int16, b: Int16): Int16 {
    var rounded := Sqrdmulh(a, b);
    var bothMinimum := (if a > b then a else b) == -32768;
    XorMask(rounded, bothMinimum)
  }

  /** Rounding in two steps is rounding in one, for every integer. */
  lemma RoundingIdentity(m: int)
    ensures (m / 16384 + 1) / 2 == (2 * m + 32768) / 65536
  {
    var q, r := m / 16384, m % 16384;
    assert m == 16384 * q + r;
  }

  lemma ProductBound(a: Int16, b: Int16)
    ensures -32768 * 32767 <= a * b
    ensures a != -32768 || b != -32768 ==> a * b <= 32768 * 32767
  {
    var s: int, t: int := a, b;
    var x: int, y: int := if s < 0 then -s else s, if t < 0 then -t else t;
    assert a * b == if (a < 0) == (b < 0) then x * y else -(x * y);
    if (a < 0) == (b < 0) {
      if a != -32768 || b != -32768 {
        if x <= 32767 { Scale(x, 32767, y); } else { Scale(y, 32767, x); }
      }
    } else {
      if a < 0 { Scale(y, 32767, x); } else { Scale(x, 32767, y); }
    }
  }

  lemma Scale(x: nat, m: nat, y: nat)
    requires x <= m && y <= 32768
    ensures x * y <= m * 32768
  {
    var d, e := m - x, 32768 - y;
    assert m * 32768 == x * y + x * e + d * 32768;
  }

  /** The emulation is exact in every lane, the saturating corner included. */
  lemma NativeIsPmulhrsw(a: Int16, b: Int16)
    ensures Native(a, b) == Pmulhrsw(a, b)
  {
    ProductBound(a, b);
    if a == -32768 && b == -32768 {
      Corner(a * b);
    } else {
      Rounds(a * b);
    }
  }

  /** Away from the corner neither form leaves the range of a lane. */
  lemma Rounds(m: int)
    requires -32768 * 32767 <= m <= 32768 * 32767
    ensures Saturate16((2 * m + 32768) / 65536) == Wrap16((m / 16384 + 1) / 2) == (2 * m + 32768) / 65536
  {
    RoundingIdentity(m);
  }

  lemma Corner(m: int)
    requires m == 0x4000_0000
    ensures Saturate16((2 * m + 32768) / 65536) == 32767 && Wrap16((m / 16384 + 1) / 2) == -32768
  {
  }

  /** `verus_mulhrs_epi16` on whole registers. */
  lemma NativeVectorIsPmulhrsw(a: seq<Int16>, b: seq<Int16>)
    requires |a| == |b| == 8
    ensures seq(8, i requires 0 <= i < 8 => Native(a[i], b[i])) == seq(8, i requires 0 <= i < 8 => Pmulhrsw(a[i], b[i]))
  {
    forall i | 0 <= i < 8 ensures Native(a[i], b[i]) == Pmulhrsw(a[i], b[i]) {
      NativeIsPmulhrsw(a[i], b[i]);
    }
  }
}
