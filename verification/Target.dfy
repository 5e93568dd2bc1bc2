/** The target a pool sends (`verus_stratum_set_target` of verus/stratum.cpp): what is stored
    for the scan, and the compact form the difficulty is computed from. */
module Target {
  import opened Simd
  import opened Limbs
  import opened Octets
  import opened BitNumbers
  import opened Hex
  import opened Wrappers
  import Uint256

  //
  // What the byte loop keeps
  //

  function NonZero(s: seq<Byte>): nat {
    if s == [] then 0 else NonZero(s[..|s| - 1]) + if s[|s| - 1] != 0 then 1 else 0
  }

  lemma NonZeroSnoc(s: seq<Byte>, i: nat)
    requires i < |s|
    ensures NonZero(s[..i + 1]) == NonZero(s[..i]) + if s[i] != 0 then 1 else 0
  {
    assert s[..i + 1][..i] == s[..i];
  }

  /** Where the copy stops: after the eighth nonzero byte, or at the end. */
  ghost predicate StopsAt(bin: seq<Byte>, n: nat) {
    n <= |bin| && (NonZero(bin[..n]) == 8 || (n == |bin| && NonZero(bin) < 8))
  }

  /** stored is the first n bytes of bin, in reverse, with zeros for the others. */
  ghost predicate KeepsFirst(bin: seq<Byte>, n: nat, stored: seq<Byte>) {
    n <= |bin| && stored == Backwards(bin[..n] + Zeros(|bin| - n))
  }

  ghost predicate Keeps(bin: seq<Byte>, stored: seq<Byte>) {
    exists n :: StopsAt(bin, n) && KeepsFirst(bin, n, stored)
  }

  /** The index of the first nonzero byte, where `bits_start` points; the length for none. */
  function FirstNonZero(bin: seq<Byte>): (i: nat)
    ensures i <= |bin|
    ensures forall k :: 0 <= k < i ==> bin[k] == 0
    ensures i < |bin| ==> bin[i] != 0
  {
    if bin == [] || bin[0] != 0 then 0
    else
      var i := 1 + FirstNonZero(bin[1..]);
      assert forall k :: 0 < k < |bin| ==> bin[k] == bin[1..][k - 1];
      i
  }

  //
  // verus_stratum_set_target
  //

  /** What `hex2bin` leaves in `target_bin`; its failure is ignored. */
  function TargetBin(targetHex: string, garbage: seq<Byte>): (r: seq<Byte>)
    requires |garbage| == 32
    ensures |r| == 32
  {
    var w := Output(targetHex, 32);
    w + garbage[|w|..]
  }

  /** Of 64 acceptable digits every byte is the pool's. */
  lemma TargetBinIs(targetHex: string, garbage: seq<Byte>)
    requires |garbage| == 32 && Accepts(targetHex, 32)
    ensures TargetBin(targetHex, garbage) == Unhex(targetHex)
  {
    AcceptedOutput(targetHex, 32);
  }

  /** `exponent`, computed from `padding`, the number of bytes after index i. */
  function Exponent(i: nat): (e: nat)
    requires i < 32
    ensures e == 32 - i
  {
    ((31 - i) * 8 + 1 + 7) / 8
  }

  /** `bits_start` is set, and the three coefficient bytes lie inside `target_be`. */
  predicate CoefficientDefined(bin: seq<Byte>)
    requires |bin| == 32
  {
    var i := FirstNonZero(bin);
    i < 32 && 3 <= Exponent(i) <= 32
  }

  /** Three octets, most significant first. */
  function Three(a: nat, b: nat, c: nat): nat {
    c + 256 * b + 65536 * a
  }

  /** The three octets of `target_be` below position e, as `memcpy` reads them. */
  function Coefficient(be: seq<Octet>, e: nat): nat
    requires |be| == 32 && 3 <= e <= 32
  {
    Three(be[e - 1], be[e - 2], be[e - 3])
  }

  /** The exponent or-ed into a top byte that held `top`, above the coefficient. */
  function Pack(c: nat, e: nat, top: Octet): nat {
    c + 0x100_0000 * Uint256.BitOr(top, e)
  }

  /** `target_bits`: coefficient and exponent put together over what the top byte held;
      nothing where the code reads outside its arrays. */
  function Compact(start: nat, be: seq<Octet>, top: Octet): Option<nat>
    requires start <= 32 && |be| == 32
  {
    if start < 32 && 3 <= Exponent(start) <= 32 then
      Some(Pack(Coefficient(be, Exponent(start)), Exponent(start), top))
    else None
  }

  /** `verus_stratum_set_target`, whatever the string: the stored target and `target_bits`,
      the latter missing where the code reads outside its arrays.  The empty string stands
      for a missing parameter too; `garbage` is the uninitialised `target_bin`, `top` the
      uninitialised top byte of `target_bits`. */
  method SetTarget(targetHex: string, garbage: seq<Byte>, top: Octet)
    returns (ok: bool, extra: seq<Byte>, bits: Option<nat>)
    requires |garbage| == 32
    ensures ok <==> targetHex != ""
    ensures ok ==>
      var bin := TargetBin(targetHex, garbage);
      && |extra| == 32 && bits == Compact(FirstNonZero(bin), Nums(extra), top)
      && Keeps(bin, extra)
  {
    if |targetHex| == 0 {
      return false, [], None;
    }
    var targetBin := ParseTarget(targetHex, garbage);
    var start;
    extra, start := FillTarget(targetBin);
    bits := Assemble(start, Nums(extra), top);
    ok := true;
  }

  method ParseTarget(targetHex: string, garbage: seq<Byte>) returns (bin: seq<Byte>)
    requires |garbage| == 32
    ensures bin == TargetBin(targetHex, garbage)
  {
    var targetBin := new Byte[32](i requires 0 <= i < 32 => garbage[i]);
    assert targetBin[..] == garbage;
    var parsed := Hex2Bin(targetBin, targetHex, 32);
    bin := targetBin[..];
  }

  /** The byte loop; `start` is where `bits_start` points, 32 while it is null. */
  method FillTarget(bin: seq<Byte>) returns (extra: seq<Byte>, start: nat)
    requires |bin| == 32
    ensures |extra| == 32 && Keeps(bin, extra) && start == FirstNonZero(bin)
  {
    var targetBe := new Byte[32](_ => 0);
    var filled, i := 0, 0;
    start := 32;
    assert bin[..0] == [];
    while i < 32
      invariant 0 <= i <= 32 && filled == NonZero(bin[..i]) <= 8
      invariant forall m :: 31 - i < m < 32 ==> targetBe[m] == bin[31 - m]
      invariant forall m :: 0 <= m <= 31 - i ==> targetBe[m] == 0
      invariant FoundFirst(bin, i, start) && (filled > 0 ==> start < i)
    {
      if filled == 8 {
        break;
      }
      targetBe[31 - i] := bin[i];
      NonZeroSnoc(bin, i);
      if bin[i] != 0 {
        filled := filled + 1;
        if start == 32 {
          start := i;
        }
      }
      i := i + 1;
    }
    extra := targetBe[..];
    assert i == 32 ==> bin[..i] == bin;
    KeptBytes(bin, i, extra);
    assert StopsAt(bin, i);
  }

  /** start is the first nonzero byte among the first i, or 32 when there is none. */
  ghost predicate FoundFirst(bin: seq<Byte>, i: nat, start: nat)
    requires |bin| == 32 && i <= 32
  {
    && (start == 32 || (start < i && bin[start] != 0))
    && forall k :: 0 <= k < i && k < start ==> bin[k] == 0
  }

  lemma KeptBytes(bin: seq<Byte>, n: nat, stored: seq<Byte>)
    requires |bin| == |stored| == 32 && n <= 32
    requires forall m :: 31 - n < m < 32 ==> stored[m] == bin[31 - m]
    requires forall m :: 0 <= m <= 31 - n ==> stored[m] == 0
    ensures KeepsFirst(bin, n, stored)
  {
    var kept := bin[..n] + Zeros(32 - n);
    forall m | 0 <= m < 32 ensures stored[m] == Backwards(kept)[m] {
      assert kept[31 - m] == if 31 - m < n then bin[31 - m] else 0;
    }
  }

  /** The assembly of `target_bits`. */
  method Assemble(start: nat, be: seq<Octet>, top: Octet) returns (bits: Option<nat>)
    requires start <= 32 && |be| == 32
    ensures bits == Compact(start, be, top)
  {
    if start == 32 {
      return None;
    }
    var exponent := Exponent(start);
    if exponent < 3 {
      return None;
    }
    var targetBits := Three(be[exponent - 1], be[exponent - 2], be[exponent - 3]);
    bits := Some(Pack(targetBits, exponent, top));
  }

  //
  // The stored target against the pool's
  //

  /** The pool's target as an integer, and the stored one. */
  function PoolValue(bin: seq<Byte>): nat {
    BigEndian(Nums(bin))
  }

  function StoredValue(stored: seq<Byte>): nat {
    LittleEndian(Nums(stored))
  }

  /** x falls short of a nonzero b by less than one part in 2^56. */
  ghost predicate Close(x: nat, b: nat) {
    b > 0 ==> (b - x) * Pow256(7) < b
  }

  /** The stored target never exceeds the pool's, and unless the pool's is zero it falls
      short of it by less than one part in 2^56. */
  lemma StoredTarget(bin: seq<Byte>, n: nat, stored: seq<Byte>)
    requires StopsAt(bin, n) && KeepsFirst(bin, n, stored)
    ensures StoredValue(stored) <= PoolValue(bin)
    ensures Close(StoredValue(stored), PoolValue(bin))
  {
    StoredParts(bin, n, stored);
    KeptIsLarge(bin, n);
    Shortfall(PoolValue(bin), StoredValue(stored), PoolValue(bin[..n]), Pow256(|bin| - n), PoolValue(bin[n..]),
              Pow256(7));
  }

  /** What is kept has eight nonzero bytes, unless nothing is lost. */
  lemma KeptIsLarge(bin: seq<Byte>, n: nat)
    requires StopsAt(bin, n)
    ensures PoolValue(bin[..n]) >= Pow256(7) || PoolValue(bin[n..]) == 0
  {
    if NonZero(bin[..n]) == 8 {
      NonZeroBound(bin[..n]);
    } else {
      assert Nums(bin[n..]) == [];
    }
  }

  /** A byte string with c nonzero bytes is at least 256^(c - 1). */
  lemma {:induction false} NonZeroBound(s: seq<Byte>)
    requires NonZero(s) > 0
    ensures PoolValue(s) >= Pow256(NonZero(s) - 1)
  {
    var t := s[..|s| - 1];
    PoolValueSnoc(s);
    if NonZero(t) > 0 {
      NonZeroBound(t);
    } else {
      assert NonZero(s) == 1;
    }
  }

  lemma PoolValueSnoc(s: seq<Byte>)
    requires s != []
    ensures PoolValue(s) == 256 * PoolValue(s[..|s| - 1]) + Num(s[|s| - 1])
    ensures Num(s[|s| - 1]) == 0 <==> s[|s| - 1] == 0
  {
    NumZero(s[|s| - 1]);
    assert Nums(s)[..|s| - 1] == Nums(s[..|s| - 1]);
  }

  lemma StoredParts(bin: seq<Byte>, n: nat, stored: seq<Byte>)
    requires KeepsFirst(bin, n, stored)
    ensures StoredValue(stored) == PoolValue(bin[..n]) * Pow256(|bin| - n)
    ensures PoolValue(bin) == StoredValue(stored) + PoolValue(bin[n..])
    ensures PoolValue(bin[n..]) < Pow256(|bin| - n)
  {
    Padded(Nums(bin[..n]), Nums(bin[n..]), ZeroNums(|bin| - n));
    StoredReversed(bin, n, stored);
    LittleIsBig(Nums(stored));
    NumsSplit(bin, n);
  }

  function ZeroNums(n: nat): (r: seq<Octet>)
    ensures |r| == n && forall i :: 0 <= i < n ==> r[i] == 0
  {
    seq(n, _ => 0)
  }

  lemma NumsSplit(bin: seq<Byte>, n: nat)
    requires n <= |bin|
    ensures Nums(bin) == Nums(bin[..n]) + Nums(bin[n..])
  {
  }

  lemma StoredReversed(bin: seq<Byte>, n: nat, stored: seq<Byte>)
    requires KeepsFirst(bin, n, stored)
    ensures Backwards(Nums(stored)) == Nums(bin[..n]) + ZeroNums(|bin| - n)
  {
    var padded := bin[..n] + Zeros(|bin| - n);
    NumZero(0);
    assert Nums(padded) == Nums(bin[..n]) + ZeroNums(|bin| - n);
    assert Backwards(Nums(stored)) == Nums(padded);
  }

  lemma Shortfall(b: nat, s: nat, k: nat, p: nat, rest: nat, q: nat)
    requires s == k * p && b == s + rest && rest < p && (k >= q > 0 || rest == 0)
    ensures b > 0 ==> (b - s) * q < b
  {
    if rest > 0 {
      MulStep(q, rest, p);
      assert k * p == q * p + (k - q) * p;
    } else {
      assert (b - s) * q == 0;
    }
  }

  /** The whole pool target is stored exactly when it has at most eight nonzero bytes. */
  lemma StoredExactly(bin: seq<Byte>, n: nat, stored: seq<Byte>)
    requires StopsAt(bin, n) && KeepsFirst(bin, n, stored)
    ensures StoredValue(stored) == PoolValue(bin) <==> NonZero(bin) <= 8
  {
    StoredParts(bin, n, stored);
    NonZeroConcat(bin, n, |bin|);
    assert bin[..|bin|] == bin && bin[n..|bin|] == bin[n..];
    ZeroValue(bin[n..]);
  }

  lemma {:induction false} NonZeroConcat(s: seq<Byte>, i: nat, j: nat)
    requires i <= j <= |s|
    ensures NonZero(s[..j]) == NonZero(s[..i]) + NonZero(s[i..j])
  {
    if i < j {
      NonZeroConcat(s, i, j - 1);
      NonZeroSnoc(s, j - 1);
      assert s[i..j][..j - 1 - i] == s[i..j - 1];
    }
  }

  lemma {:induction false} ZeroValue(s: seq<Byte>)
    ensures PoolValue(s) == 0 <==> NonZero(s) == 0
  {
    if s != [] {
      PoolValueSnoc(s);
      ZeroValue(s[..|s| - 1]);
    }
  }

  lemma CloserYet(x: nat, y: nat, b: nat)
    requires x < y <= b && Close(x, b)
    ensures Close(y, b)
  {
    assert (b - x) * Pow256(7) == (b - y) * Pow256(7) + (y - x) * Pow256(7);
  }

  //
  // The compact form
  //

  /** i is the index of the first nonzero octet. */
  ghost predicate LeadsAt(o: seq<Octet>, i: nat) {
    i < |o| && o[i] > 0 && forall k :: 0 <= k < i ==> o[k] == 0
  }

  lemma FirstLeads(bin: seq<Byte>)
    ensures var i := FirstNonZero(bin); if i < |bin| then LeadsAt(Nums(bin), i) else PoolValue(bin) == 0
  {
    var i := FirstNonZero(bin);
    NumZero(0);
    if i < |bin| {
      NumZero(bin[i]);
    } else {
      BigEndianZeros(Nums(bin));
    }
  }

  /** Leading zeros do not count, and the first nonzero octet fixes the size. */
  lemma ValueFrom(o: seq<Octet>, i: nat)
    requires LeadsAt(o, i)
    ensures BigEndian(o) == BigEndian(o[i..]) && Pow256(|o| - i - 1) <= BigEndian(o) < Pow256(|o| - i)
  {
    assert o == o[..i] + o[i..];
    Leading(o[..i], o[i..]);
    LeadingDigit(o[i..]);
  }

  /** The code reads inside its arrays exactly for targets from 65536 on. */
  lemma CoefficientDefinedIff(bin: seq<Byte>)
    requires |bin| == 32
    ensures CoefficientDefined(bin) <==> PoolValue(bin) >= 65536
  {
    var i := FirstNonZero(bin);
    FirstLeads(bin);
    if i < 32 {
      ValueFrom(Nums(bin), i);
      SizeDecides(i, PoolValue(bin));
    }
  }

  lemma SizeDecides(i: nat, v: nat)
    requires i < 32 && Pow256(31 - i) <= v < Pow256(32 - i)
    ensures 3 <= Exponent(i) <= 32 <==> v >= 65536
  {
    assert Pow256(2) == 65536;
    if i <= 29 {
      Pow256Grows(2, 31 - i);
    } else {
      Pow256Grows(32 - i, 2);
    }
  }

  /** The coefficient below position 32 - i has a nonzero top byte, and v is that coefficient
      and something less than its last place. */
  ghost predicate RoundedDown(be: seq<Octet>, i: nat, v: nat)
    requires |be| == 32 && i <= 29
  {
    var c := Coefficient(be, 32 - i);
    c >= 65536 && c * Pow256(29 - i) <= v < (c + 1) * Pow256(29 - i)
  }

  /** And then the coefficient is the three leading bytes of the pool's target: the compact
      form is the target rounded down to three bytes. */
  lemma CoefficientMeaning(bin: seq<Byte>, n: nat, stored: seq<Byte>)
    requires |bin| == 32 && StopsAt(bin, n) && KeepsFirst(bin, n, stored) && CoefficientDefined(bin)
    ensures |stored| == 32
    ensures var i := FirstNonZero(bin); Exponent(i) == 32 - i && RoundedDown(Nums(stored), i, PoolValue(bin))
  {
    FirstLeads(bin);
    LeadingKept(bin, n);
    StoredReversed(bin, n, stored);
    KeptNums(bin, n);
    LeadingThree(Nums(bin), n, Nums(stored), FirstNonZero(bin));
  }

  lemma KeptNums(bin: seq<Byte>, n: nat)
    requires n <= |bin|
    ensures Nums(bin[..n]) == Nums(bin)[..n]
  {
  }

  lemma LeadingThree(o: seq<Octet>, n: nat, stored: seq<Octet>, i: nat)
    requires |o| == |stored| == 32 && n <= 32 && LeadsAt(o, i) && i + 3 <= n
    requires Backwards(stored) == o[..n] + ZeroNums(32 - n)
    ensures RoundedDown(stored, i, BigEndian(o))
  {
    StoredThree(o, n, stored, i);
    ValueFrom(o, i);
    ThreeLeading(o[i..]);
    var c := Three(o[i], o[i + 1], o[i + 2]);
    LeadingBounds(BigEndian(o), c, Pow256(29 - i), BigEndian(o[i..][3..]));
  }

  lemma StoredThree(o: seq<Octet>, n: nat, stored: seq<Octet>, i: nat)
    requires |o| == |stored| == 32 && n <= 32 && i + 3 <= n
    requires Backwards(stored) == o[..n] + ZeroNums(32 - n)
    ensures Coefficient(stored, 32 - i) == Three(o[i], o[i + 1], o[i + 2])
  {
    var kept := Backwards(stored);
    assert stored[31 - i] == kept[i] && stored[30 - i] == kept[i + 1] && stored[29 - i] == kept[i + 2];
  }

  /** The three leading bytes are among those kept. */
  lemma LeadingKept(bin: seq<Byte>, n: nat)
    requires |bin| == 32 && StopsAt(bin, n) && CoefficientDefined(bin)
    ensures FirstNonZero(bin) + 3 <= n
  {
    var i := FirstNonZero(bin);
    if NonZero(bin[..n]) == 8 {
      if n < i {
        NonePrefix(bin, n);
      } else {
        NonePrefix(bin, i);
        NonZeroConcat(bin, i, n);
        NonZeroSize(bin[i..n]);
      }
    }
  }

  lemma {:induction false} NonePrefix(bin: seq<Byte>, k: nat)
    requires k <= FirstNonZero(bin)
    ensures NonZero(bin[..k]) == 0
  {
    if k > 0 {
      NonePrefix(bin, k - 1);
      NonZeroSnoc(bin, k - 1);
    }
  }

  lemma {:induction false} NonZeroSize(s: seq<Byte>)
    ensures NonZero(s) <= |s|
  {
    if s != [] {
      NonZeroSize(s[..|s| - 1]);
    }
  }

  lemma ThreeLeading(s: seq<Octet>)
    requires |s| >= 3
    ensures BigEndian(s) == Three(s[0], s[1], s[2]) * Pow256(|s| - 3) + BigEndian(s[3..])
    ensures BigEndian(s[3..]) < Pow256(|s| - 3)
  {
    assert s == s[..3] + s[3..];
    BigEndianConcat(s[..3], s[3..]);
    BigEndianBound(s[3..]);
    ThreeOctets(s[..3]);
  }

  lemma ThreeOctets(s: seq<Octet>)
    requires |s| == 3
    ensures BigEndian(s) == Three(s[0], s[1], s[2])
  {
    assert s[..2][..1] == s[..1] && s[..1][..0] == [];
    assert BigEndian(s[..1]) == s[0];
    assert BigEndian(s[..2]) == 256 * BigEndian(s[..1]) + s[1];
  }

  lemma LeadingBounds(v: nat, c: nat, p: nat, rest: nat)
    requires v == c * p + rest && rest < p
    ensures c * p <= v < (c + 1) * p
  {
    assert (c + 1) * p == c * p + p;
  }

  /** The uninitialised byte always matters: no target determines `target_bits`, nor the
      difficulty computed from it.  They are the compact form exactly when that byte adds
      nothing to the exponent. */
  lemma BitsUndetermined(c: nat, e: nat, top: Octet)
    requires 3 <= e <= 32
    ensures Pack(c, e, 0) != Pack(c, e, 128)
    ensures Pack(c, e, top) == c + 0x100_0000 * e <==> Uint256.BitOr(top, e) == e
  {
    OrDiffers(e);
    OnlyTop(c, Uint256.BitOr(0, e), Uint256.BitOr(128, e));
    OnlyTop(c, Uint256.BitOr(top, e), e);
  }

  lemma OnlyTop(c: nat, x: nat, y: nat)
    ensures c + 0x100_0000 * x == c + 0x100_0000 * y <==> x == y
  {
  }

  lemma OrDiffers(e: nat)
    requires e < 128
    ensures Uint256.BitOr(0, e) == e && Uint256.BitOr(128, e) == 128 + e
  {
    Uint256.BitOrZero(e);
    assert Pow2(7) == 128;
    Uint256.BitOrDisjoint(e, 1, 7);
  }
}
