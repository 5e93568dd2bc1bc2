/** Byte strings as integers, in both byte orders, and the 32-bit words they hold. */
module Octets {
  import opened Simd
  import opened Limbs
  import opened BitNumbers

  function Pow256(n: nat): (r: nat)
    ensures r > 0
  {
    if n == 0 then 1 else 256 * Pow256(n - 1)
  }

  function Nums(s: seq<Byte>): (r: seq<Octet>)
    ensures |r| == |s|
    ensures forall i :: 0 <= i < |s| ==> r[i] == Num(s[i])
  {
    seq(|s|, i requires 0 <= i < |s| => Num(s[i]))
  }

  lemma NumZero(b: Byte)
    ensures Num(b) == 0 <==> b == 0
  {
  }

  /** Most significant octet first. */
  function BigEndian(s: seq<Octet>): nat {
    if s == [] then 0 else 256 * BigEndian(s[..|s| - 1]) + s[|s| - 1]
  }

  /** Least significant octet first. */
  function LittleEndian(s: seq<Octet>): nat {
    if s == [] then 0 else s[0] + 256 * LittleEndian(s[1..])
  }

  lemma {:induction false} LittleIsBig(s: seq<Octet>)
    ensures LittleEndian(s) == BigEndian(Backwards(s))
  {
    if s != [] {
      LittleIsBig(s[1..]);
      assert Backwards(s)[..|s| - 1] == Backwards(s[1..]);
    }
  }

  lemma {:induction false} BigEndianConcat(a: seq<Octet>, b: seq<Octet>)
    ensures BigEndian(a + b) == BigEndian(a) * Pow256(|b|) + BigEndian(b)
  {
    if b == [] {
      assert a + b == a;
    } else {
      var c: seq<Octet>, x: Octet := b[..|b| - 1], b[|b| - 1];
      BigEndianConcat(a, c);
      assert (a + b)[..|a + b| - 1] == a + c;
      ConcatStep(BigEndian(a), Pow256(|c|), BigEndian(c));
    }
  }

  lemma ConcatStep(a: nat, p: nat, c: nat)
    ensures 256 * (a * p + c) == a * (256 * p) + 256 * c
  {
  }

  lemma {:induction false} BigEndianBound(s: seq<Octet>)
    ensures BigEndian(s) < Pow256(|s|)
  {
    if s != [] {
      BigEndianBound(s[..|s| - 1]);
    }
  }

  lemma {:induction false} BigEndianZeros(s: seq<Octet>)
    requires forall i :: 0 <= i < |s| ==> s[i] == 0
    ensures BigEndian(s) == 0
  {
    if s != [] {
      BigEndianZeros(s[..|s| - 1]);
    }
  }

  /** Digits replaced by zeros at the end are what is lost. */
  lemma Padded(kept: seq<Octet>, rest: seq<Octet>, zeros: seq<Octet>)
    requires |zeros| == |rest| && forall i :: 0 <= i < |zeros| ==> zeros[i] == 0
    ensures BigEndian(kept + zeros) == BigEndian(kept) * Pow256(|rest|)
    ensures BigEndian(kept + rest) == BigEndian(kept + zeros) + BigEndian(rest)
    ensures BigEndian(rest) < Pow256(|rest|)
  {
    BigEndianConcat(kept, rest);
    BigEndianBound(rest);
    BigEndianConcat(kept, zeros);
    BigEndianZeros(zeros);
  }

  /** Leading zeros do not count. */
  lemma Leading(zeros: seq<Octet>, rest: seq<Octet>)
    requires forall i :: 0 <= i < |zeros| ==> zeros[i] == 0
    ensures BigEndian(zeros + rest) == BigEndian(rest) < Pow256(|rest|)
  {
    BigEndianZeros(zeros);
    BigEndianConcat(zeros, rest);
    NoneOf(BigEndian(zeros), Pow256(|rest|));
    BigEndianBound(rest);
  }

  lemma NoneOf(k: nat, p: nat)
    requires k == 0
    ensures k * p == 0
  {
  }

  lemma LeadingDigit(s: seq<Octet>)
    requires |s| > 0 && s[0] > 0
    ensures BigEndian(s) >= Pow256(|s| - 1)
  {
    var d: seq<Octet> := s[..1];
    BigEndianConcat(d, s[1..]);
    assert s == d + s[1..];
    assert BigEndian(d) == 256 * BigEndian(d[..0]) + d[0];
    AtLeast(BigEndian(d), Pow256(|s| - 1));
  }

  lemma AtLeast(k: nat, p: nat)
    requires k > 0
    ensures k * p >= p
  {
    assert k * p == p + (k - 1) * p;
  }

  lemma Pow256Grows(m: nat, n: nat)
    requires m <= n
    ensures Pow256(m) <= Pow256(n)
  {
    if m < n {
      Pow256Grows(m, n - 1);
    }
  }

  //
  // Words
  //

  /** A little-endian word is the number its bytes stand for. */
  lemma WordAtValue(b: seq<Byte>)
    requires |b| >= 4
    ensures WordAt(b, 0) as nat == Ahead(Num(b[0]), Num(b[1]), Num(b[2]), Num(b[3]), 0)
  {
    var w, b0, b1, b2, b3 := TakeBytes(b);
    JoinedBytes(w, b0, b1, b2, b3);
  }

  lemma TakeBytes(b: seq<Byte>) returns (w: bv32, b0: Byte, b1: Byte, b2: Byte, b3: Byte)
    requires |b| >= 4
    ensures w == WordAt(b, 0) && b0 == b[0] && b1 == b[1] && b2 == b[2] && b3 == b[3]
    ensures w == (b0 as bv32) | ((b1 as bv32) << 8) | ((b2 as bv32) << 16) | ((b3 as bv32) << 24)
  {
    w, b0, b1, b2, b3 := WordAt(b, 0), b[0], b[1], b[2], b[3];
  }

  lemma JoinedBytes(w: bv32, b0: Byte, b1: Byte, b2: Byte, b3: Byte)
    requires w == (b0 as bv32) | ((b1 as bv32) << 8) | ((b2 as bv32) << 16) | ((b3 as bv32) << 24)
    ensures w as nat == Ahead(Num(b0), Num(b1), Num(b2), Num(b3), 0)
  {
    JoinBytes(b0, b1, b2, b3);
  }

  lemma LittleFour(s: seq<Octet>)
    requires |s| >= 4
    ensures LittleEndian(s) == Ahead(s[0], s[1], s[2], s[3], 0) + BASE * LittleEndian(s[4..])
  {
    assert s[1..][1..] == s[2..] && s[2..][1..] == s[3..] && s[3..][1..] == s[4..];
    assert LittleEndian(s[3..]) == s[3] + 256 * LittleEndian(s[4..]);
    assert LittleEndian(s[2..]) == s[2] + 256 * LittleEndian(s[3..]);
    assert LittleEndian(s[1..]) == s[1] + 256 * LittleEndian(s[2..]);
  }

  /** The low word, and the rest above it. */
  lemma FourBytes(b: seq<Byte>)
    requires |b| >= 4
    ensures LittleEndian(Nums(b)) == WordAt(b, 0) as nat + BASE * LittleEndian(Nums(b[4..]))
  {
    LittleFour(Nums(b));
    WordAtValue(b);
    assert Nums(b)[4..] == Nums(b[4..]);
  }

  //
  // Numbers as bytes and words
  //

  lemma FourDigits(n: nat)
    requires n < 0x1_0000_0000
    ensures n / 16777216 < 256
    ensures Ahead(n % 256, n / 256 % 256, n / 65536 % 256, n / 16777216, 0) == n
  {
    assert n / 65536 == n / 256 / 256 && n / 16777216 == n / 65536 / 256;
  }

  lemma LittleBytesNum(n: nat)
    requires n < 0x1_0000_0000
    ensures var b := LittleBytes(n);
      && Num(b[0]) == n % 256 && Num(b[1]) == n / 256 % 256
      && Num(b[2]) == n / 65536 % 256 && Num(b[3]) == n / 16777216
  {
    FourDigits(n);
    ByteRoundTrip(n % 256);
    ByteRoundTrip(n / 256 % 256);
    ByteRoundTrip(n / 65536 % 256);
    ByteRoundTrip(n / 16777216);
  }

  /** The word stands for the number, and so do the bytes. */
  lemma WordOfValue(n: nat)
    requires n < 0x1_0000_0000
    ensures WordOf(n) as nat == n
  {
    LittleBytesNum(n);
    WordAtValue(LittleBytes(n));
    FourDigits(n);
  }

  lemma LittleBytesValue(n: nat)
    requires n < 0x1_0000_0000
    ensures LittleEndian(Nums(LittleBytes(n))) == n
  {
    FourBytes(LittleBytes(n));
    assert LittleBytes(n)[4..] == [];
    WordOfValue(n);
  }

  /** Words that stand for the same number are the same word. */
  lemma SameWord(v: bv32, w: bv32)
    requires v as nat == w as nat
    ensures v == w
  {
    var a, b := WordBytes(v), WordBytes(w);
    WordAtValue(a);
    WordAtValue(b);
    BytesOfWord(v);
    BytesOfWord(w);
    SameDigits(Num(a[0]), Num(a[1]), Num(a[2]), Num(a[3]), Num(b[0]), Num(b[1]), Num(b[2]), Num(b[3]));
    SameByte(a[0], b[0]);
    SameByte(a[1], b[1]);
    SameByte(a[2], b[2]);
    SameByte(a[3], b[3]);
    assert a == b;
  }

  lemma BytesOfWord(w: bv32)
    ensures WordAt(WordBytes(w), 0) == w
  {
  }

  lemma SameDigits(a0: nat, a1: nat, a2: nat, a3: nat, b0: nat, b1: nat, b2: nat, b3: nat)
    requires a0 < 256 && a1 < 256 && a2 < 256 && b0 < 256 && b1 < 256 && b2 < 256
    requires Ahead(a0, a1, a2, a3, 0) == Ahead(b0, b1, b2, b3, 0)
    ensures a0 == b0 && a1 == b1 && a2 == b2 && a3 == b3
  {
    FirstDigit(a0, a1 + 256 * (a2 + 256 * a3), b0, b1 + 256 * (b2 + 256 * b3));
    FirstDigit(a1, a2 + 256 * a3, b1, b2 + 256 * b3);
    FirstDigit(a2, a3, b2, b3);
  }

  lemma FirstDigit(a: nat, m: nat, b: nat, n: nat)
    requires a < 256 && b < 256 && a + 256 * m == b + 256 * n
    ensures a == b && m == n
  {
  }

  /** Two words in a row. */
  lemma TwoWords(b: seq<Byte>, lo: bv32, hi: bv32)
    requires b == WordBytes(lo) + WordBytes(hi)
    ensures LittleEndian(Nums(b)) == lo as nat + BASE * (hi as nat)
  {
    FourBytes(b);
    FourBytes(b[4..]);
    FirstWord(b, lo, WordBytes(hi));
    FirstWord(b[4..], hi, []);
    assert b[4..][4..] == [];
  }

  lemma FirstWord(b: seq<Byte>, w: bv32, rest: seq<Byte>)
    requires b == WordBytes(w) + rest
    ensures WordAt(b, 0) == w && b[4..] == rest
  {
    BytesOfWord(w);
    assert b[0] == WordBytes(w)[0] && b[1] == WordBytes(w)[1] && b[2] == WordBytes(w)[2] && b[3] == WordBytes(w)[3];
  }
}
