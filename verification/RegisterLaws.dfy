/** What the real instructions compute, bit by bit and lane by lane. */
module RegisterLaws {
  import opened Simd
  import opened Limbs
  import opened BitNumbers
  import opened BitTests
  import opened Octets
  import opened Registers
  import Gf2
  import Mulhrs

  //
  // Bits and numbers
  //

  lemma {:induction false} BitOfValue(b: Gf2.Bits, k: nat)
    ensures NatBit(BitValue(b), k) == Gf2.C(b, k)
  {
    if b == [] {
      NoBits(k);
    } else {
      BitStep(BitValue(b), Gf2.Digit(b[0]), BitValue(b[1..]), k);
      if k > 0 {
        BitOfValue(b[1..], k - 1);
        assert Gf2.C(b, k) == Gf2.C(b[1..], k - 1);
      }
    }
  }

  lemma BitStep(n: nat, d: nat, m: nat, k: nat)
    requires d < 2 && n == d + 2 * m
    ensures NatBit(n, k) == if k == 0 then d == 1 else NatBit(m, k - 1)
  {
    assert n / 2 == m && n % 2 == d;
  }

  lemma {:induction false} NoBits(k: nat)
    ensures !NatBit(0, k)
  {
    if k > 0 {
      NoBits(k - 1);
    }
  }

  lemma {:induction false} ValueOfBits(n: nat, len: nat)
    requires n < Pow2(len)
    ensures BitValue(NatBits(n, len)) == n
  {
    if len > 0 {
      ValueOfBits(n / 2, len - 1);
      assert NatBits(n, len)[1..] == NatBits(n / 2, len - 1);
    }
  }

  lemma {:induction false} ValueOfTwo(a: Gf2.Bits, b: Gf2.Bits)
    ensures BitValue(a + b) == BitValue(a) + Pow2(|a|) * BitValue(b)
  {
    if a == [] {
      assert a + b == b;
    } else {
      ValueOfTwo(a[1..], b);
      assert (a + b)[1..] == a[1..] + b && (a + b)[0] == a[0];
      Doubled(Gf2.Digit(a[0]), BitValue(a[1..]), Pow2(|a| - 1), BitValue(b));
    }
  }

  lemma Doubled(d: nat, m: nat, p: nat, n: nat)
    ensures d + 2 * (m + p * n) == (d + 2 * m) + (2 * p) * n
  {
  }

  /** Bits put into a word are the bits of the word. */
  lemma WordOfBitsIs(b: Gf2.Bits)
    requires |b| == 32
    ensures WordOfBits(b) as nat == BitValue(b) && BitsOfWord(WordOfBits(b)) == b
  {
    var w := TakeWord(b);
    forall k | 0 <= k < 32 ensures BitsOfWord(w)[k] == b[k] {
      BitOfValue(b, k);
    }
  }

  lemma TakeWord(b: Gf2.Bits) returns (w: bv32)
    requires |b| == 32
    ensures w == WordOfBits(b) && w as nat == BitValue(b)
  {
    BitValueBound(b);
    Pow2At32();
    w := WordOfBits(b);
    WordOfValue(BitValue(b));
  }

  lemma Rejoin(b: Gf2.Bits)
    requires |b| == 128
    ensures b[..32] + b[32..64] + b[64..96] + b[96..] == b
  {
  }

  lemma Pieces(b: Gf2.Bits, b0: Gf2.Bits, b1: Gf2.Bits, b2: Gf2.Bits, b3: Gf2.Bits)
    requires |b0| == |b1| == |b2| == |b3| == 32 && b == b0 + b1 + b2 + b3
    ensures b0 == b[..32] && b1 == b[32..64] && b2 == b[64..96] && b3 == b[96..]
  {
  }

  /** So it is for registers. */
  lemma RegisterOfIs(b: Gf2.Bits)
    requires |b| == 128
    ensures BitsOf(RegisterOf(b)) == b
  {
    WordOfBitsIs(b[..32]);
    WordOfBitsIs(b[32..64]);
    WordOfBitsIs(b[64..96]);
    WordOfBitsIs(b[96..]);
    Rejoin(b);
  }

  /** A register is determined by its bits. */
  lemma SameWordBits(v: bv32, w: bv32)
    requires BitsOfWord(v) == BitsOfWord(w)
    ensures v == w
  {
    Pow2At32();
    ValueOfBits(v as nat, 32);
    ValueOfBits(w as nat, 32);
    SameWord(v, w);
  }

  lemma SameBits(v: Vec, w: Vec)
    requires BitsOf(v) == BitsOf(w)
    ensures v == w
  {
    var b := BitsOf(v);
    Pieces(b, BitsOfWord(v.w0), BitsOfWord(v.w1), BitsOfWord(v.w2), BitsOfWord(v.w3));
    Pieces(b, BitsOfWord(w.w0), BitsOfWord(w.w1), BitsOfWord(w.w2), BitsOfWord(w.w3));
    SameWordBits(v.w0, w.w0);
    SameWordBits(v.w1, w.w1);
    SameWordBits(v.w2, w.w2);
    SameWordBits(v.w3, w.w3);
  }

  //
  // The carry-less product
  //

  function Word(v: Vec, i: nat): bv32
    requires i < 4
  {
    if i == 0 then v.w0 else if i == 1 then v.w1 else if i == 2 then v.w2 else v.w3
  }

  /** The bits of a register are those of its words. */
  lemma BitAt(v: Vec, k: nat)
    requires k < 128
    ensures BitsOf(v)[k] <==> Word(v, k / 32) as nat / Pow2(k % 32) % 2 == 1
  {
    WordBitAt(v, k);
    NatBitIs(Word(v, k / 32) as nat, k % 32);
  }

  lemma WordBitAt(v: Vec, k: nat)
    requires k < 128
    ensures BitsOf(v)[k] == BitsOfWord(Word(v, k / 32))[k % 32]
  {
    PieceAt(BitsOf(v), BitsOfWord(v.w0), BitsOfWord(v.w1), BitsOfWord(v.w2), BitsOfWord(v.w3), k);
    if k < 32 {
      assert k / 32 == 0;
    } else if k < 64 {
      assert k / 32 == 1;
    } else if k < 96 {
      assert k / 32 == 2;
    } else {
      assert k / 32 == 3;
    }
  }

  lemma PieceAt(b: Gf2.Bits, b0: Gf2.Bits, b1: Gf2.Bits, b2: Gf2.Bits, b3: Gf2.Bits, k: nat)
    requires |b0| == |b1| == |b2| == |b3| == 32 && b == b0 + b1 + b2 + b3 && k < 128
    ensures b[k] ==
      if k < 32 then b0[k % 32] else if k < 64 then b1[k % 32] else if k < 96 then b2[k % 32] else b3[k % 32]
  {
  }

  /** Bit k of the instruction is coefficient k of the product of the two halves. */
  lemma ClmulIsProduct(v: Vec, k: nat)
    requires k < 128
    ensures BitsOf(ClmulHalves(v))[k] == Gf2.Product(BitsOf(v)[..64], BitsOf(v)[64..], k)
  {
    RegisterOfIs(Gf2.Clmul(BitsOf(v)[..64], BitsOf(v)[64..]));
  }

  /** Multiplying by x^s shifts. */
  lemma {:induction false} ConvolveShift(a: Gf2.Bits, s: nat, b: Gf2.Bits, k: int, n: nat)
    requires forall i :: Gf2.C(a, i) == (i == s)
    ensures Gf2.Convolve(a, b, k, n) == (0 <= k - s < n && Gf2.C(b, k - s))
  {
    if n > 0 {
      ConvolveShift(a, s, b, k, n - 1);
      assert Gf2.C(a, k - (n - 1)) == (k - (n - 1) == s);
    }
  }

  lemma ClmulShift(lo: Gf2.Bits, s: nat, hi: Gf2.Bits, out: Gf2.Bits)
    requires (forall i :: Gf2.C(lo, i) == (i == s)) && |hi| == 64 && |out| == 128
    requires forall k :: 0 <= k < 128 ==> out[k] == Gf2.C(hi, k - s)
    ensures Gf2.Clmul(lo, hi) == out
  {
    forall k | 0 <= k < 128 ensures Gf2.Clmul(lo, hi)[k] == out[k] {
      ConvolveShift(lo, s, hi, k, 64);
    }
  }

  lemma BitsBack(w: Vec)
    ensures RegisterOf(BitsOf(w)) == w
  {
    RegisterOfIs(BitsOf(w));
    SameBits(RegisterOf(BitsOf(w)), w);
  }

  /** With 2^s in the low half of a register the high half comes out shifted by s. */
  lemma ClmulShifts(v: Vec, s: nat, w: Vec)
    requires forall i :: Gf2.C(BitsOf(v)[..64], i) == (i == s)
    requires forall k :: 0 <= k < 128 ==> BitsOf(w)[k] == Gf2.C(BitsOf(v)[64..], k - s)
    ensures ClmulHalves(v) == w
  {
    ClmulShift(BitsOf(v)[..64], s, BitsOf(v)[64..], BitsOf(w));
    BitsBack(w);
  }

  lemma {:induction false} PowerBit(s: nat, k: nat)
    ensures NatBit(Pow2(s), k) == (k == s)
  {
    if k > 0 {
      if s == 0 {
        NoBits(k - 1);
      } else {
        PowerBit(s - 1, k - 1);
      }
    }
  }

  /** The words of a register that holds 2^s in its low half, bit by bit. */
  lemma LowPower(v: Vec, s: nat, i: int)
    requires s < 32 && v.w0 as nat == Pow2(s) && v.w1 as nat == 0
    ensures Gf2.C(BitsOf(v)[..64], i) == (i == s)
  {
    if 0 <= i < 64 {
      PieceAt(BitsOf(v), BitsOfWord(v.w0), BitsOfWord(v.w1), BitsOfWord(v.w2), BitsOfWord(v.w3), i);
      PowerBit(s, i);
      NoBits(i % 32);
    }
  }

  /** Multiplying by 1 moves the high half down. */
  lemma ClmulByOne(x: bv32, y: bv32)
    ensures ClmulHalves(Vec(1, 0, x, y)) == Vec(x, y, 0, 0)
  {
    var v, w := Vec(1, 0, x, y), Vec(x, y, 0, 0);
    forall i ensures Gf2.C(BitsOf(v)[..64], i) == (i == 0) {
      LowPower(v, 0, i);
    }
    forall k | 0 <= k < 128 ensures BitsOf(w)[k] == Gf2.C(BitsOf(v)[64..], k) {
      NoBits(k % 32);
    }
    ClmulShifts(v, 0, w);
  }

  lemma HighPower(v: Vec, s: nat, i: int)
    requires s < 32 && v.w2 as nat == Pow2(s) && v.w3 as nat == 0
    ensures Gf2.C(BitsOf(v)[64..], i) == (i == s)
  {
    if 0 <= i < 64 {
      PieceAt(BitsOf(v), BitsOfWord(v.w0), BitsOfWord(v.w1), BitsOfWord(v.w2), BitsOfWord(v.w3), 64 + i);
      PowerBit(s, i);
      NoBits(i % 32);
    }
  }

  lemma OnlyPower(w: Vec, s: nat, k: nat)
    requires s < 32 && w.w0 as nat == Pow2(s) && w.w1 as nat == w.w2 as nat == w.w3 as nat == 0 && k < 128
    ensures BitsOf(w)[k] == (k == s)
  {
    PieceAt(BitsOf(w), BitsOfWord(w.w0), BitsOfWord(w.w1), BitsOfWord(w.w2), BitsOfWord(w.w3), k);
    PowerBit(s, k);
    NoBits(k % 32);
  }

  /** Powers of two multiply as they should. */
  lemma ClmulPowers(v: Vec, s: nat, t: nat, w: Vec)
    requires s + t < 32
    requires v.w0 as nat == Pow2(s) && v.w1 as nat == 0 && v.w2 as nat == Pow2(t) && v.w3 as nat == 0
    requires w.w0 as nat == Pow2(s + t) && w.w1 as nat == w.w2 as nat == w.w3 as nat == 0
    ensures ClmulHalves(v) == w
  {
    forall i ensures Gf2.C(BitsOf(v)[..64], i) == (i == s) {
      LowPower(v, s, i);
    }
    forall k | 0 <= k < 128 ensures BitsOf(w)[k] == Gf2.C(BitsOf(v)[64..], k - s) {
      HighPower(v, t, k - s);
      OnlyPower(w, s + t, k);
    }
    ClmulShifts(v, s, w);
  }

  /** `lazyLengthHash` of 64 bytes under a 1024-byte key. */
  lemma LazyLengthHash()
    ensures ClmulHalves(Vec(64, 0, 1024, 0)) == Vec(0x10000, 0, 0, 0)
  {
    assert Pow2(6) == 64;
    assert Pow2(10) == 16 * Pow2(6);
    assert Pow2(16) == 64 * Pow2(10);
    ClmulPowers(Vec(64, 0, 1024, 0), 6, 10, Vec(0x10000, 0, 0, 0));
  }

  lemma {:induction false} ConvolveNone(a: Gf2.Bits, b: Gf2.Bits, k: int, n: nat)
    requires forall i :: !Gf2.C(b, i)
    ensures !Gf2.Convolve(a, b, k, n)
  {
    if n > 0 {
      ConvolveNone(a, b, k, n - 1);
    }
  }

  lemma NoBitsAt(k: nat)
    requires k < 128
    ensures !BitsOf(ZERO)[k]
  {
    PieceAt(BitsOf(ZERO), BitsOfWord(0), BitsOfWord(0), BitsOfWord(0), BitsOfWord(0), k);
    NoBits(k % 32);
  }

  lemma ClmulNone(b: Gf2.Bits)
    requires |b| == 128 && forall k :: 0 <= k < 128 ==> !b[k]
    ensures Gf2.Clmul(b[..64], b[64..]) == b
  {
    forall k | 0 <= k < 128 ensures Gf2.Clmul(b[..64], b[64..])[k] == b[k] {
      ConvolveNone(b[..64], b[64..], k, 64);
    }
  }

  lemma ClmulByNothing()
    ensures ClmulHalves(ZERO) == ZERO
  {
    var b := BitsOf(ZERO);
    forall k | 0 <= k < 128 ensures !b[k] {
      NoBitsAt(k);
    }
    ClmulNone(b);
    BitsBack(ZERO);
  }

  //
  // The reduction
  //

  /** The 64 bits of a scalar. */
  function ScalarBits(x: bv64): (r: Gf2.Bits)
    ensures |r| == 64
  {
    NatBits(x as nat, 64)
  }

  lemma ScalarOfTwo(a: Gf2.Bits, b: Gf2.Bits) returns (x: bv64)
    requires |a| == |b| == 32
    ensures x == JoinScalar(WordOfBits(a), WordOfBits(b)) && x as nat == BitValue(a + b)
  {
    var lo := TakeWord(a);
    var hi := TakeWord(b);
    x := JoinScalar(lo, hi);
    Words64Places(hi, lo);
    ValueOfTwo(a, b);
    Pow2At32();
  }

  lemma TakeScalar(arm: bool, v: Vec, r: Gf2.Bits) returns (x: bv64)
    requires r == Gf2.PrecompReduction64(arm, BitsOf(v))
    ensures x == Reduce64(arm, v) && x as nat == BitValue(r)
  {
    x := ScalarOfTwo(r[..32], r[32..]);
    assert r == r[..32] + r[32..];
  }

  lemma ScalarBitsOf(x: bv64, r: Gf2.Bits)
    requires x as nat == BitValue(r) && |r| == 64
    ensures ScalarBits(x) == r
  {
    forall k | 0 <= k < 64 ensures ScalarBits(x)[k] == r[k] {
      BitOfValue(r, k);
    }
  }

  lemma Reduce64Bits(arm: bool, v: Vec, r: Gf2.Bits)
    requires r == Gf2.PrecompReduction64(arm, BitsOf(v))
    ensures ScalarBits(Reduce64(arm, v)) == r
  {
    var x := TakeScalar(arm, v, r);
    ScalarBitsOf(x, r);
  }

  /** The bits of the reduced register are the remainder of its bits, the only one. */
  lemma Reduce64IsRemainder(arm: bool, v: Vec, r: Gf2.Bits)
    ensures Gf2.IsRemainder(BitsOf(v), r) <==> r == ScalarBits(Reduce64(arm, v))
  {
    Reduce64Bits(arm, v, Gf2.PrecompReduction64(arm, BitsOf(v)));
    Gf2.ReductionIsRemainder(arm, BitsOf(v), r);
  }

  //
  // The 16-bit lanes
  //

  /** The eight lanes of a register. */
  function Lane(v: Vec, i: nat): Mulhrs.Int16
    requires i < 8
  {
    if i % 2 == 0 then LowLane(Word(v, i / 2)) else HighLane(Word(v, i / 2))
  }

  lemma LaneNumbers(lo: Mulhrs.Int16, hi: Mulhrs.Int16, n: nat)
    requires n == 65536 * (hi % 65536) + lo % 65536
    ensures Mulhrs.Wrap16(n % 65536) == lo && Mulhrs.Wrap16(n / 65536) == hi && n < 0x1_0000_0000
  {
    HalvesCut(n, hi % 65536, lo % 65536);
    Wrapped(lo);
    Wrapped(hi);
  }

  lemma Wrapped(x: Mulhrs.Int16)
    ensures Mulhrs.Wrap16(x % 65536) == x
  {
  }

  lemma PackedLanes(lo: Mulhrs.Int16, hi: Mulhrs.Int16)
    ensures LowLane(PackLanes(lo, hi)) == lo && HighLane(PackLanes(lo, hi)) == hi
  {
    var w, n := TakePacked(lo, hi);
    LaneNumbers(lo, hi, n);
  }

  lemma TakePacked(lo: Mulhrs.Int16, hi: Mulhrs.Int16) returns (w: bv32, n: nat)
    ensures w == PackLanes(lo, hi) && n == 65536 * (hi % 65536) + lo % 65536 && w as nat == n
  {
    n := 65536 * (hi % 65536) + lo % 65536;
    LaneNumbers(lo, hi, n);
    w := PackLanes(lo, hi);
    WordOfValue(n);
  }

  lemma MulWordLanes(f: LaneMul, a: bv32, b: bv32)
    ensures LowLane(MulWord(f, a, b)) == f(LowLane(a), LowLane(b))
    ensures HighLane(MulWord(f, a, b)) == f(HighLane(a), HighLane(b))
  {
    PackedLanes(f(LowLane(a), LowLane(b)), f(HighLane(a), HighLane(b)));
  }

  lemma MulVecWord(f: LaneMul, a: Vec, b: Vec, i: nat)
    requires i < 4
    ensures Word(MulVec(f, a, b), i) == MulWord(f, Word(a, i), Word(b, i))
  {
  }

  /** Both multiplies work lane by lane, and every lane is the rounded product. */
  lemma MulhrsLane(a: Vec, b: Vec, i: nat)
    requires i < 8
    ensures Lane(MulhrsX86(a, b), i) == Mulhrs.Pmulhrsw(Lane(a, i), Lane(b, i))
    ensures Lane(MulhrsArm(a, b), i) == Mulhrs.Native(Lane(a, i), Lane(b, i))
  {
    MulVecLane(Mulhrs.Pmulhrsw, a, b, i);
    MulVecLane(Mulhrs.Native, a, b, i);
  }

  lemma MulVecLane(f: LaneMul, a: Vec, b: Vec, i: nat)
    requires i < 8
    ensures Lane(MulVec(f, a, b), i) == f(Lane(a, i), Lane(b, i))
  {
    MulVecWord(f, a, b, i / 2);
    MulWordLanes(f, Word(a, i / 2), Word(b, i / 2));
  }
}
