/** What the fields of a selector, and of the 64-bit hash of a lane, are as numbers. */
module SelectorLaws {
  import opened Simd
  import opened Limbs
  import opened BitNumbers
  import opened BitTests
  import opened Octets
  import opened Selector

  /** Bits 5 to 13 and 32 to 40 select the two entries, bits 2 to 4 the case, bits 0 and 1
      the buffer word, bits 61 to 63 the number of rounds. */
  lemma SelectorFields(sel: bv64)
    ensures Prand(sel) == sel as nat / 32 % 512
    ensures Prandex(sel) == sel as nat / 0x1_0000_0000 % 512
    ensures Tag(sel) == sel as nat / 4 % 8
    ensures BufferIndex(sel) == sel as nat % 4
    ensures LoopRounds(sel) == sel as nat / 0x2000_0000_0000_0000
  {
    Bits5To13(sel);
    Bits32To40(sel);
    Bits0To4(sel);
    Bits61To63(sel);
  }

  /** The neighbour of buffer word 0 is 1, of 1 it is 0, of 2 it is 3 and of 3 it is 2. */
  lemma NeighbourIs(sel: bv64)
    ensures NeighbourIndex(sel) == if sel as nat % 2 == 1 then sel as nat % 4 - 1 else sel as nat % 4 + 1
  {
    Bits0To4(sel);
    LowestBit(sel);
  }

  //
  // The branch bits of the loops
  //

  function Half(x: bv64): bv64 {
    x >> 1
  }

  lemma ShiftTest(x: bv64, r: nat)
    requires r > 0
    ensures Meet(x, RoundMask(r)) <==> Meet(Half(x), RoundMask(r - 1))
  {
    MaskTest(x, RoundMask(r - 1));
  }

  lemma MaskTest(x: bv64, m: bv64)
    ensures Meet(x, m << 1) <==> Meet(Half(x), m)
  {
  }

  lemma Pow2At28()
    ensures Pow2(28) == 0x1000_0000
  {
    assert Pow2(7) == 128;
    Pow2Add(7, 7);
    Pow2Add(14, 14);
  }

  /** num gives the number a scalar stands for, as far as single bits show. */
  ghost predicate Numbers(num: bv64 -> nat) {
    && (forall x :: num(Half(x)) == num(x) / 2)
    && (forall x :: Meet(x, 0x1000_0000) <==> NatBit(num(x), 28))
  }

  lemma {:induction false} RoundTest(num: bv64 -> nat, x: bv64, r: nat)
    requires Numbers(num)
    ensures Meet(x, RoundMask(r)) <==> NatBit(num(x), 28 + r)
  {
    if r > 0 {
      ShiftTest(x, r);
      RoundTest(num, Half(x), r - 1);
      NatBitStep(num(x), 28 + r);
      assert num(Half(x)) == num(x) / 2;
    }
  }

  lemma NatBitStep(n: nat, i: nat)
    requires i > 0
    ensures NatBit(n, i) == NatBit(n / 2, i - 1)
  {
  }

  lemma NatBit28(n: nat)
    ensures NatBit(n, 28) <==> n / 0x1000_0000 % 2 == 1
  {
    NatBitIs(n, 28);
    Pow2At28();
  }

  function Number64(x: bv64): nat {
    x as nat
  }

  lemma NumbersHolds()
    ensures Numbers(Number64)
  {
    forall x ensures Number64(Half(x)) == Number64(x) / 2 {
      LowestBit(x);
    }
    forall x ensures Meet(x, 0x1000_0000) <==> NatBit(Number64(x), 28) {
      Bit28(x);
      NatBit28(x as nat);
    }
  }

  lemma TheNumbers(sel: bv64) returns (num: bv64 -> nat)
    ensures Numbers(num) && num(sel) == sel as nat
  {
    NumbersHolds();
    num := Number64;
  }

  lemma RoundBitIsMeet(sel: bv64, r: nat)
    ensures RoundBits(sel)(r) == Meet(sel, RoundMask(r))
  {
  }

  /** Round r of the loops of cases 5 and 6 branches on bit 28 + r. */
  lemma RoundBitIs(sel: bv64, r: nat)
    ensures RoundBits(sel)(r) <==> NatBit(sel as nat, 28 + r)
  {
    var num := TheNumbers(sel);
    RoundTest(num, sel, r);
    RoundBitIsMeet(sel, r);
  }

  //
  // Scalars
  //

  lemma Low64Value(v: Vec)
    ensures Low64(v) as nat == 0x1_0000_0000 * (v.w1 as nat) + v.w0 as nat
  {
    Low64Of(v.w0, v.w1, v.w2, v.w3);
  }

  lemma Low64Of(lo: bv32, hi: bv32, w2: bv32, w3: bv32)
    ensures Low64(Vec(lo, hi, w2, w3)) as nat == 0x1_0000_0000 * (hi as nat) + lo as nat
  {
    Words64Places(hi, lo);
  }

  /** The 64-bit hash of a lane decides where the final keys start ... */
  lemma KeyOffsetIs(x: bv64)
    ensures KeyOffset(x) == x as nat % 512
  {
    Bits0To8(x);
  }

  /** ... and its bytes, least significant first, are what fills the buffer. */
  lemma Bytes64Value(x: bv64)
    ensures LittleEndian(Nums(Bytes64(x))) == x as nat
  {
    var lo, hi, l, h := TakeWords(x);
    TwoWords(Bytes64(x), lo, hi);
  }

  lemma TakeWords(x: bv64) returns (lo: bv32, hi: bv32, l: nat, h: nat)
    ensures Bytes64(x) == WordBytes(lo) + WordBytes(hi)
    ensures l == lo as nat && h == hi as nat && x as nat == l + BASE * h
  {
    Words64(x);
    lo, hi := (x & 0xffff_ffff) as bv32, (x >> 32) as bv32;
    l, h := lo as nat, hi as nat;
    Recombine(x as nat, l, h);
  }

  lemma Recombine(v: nat, l: nat, h: nat)
    requires l == v % 0x1_0000_0000 && h == v / 0x1_0000_0000
    ensures v == l + BASE * h
  {
  }
}
