/** The real instructions of both builds, on registers read bit by bit or lane by lane. */
module Registers {
  import opened Simd
  import opened Limbs
  import opened BitTests
  import Gf2
  import Mulhrs

  function XorWord(a: bv32, b: bv32): bv32 {
    a ^ b
  }

  //
  // Bits
  //

  /** The low bits of a number. */
  function NatBits(n: nat, len: nat): (r: Gf2.Bits)
    ensures |r| == len
    ensures forall i :: 0 <= i < len ==> r[i] == NatBit(n, i)
  {
    seq(len, i requires 0 <= i < len => NatBit(n, i))
  }

  /** The number that bits stand for. */
  function BitValue(b: Gf2.Bits): nat {
    if b == [] then 0 else Gf2.Digit(b[0]) + 2 * BitValue(b[1..])
  }

  lemma {:induction false} BitValueBound(b: Gf2.Bits)
    ensures BitValue(b) < Pow2(|b|)
  {
    if b != [] {
      BitValueBound(b[1..]);
    }
  }

  lemma Pow2At32()
    ensures Pow2(32) == BASE
  {
    assert Pow2(8) == 256;
    Pow2Add(8, 8);
    Pow2Add(16, 16);
  }

  function WordOfBits(b: Gf2.Bits): bv32
    requires |b| == 32
  {
    BitValueBound(b);
    Pow2At32();
    WordOf(BitValue(b))
  }

  function BitsOfWord(w: bv32): (r: Gf2.Bits)
    ensures |r| == 32
  {
    NatBits(w as nat, 32)
  }

  /** The bits of a register, least significant first. */
  function BitsOf(v: Vec): (r: Gf2.Bits)
    ensures |r| == 128
  {
    BitsOfWord(v.w0) + BitsOfWord(v.w1) + BitsOfWord(v.w2) + BitsOfWord(v.w3)
  }

  function RegisterOf(b: Gf2.Bits): Vec
    requires |b| == 128
  {
    Vec(WordOfBits(b[..32]), WordOfBits(b[32..64]), WordOfBits(b[64..96]), WordOfBits(b[96..]))
  }

  /** `_mm_clmulepi64_si128(v, v, 0x10)`: low half times high half. */
  function ClmulHalves(v: Vec): Vec {
    RegisterOf(Gf2.Clmul(BitsOf(v)[..64], BitsOf(v)[64..]))
  }

  function JoinScalar(lo: bv32, hi: bv32): bv64 {
    ((hi as bv64) << 32) | (lo as bv64)
  }

  /** `precompReduction64` of either build. */
  function Reduce64(arm: bool, v: Vec): bv64 {
    var r := Gf2.PrecompReduction64(arm, BitsOf(v));
    JoinScalar(WordOfBits(r[..32]), WordOfBits(r[32..]))
  }

  //
  // Lanes
  //

  /** The low and the high 16-bit lane of a word. */
  function LowLane(w: bv32): Mulhrs.Int16 {
    Mulhrs.Wrap16(w as nat % 65536)
  }

  function HighLane(w: bv32): Mulhrs.Int16 {
    Mulhrs.Wrap16(w as nat / 65536)
  }

  function PackLanes(lo: Mulhrs.Int16, hi: Mulhrs.Int16): bv32 {
    WordOf(65536 * (hi % 65536) + lo % 65536)
  }

  type LaneMul = (Mulhrs.Int16, Mulhrs.Int16) -> Mulhrs.Int16

  function MulWord(f: LaneMul, a: bv32, b: bv32): bv32 {
    PackLanes(f(LowLane(a), LowLane(b)), f(HighLane(a), HighLane(b)))
  }

  function MulVec(f: LaneMul, a: Vec, b: Vec): Vec {
    Vec(MulWord(f, a.w0, b.w0), MulWord(f, a.w1, b.w1), MulWord(f, a.w2, b.w2), MulWord(f, a.w3, b.w3))
  }

  function MulhrsX86(a: Vec, b: Vec): Vec {
    MulVec(Mulhrs.Pmulhrsw, a, b)
  }

  function MulhrsArm(a: Vec, b: Vec): Vec {
    MulVec(Mulhrs.Native, a, b)
  }
}
