/** 128-bit vectors, byte buffers, and the vector instructions the hash kernel uses. */
module Simd {

  type Byte = bv8

  /** A 128-bit register as its four 32-bit words, least significant word first. */
  datatype Vec = Vec(w0: bv32, w1: bv32, w2: bv32, w3: bv32)

  const ZERO := Vec(0, 0, 0, 0)

  /** The operations whose meaning the kernel theorems do not depend on: the
      exclusive or of two words, one AES round, the carry-less product of the two
      halves of a register, the 8-lane rounded 16-bit multiply, and the reduction of
      a 128-bit product to 64 bits. Every theorem about the kernel holds for all
      choices of them; Builds.dfy gives the real ones. */
  datatype Isa = Isa(
    xor32: (bv32, bv32) -> bv32,
    aesenc: (Vec, Vec) -> Vec,
    clmulHalves: Vec -> Vec,
    mulhrs: (Vec, Vec) -> Vec,
    reduce64: Vec -> bv64)

  function Xor(isa: Isa, a: Vec, b: Vec): Vec {
    Vec(isa.xor32(a.w0, b.w0), isa.xor32(a.w1, b.w1), isa.xor32(a.w2, b.w2), isa.xor32(a.w3, b.w3))
  }

  function UnpackLo32(a: Vec, b: Vec): Vec {
    Vec(a.w0, b.w0, a.w1, b.w1)
  }

  function UnpackHi32(a: Vec, b: Vec): Vec {
    Vec(a.w2, b.w2, a.w3, b.w3)
  }

  function UnpackLo64(a: Vec, b: Vec): Vec {
    Vec(a.w0, a.w1, b.w0, b.w1)
  }

  function UnpackHi64(a: Vec, b: Vec): Vec {
    Vec(a.w2, a.w3, b.w2, b.w3)
  }

  function Low64(v: Vec): bv64 {
    ((v.w1 as bv64) << 32) | (v.w0 as bv64)
  }

  function Zeros(n: nat): (r: seq<Byte>)
    ensures |r| == n
  {
    seq(n, _ => 0)
  }

  /** The little-endian 32-bit word at byte offset `off`. */
  function WordAt(b: seq<Byte>, off: nat): bv32
    requires off + 4 <= |b|
  {
    (b[off] as bv32) | ((b[off + 1] as bv32) << 8) | ((b[off + 2] as bv32) << 16) | ((b[off + 3] as bv32) << 24)
  }

  /** The byte that holds a number. */
  function ByteOf(n: nat): Byte
    requires n < 256
  {
    (((n / 16) as bv4 as Byte) << 4) | ((n % 16) as bv4 as Byte)
  }

  /** The four bytes of a 32-bit number, least significant first. */
  function LittleBytes(n: nat): (r: seq<Byte>)
    requires n < 0x1_0000_0000
    ensures |r| == 4
  {
    [ByteOf(n % 256), ByteOf(n / 256 % 256), ByteOf(n / 65536 % 256), ByteOf(n / 16777216)]
  }

  /** The word that holds a number. */
  function WordOf(n: nat): bv32
    requires n < 0x1_0000_0000
  {
    WordAt(LittleBytes(n), 0)
  }

  function Load(b: seq<Byte>, off: nat): Vec
    requires off + 16 <= |b|
  {
    Vec(WordAt(b, off), WordAt(b, off + 4), WordAt(b, off + 8), WordAt(b, off + 12))
  }

  function WordBytes(w: bv32): (r: seq<Byte>)
    ensures |r| == 4
  {
    [(w & 0xff) as bv8, ((w >> 8) & 0xff) as bv8, ((w >> 16) & 0xff) as bv8, (w >> 24) as bv8]
  }

  /** The eight 32-bit words of a 32-byte result held in two registers. */
  function Words(lo: Vec, hi: Vec): (r: seq<bv32>)
    ensures |r| == 8
  {
    [lo.w0, lo.w1, lo.w2, lo.w3, hi.w0, hi.w1, hi.w2, hi.w3]
  }
}
