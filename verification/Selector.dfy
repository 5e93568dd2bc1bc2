/** The fields of the 64-bit scalars that steer the hash: the selector of a CLHash step and
    the hash of a finished lane (verus/verus_clhash.cpp, verus/verusscan.cpp). */
module Selector {
  import opened Simd

  /** Entries from here on are read but never written. */
  const MUTABLE := 512

  //
  // What the low 64 bits of the accumulator select
  //

  function PrandBits(sel: bv64): bv32 {
    ((sel >> 5) & 511) as bv32
  }

  function PrandexBits(sel: bv64): bv32 {
    ((sel >> 32) & 511) as bv32
  }

  function Index(bits: bv32): nat {
    bits as nat
  }

  lemma IndexInRange(sel: bv64)
    ensures Index(PrandBits(sel)) < MUTABLE && Index(PrandexBits(sel)) < MUTABLE
    ensures PrandBits(sel) <= 511 && PrandexBits(sel) <= 511
  {
  }

  /** A position that steps may write. */
  type Slot = n: nat | n < MUTABLE

  function Prand(sel: bv64): Slot {
    IndexInRange(sel);
    Index(PrandBits(sel))
  }

  function Prandex(sel: bv64): Slot {
    IndexInRange(sel);
    Index(PrandexBits(sel))
  }

  function Tag(sel: bv64): (t: nat)
    ensures t < 8
  {
    ((sel >> 2) & 7) as nat
  }

  /** The buffer word a step starts from, and its neighbour. */
  function BufferIndex(sel: bv64): (i: nat)
    ensures i < 4
  {
    (sel & 3) as nat
  }

  function NeighbourIndex(sel: bv64): (i: nat)
    ensures i < 4
    ensures i != BufferIndex(sel) && i / 2 == BufferIndex(sel) / 2
  {
    if sel & 1 == 1 then BufferIndex(sel) - 1 else BufferIndex(sel) + 1
  }

  /** Cases 5 and 6 loop `LoopRounds + 1` times. */
  function LoopRounds(sel: bv64): (n: nat)
    ensures n < 8
  {
    (sel >> 61) as nat
  }

  /** `0x10000000 << rounds`. */
  function RoundMask(rounds: nat): bv64 {
    if rounds == 0 then 0x1000_0000 else RoundMask(rounds - 1) << 1
  }

  predicate Meet(x: bv64, m: bv64) {
    x & m != 0
  }

  /** The selector bit that picks the branch of each loop round. */
  function RoundBits(sel: bv64): nat -> bool {
    (rounds: nat) => Meet(sel, RoundMask(rounds))
  }

  //
  // The 64-bit hash of a lane
  //

  function Bytes64(x: bv64): (r: seq<Byte>)
    ensures |r| == 8
  {
    WordBytes((x & 0xffff_ffff) as bv32) + WordBytes((x >> 32) as bv32)
  }

  lemma KeyOffsetInRange(x: bv64)
    ensures (x & 511) as nat < MUTABLE
  {
  }

  /** Where in the mutated key the final keyed hash takes its 40 round keys. */
  function KeyOffset(x: bv64): Slot {
    KeyOffsetInRange(x);
    (x & 511) as nat
  }
}
