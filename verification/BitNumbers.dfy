/** What shifts and masks of bit vectors are as numbers.  A vector is taken apart into fields
    of exact width; on vectors put together from fields both readings are plain. */
module BitNumbers {

  //
  // The halves of a word
  //

  lemma HalvesCut(v: nat, hi: nat, lo: nat)
    requires v == 65536 * hi + lo && lo < 65536
    ensures lo == v % 65536 && hi == v / 65536
  {
  }

  //
  // Bytes
  //

  /** The number a byte stands for. */
  function Num(b: bv8): (n: nat)
    ensures n < 256
  {
    b as nat
  }

  /** Four bytes in front of v. */
  function Ahead(b0: nat, b1: nat, b2: nat, b3: nat, v: nat): nat {
    b0 + 256 * (b1 + 256 * (b2 + 256 * (b3 + 256 * v)))
  }

  lemma JoinBytes(b0: bv8, b1: bv8, b2: bv8, b3: bv8)
    ensures ((b0 as bv32) | ((b1 as bv32) << 8) | ((b2 as bv32) << 16) | ((b3 as bv32) << 24)) as nat
         == Ahead(Num(b0), Num(b1), Num(b2), Num(b3), 0)
  {
  }

  lemma NibbleRoundTrip(n: nat)
    requires n < 16
    ensures (n as bv4) as nat == n
  {
  }

  lemma NibblePlaces(hi: bv4, lo: bv4)
    ensures Num(((hi as bv8) << 4) | (lo as bv8)) == 16 * (hi as nat) + lo as nat
  {
  }

  /** A byte put together from the two nibbles of a number. */
  lemma ByteRoundTrip(n: nat)
    requires n < 256
    ensures Num((((n / 16) as bv4 as bv8) << 4) | ((n % 16) as bv4 as bv8)) == n
  {
    NibbleRoundTrip(n / 16);
    NibbleRoundTrip(n % 16);
    NibblePlaces((n / 16) as bv4, (n % 16) as bv4);
  }

  lemma SameByte(a: bv8, b: bv8)
    requires Num(a) == Num(b)
    ensures a == b
  {
  }

  //
  // The words of a 64-bit scalar
  //

  lemma Words64Split(x: bv64) returns (hi: bv32, lo: bv32)
    ensures x == ((hi as bv64) << 32) | (lo as bv64)
  {
    hi, lo := (x >> 32) as bv32, (x & 0xffff_ffff) as bv32;
  }

  lemma Words64Places(hi: bv32, lo: bv32)
    ensures (((hi as bv64) << 32) | (lo as bv64)) as nat == 0x1_0000_0000 * (hi as nat) + lo as nat
  {
  }

  lemma Words64Cut(v: nat, hi: nat, lo: nat)
    requires v == 0x1_0000_0000 * hi + lo && lo < 0x1_0000_0000
    ensures lo == v % 0x1_0000_0000 && hi == v / 0x1_0000_0000
  {
  }

  lemma Words64Number(hi: bv32, lo: bv32)
    ensures var x := ((hi as bv64) << 32) | (lo as bv64);
      lo as nat == x as nat % 0x1_0000_0000 && hi as nat == x as nat / 0x1_0000_0000
  {
    var x := ((hi as bv64) << 32) | (lo as bv64);
    Words64Places(hi, lo);
    Words64Cut(x as nat, hi as nat, lo as nat);
  }

  lemma Words64Masks(hi: bv32, lo: bv32)
    ensures var x := ((hi as bv64) << 32) | (lo as bv64);
      (x & 0xffff_ffff) as bv32 == lo && (x >> 32) as bv32 == hi
  {
  }

  lemma Words64Joined(hi: bv32, lo: bv32)
    ensures var x := ((hi as bv64) << 32) | (lo as bv64);
      (x & 0xffff_ffff) as bv32 as nat == x as nat % 0x1_0000_0000
      && (x >> 32) as bv32 as nat == x as nat / 0x1_0000_0000
  {
    Words64Masks(hi, lo);
    Words64Number(hi, lo);
  }

  lemma Words64(x: bv64)
    ensures (x & 0xffff_ffff) as bv32 as nat == x as nat % 0x1_0000_0000
      && (x >> 32) as bv32 as nat == x as nat / 0x1_0000_0000
  {
    var hi, lo := Words64Split(x);
    Words64Joined(hi, lo);
  }

  //
  // Bits 5 to 13
  //

  lemma Bits5To13Split(x: bv64) returns (hi: bv50, mid: bv9, lo: bv5)
    ensures x == ((hi as bv64) << 14) | ((mid as bv64) << 5) | (lo as bv64)
  {
    hi, mid, lo := (x >> 14) as bv50, ((x >> 5) & 511) as bv9, (x & 31) as bv5;
  }

  lemma Bits5To13Places(hi: bv50, mid: bv9, lo: bv5)
    ensures (((hi as bv64) << 14) | ((mid as bv64) << 5) | (lo as bv64)) as nat
         == 32 * (512 * (hi as nat) + mid as nat) + lo as nat
  {
  }

  lemma Bits5To13Cut(v: nat, hi: nat, mid: nat, lo: nat)
    requires v == 32 * (512 * hi + mid) + lo && mid < 512 && lo < 32
    ensures mid == v / 32 % 512 && lo == v % 32
  {
  }

  lemma Bits5To13Number(hi: bv50, mid: bv9, lo: bv5)
    ensures var x := ((hi as bv64) << 14) | ((mid as bv64) << 5) | (lo as bv64);
      mid as nat == x as nat / 32 % 512 && lo as nat == x as nat % 32
  {
    var x := ((hi as bv64) << 14) | ((mid as bv64) << 5) | (lo as bv64);
    Bits5To13Places(hi, mid, lo);
    Bits5To13Cut(x as nat, hi as nat, mid as nat, lo as nat);
  }

  lemma Bits5To13Masks(hi: bv50, mid: bv9, lo: bv5)
    ensures var x := ((hi as bv64) << 14) | ((mid as bv64) << 5) | (lo as bv64);
      ((x >> 5) & 511) as bv32 as nat == mid as nat
  {
  }

  lemma Bits5To13Joined(hi: bv50, mid: bv9, lo: bv5)
    ensures var x := ((hi as bv64) << 14) | ((mid as bv64) << 5) | (lo as bv64);
      ((x >> 5) & 511) as bv32 as nat == x as nat / 32 % 512
  {
    Bits5To13Masks(hi, mid, lo);
    Bits5To13Number(hi, mid, lo);
  }

  lemma Bits5To13(x: bv64)
    ensures ((x >> 5) & 511) as bv32 as nat == x as nat / 32 % 512
  {
    var hi, mid, lo := Bits5To13Split(x);
    Bits5To13Joined(hi, mid, lo);
  }

  //
  // Bits 32 to 40
  //

  lemma Bits32To40Split(x: bv64) returns (hi: bv23, mid: bv9, lo: bv32)
    ensures x == ((hi as bv64) << 41) | ((mid as bv64) << 32) | (lo as bv64)
  {
    hi, mid, lo := (x >> 41) as bv23, ((x >> 32) & 511) as bv9, (x & 0xffff_ffff) as bv32;
  }

  lemma Bits32To40Places(hi: bv23, mid: bv9, lo: bv32)
    ensures (((hi as bv64) << 41) | ((mid as bv64) << 32) | (lo as bv64)) as nat
         == 0x1_0000_0000 * (512 * (hi as nat) + mid as nat) + lo as nat
  {
  }

  lemma Bits32To40Cut(v: nat, hi: nat, mid: nat, lo: nat)
    requires v == 0x1_0000_0000 * (512 * hi + mid) + lo && mid < 512 && lo < 0x1_0000_0000
    ensures mid == v / 0x1_0000_0000 % 512 && lo == v % 0x1_0000_0000
  {
  }

  lemma Bits32To40Number(hi: bv23, mid: bv9, lo: bv32)
    ensures var x := ((hi as bv64) << 41) | ((mid as bv64) << 32) | (lo as bv64);
      mid as nat == x as nat / 0x1_0000_0000 % 512 && lo as nat == x as nat % 0x1_0000_0000
  {
    var x := ((hi as bv64) << 41) | ((mid as bv64) << 32) | (lo as bv64);
    Bits32To40Places(hi, mid, lo);
    Bits32To40Cut(x as nat, hi as nat, mid as nat, lo as nat);
  }

  lemma Bits32To40Masks(hi: bv23, mid: bv9, lo: bv32)
    ensures var x := ((hi as bv64) << 41) | ((mid as bv64) << 32) | (lo as bv64);
      ((x >> 32) & 511) as bv32 as nat == mid as nat
  {
  }

  lemma Bits32To40Joined(hi: bv23, mid: bv9, lo: bv32)
    ensures var x := ((hi as bv64) << 41) | ((mid as bv64) << 32) | (lo as bv64);
      ((x >> 32) & 511) as bv32 as nat == x as nat / 0x1_0000_0000 % 512
  {
    Bits32To40Masks(hi, mid, lo);
    Bits32To40Number(hi, mid, lo);
  }

  lemma Bits32To40(x: bv64)
    ensures ((x >> 32) & 511) as bv32 as nat == x as nat / 0x1_0000_0000 % 512
  {
    var hi, mid, lo := Bits32To40Split(x);
    Bits32To40Joined(hi, mid, lo);
  }

  //
  // Bits 0 to 8
  //

  lemma Bits0To8Split(x: bv64) returns (hi: bv55, lo: bv9)
    ensures x == ((hi as bv64) << 9) | (lo as bv64)
  {
    hi, lo := (x >> 9) as bv55, (x & 0x1ff) as bv9;
  }

  lemma Bits0To8Places(hi: bv55, lo: bv9)
    ensures (((hi as bv64) << 9) | (lo as bv64)) as nat == 512 * (hi as nat) + lo as nat
  {
  }

  lemma Bits0To8Cut(v: nat, hi: nat, lo: nat)
    requires v == 512 * hi + lo && lo < 512
    ensures lo == v % 512 && hi == v / 512
  {
  }

  lemma Bits0To8Number(hi: bv55, lo: bv9)
    ensures var x := ((hi as bv64) << 9) | (lo as bv64);
      lo as nat == x as nat % 512 && hi as nat == x as nat / 512
  {
    var x := ((hi as bv64) << 9) | (lo as bv64);
    Bits0To8Places(hi, lo);
    Bits0To8Cut(x as nat, hi as nat, lo as nat);
  }

  lemma Bits0To8Masks(hi: bv55, lo: bv9)
    ensures var x := ((hi as bv64) << 9) | (lo as bv64);
      (x & 511) as nat == lo as nat
  {
  }

  lemma Bits0To8Joined(hi: bv55, lo: bv9)
    ensures var x := ((hi as bv64) << 9) | (lo as bv64);
      (x & 511) as nat == x as nat % 512
  {
    Bits0To8Masks(hi, lo);
    Bits0To8Number(hi, lo);
  }

  lemma Bits0To8(x: bv64)
    ensures (x & 511) as nat == x as nat % 512
  {
    var hi, lo := Bits0To8Split(x);
    Bits0To8Joined(hi, lo);
  }

  //
  // Bits 2 to 4, and bits 0 and 1
  //

  lemma Bits0To4Split(x: bv64) returns (hi: bv59, mid: bv3, lo: bv2)
    ensures x == ((hi as bv64) << 5) | ((mid as bv64) << 2) | (lo as bv64)
  {
    hi, mid, lo := (x >> 5) as bv59, ((x >> 2) & 7) as bv3, (x & 3) as bv2;
  }

  lemma Bits0To4Places(hi: bv59, mid: bv3, lo: bv2)
    ensures (((hi as bv64) << 5) | ((mid as bv64) << 2) | (lo as bv64)) as nat
         == 4 * (8 * (hi as nat) + mid as nat) + lo as nat
  {
  }

  lemma Bits0To4Cut(v: nat, hi: nat, mid: nat, lo: nat)
    requires v == 4 * (8 * hi + mid) + lo && mid < 8 && lo < 4
    ensures mid == v / 4 % 8 && lo == v % 4
  {
  }

  lemma Bits0To4Number(hi: bv59, mid: bv3, lo: bv2)
    ensures var x := ((hi as bv64) << 5) | ((mid as bv64) << 2) | (lo as bv64);
      mid as nat == x as nat / 4 % 8 && lo as nat == x as nat % 4
  {
    var x := ((hi as bv64) << 5) | ((mid as bv64) << 2) | (lo as bv64);
    Bits0To4Places(hi, mid, lo);
    Bits0To4Cut(x as nat, hi as nat, mid as nat, lo as nat);
  }

  lemma Bits0To4Masks(hi: bv59, mid: bv3, lo: bv2)
    ensures var x := ((hi as bv64) << 5) | ((mid as bv64) << 2) | (lo as bv64);
      ((x >> 2) & 7) as nat == mid as nat && (x & 3) as nat == lo as nat
  {
  }

  lemma Bits0To4Joined(hi: bv59, mid: bv3, lo: bv2)
    ensures var x := ((hi as bv64) << 5) | ((mid as bv64) << 2) | (lo as bv64);
      ((x >> 2) & 7) as nat == x as nat / 4 % 8 && (x & 3) as nat == x as nat % 4
  {
    Bits0To4Masks(hi, mid, lo);
    Bits0To4Number(hi, mid, lo);
  }

  lemma Bits0To4(x: bv64)
    ensures ((x >> 2) & 7) as nat == x as nat / 4 % 8 && (x & 3) as nat == x as nat % 4
  {
    var hi, mid, lo := Bits0To4Split(x);
    Bits0To4Joined(hi, mid, lo);
  }

  //
  // Bits 61 to 63
  //

  lemma Bits61To63Split(x: bv64) returns (hi: bv3, lo: bv61)
    ensures x == ((hi as bv64) << 61) | (lo as bv64)
  {
    hi, lo := (x >> 61) as bv3, (x & 0x1fff_ffff_ffff_ffff) as bv61;
  }

  lemma Bits61To63Places(hi: bv3, lo: bv61)
    ensures (((hi as bv64) << 61) | (lo as bv64)) as nat
         == 0x2000_0000_0000_0000 * (hi as nat) + lo as nat
  {
  }

  lemma Bits61To63Cut(v: nat, hi: nat, lo: nat)
    requires v == 0x2000_0000_0000_0000 * hi + lo && lo < 0x2000_0000_0000_0000
    ensures lo == v % 0x2000_0000_0000_0000 && hi == v / 0x2000_0000_0000_0000
  {
  }

  lemma Bits61To63Number(hi: bv3, lo: bv61)
    ensures var x := ((hi as bv64) << 61) | (lo as bv64);
      lo as nat == x as nat % 0x2000_0000_0000_0000 && hi as nat == x as nat / 0x2000_0000_0000_0000
  {
    var x := ((hi as bv64) << 61) | (lo as bv64);
    Bits61To63Places(hi, lo);
    Bits61To63Cut(x as nat, hi as nat, lo as nat);
  }

  lemma Bits61To63Masks(hi: bv3, lo: bv61)
    ensures var x := ((hi as bv64) << 61) | (lo as bv64);
      (x >> 61) as nat == hi as nat
  {
  }

  lemma Bits61To63Joined(hi: bv3, lo: bv61)
    ensures var x := ((hi as bv64) << 61) | (lo as bv64);
      (x >> 61) as nat == x as nat / 0x2000_0000_0000_0000
  {
    Bits61To63Masks(hi, lo);
    Bits61To63Number(hi, lo);
  }

  lemma Bits61To63(x: bv64)
    ensures (x >> 61) as nat == x as nat / 0x2000_0000_0000_0000
  {
    var hi, lo := Bits61To63Split(x);
    Bits61To63Joined(hi, lo);
  }

  //
  // The lowest bit, and the rest
  //

  lemma LowestBitSplit(x: bv64) returns (hi: bv63, lo: bv1)
    ensures x == ((hi as bv64) << 1) | (lo as bv64)
  {
    hi, lo := (x >> 1) as bv63, (x & 0x1) as bv1;
  }

  lemma LowestBitPlaces(hi: bv63, lo: bv1)
    ensures (((hi as bv64) << 1) | (lo as bv64)) as nat == 2 * (hi as nat) + lo as nat
  {
  }

  lemma LowestBitCut(v: nat, hi: nat, lo: nat)
    requires v == 2 * hi + lo && lo < 2
    ensures lo == v % 2 && hi == v / 2
  {
  }

  lemma LowestBitNumber(hi: bv63, lo: bv1)
    ensures var x := ((hi as bv64) << 1) | (lo as bv64);
      lo as nat == x as nat % 2 && hi as nat == x as nat / 2
  {
    var x := ((hi as bv64) << 1) | (lo as bv64);
    LowestBitPlaces(hi, lo);
    LowestBitCut(x as nat, hi as nat, lo as nat);
  }

  lemma LowestBitMasks(hi: bv63, lo: bv1)
    ensures var x := ((hi as bv64) << 1) | (lo as bv64);
      x >> 1 == hi as bv64 && ((x & 1) != 0) == (lo != 0)
  {
  }

  lemma Widened(hi: bv63)
    ensures (hi as bv64) as nat == hi as nat
  {
  }

  lemma OneBit(lo: bv1)
    ensures lo as nat == if lo != 0 then 1 else 0
  {
  }

  lemma LowestBitJoined(hi: bv63, lo: bv1)
    ensures var x := ((hi as bv64) << 1) | (lo as bv64);
      (x >> 1) as nat == x as nat / 2 && ((x & 1) != 0 <==> x as nat % 2 == 1)
  {
    LowestBitMasks(hi, lo);
    Widened(hi);
    OneBit(lo);
    LowestBitNumber(hi, lo);
  }

  lemma LowestBit(x: bv64)
    ensures (x >> 1) as nat == x as nat / 2 && ((x & 1) != 0 <==> x as nat % 2 == 1)
  {
    var hi, lo := LowestBitSplit(x);
    LowestBitJoined(hi, lo);
  }

  //
  // Bit 28
  //

  lemma Bit28Split(x: bv64) returns (hi: bv35, mid: bv1, lo: bv28)
    ensures x == ((hi as bv64) << 29) | ((mid as bv64) << 28) | (lo as bv64)
  {
    hi, mid, lo := (x >> 29) as bv35, ((x >> 28) & 1) as bv1, (x & 0xfff_ffff) as bv28;
  }

  lemma Bit28Places(hi: bv35, mid: bv1, lo: bv28)
    ensures (((hi as bv64) << 29) | ((mid as bv64) << 28) | (lo as bv64)) as nat
         == 0x1000_0000 * (2 * (hi as nat) + mid as nat) + lo as nat
  {
  }

  lemma Bit28Cut(v: nat, hi: nat, mid: nat, lo: nat)
    requires v == 0x1000_0000 * (2 * hi + mid) + lo && mid < 2 && lo < 0x1000_0000
    ensures mid == v / 0x1000_0000 % 2
  {
  }

  lemma Bit28Number(hi: bv35, mid: bv1, lo: bv28)
    ensures var x := ((hi as bv64) << 29) | ((mid as bv64) << 28) | (lo as bv64);
      mid as nat == x as nat / 0x1000_0000 % 2
  {
    var x := ((hi as bv64) << 29) | ((mid as bv64) << 28) | (lo as bv64);
    Bit28Places(hi, mid, lo);
    Bit28Cut(x as nat, hi as nat, mid as nat, lo as nat);
  }

  lemma Bit28Masks(hi: bv35, mid: bv1, lo: bv28)
    ensures var x := ((hi as bv64) << 29) | ((mid as bv64) << 28) | (lo as bv64);
      (x & 0x1000_0000 != 0) == (mid != 0)
  {
  }

  lemma Bit28Joined(hi: bv35, mid: bv1, lo: bv28)
    ensures var x := ((hi as bv64) << 29) | ((mid as bv64) << 28) | (lo as bv64);
      x & 0x1000_0000 != 0 <==> x as nat / 0x1000_0000 % 2 == 1
  {
    Bit28Masks(hi, mid, lo);
    Bit28Number(hi, mid, lo);
    OneBit(mid);
  }

  lemma Bit28(x: bv64)
    ensures x & 0x1000_0000 != 0 <==> x as nat / 0x1000_0000 % 2 == 1
  {
    var hi, mid, lo := Bit28Split(x);
    Bit28Joined(hi, mid, lo);
  }
}
