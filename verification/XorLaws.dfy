/** The exclusive or of words, bit by bit. */
module XorLaws {
  import opened BitNumbers
  import opened BitTests
  import opened Registers

  function Half(x: bv32): bv32 {
    x >> 1
  }

  predicate IsOdd(x: bv32) {
    x & 1 != 0
  }

  lemma HalfOfSum(a: bv32, b: bv32)
    ensures Half(XorWord(a, b)) == XorWord(Half(a), Half(b))
    ensures IsOdd(XorWord(a, b)) == (IsOdd(a) != IsOdd(b))
  {
  }

  //
  // The lowest bit as a number
  //

  lemma Split(x: bv32) returns (hi: bv31, lo: bv1)
    ensures x == ((hi as bv32) << 1) | (lo as bv32)
  {
    hi, lo := (x >> 1) as bv31, (x & 0x1) as bv1;
  }

  lemma Places(hi: bv31, lo: bv1)
    ensures (((hi as bv32) << 1) | (lo as bv32)) as nat == 2 * (hi as nat) + lo as nat
  {
  }

  lemma Masks(hi: bv31, lo: bv1)
    ensures Half(((hi as bv32) << 1) | (lo as bv32)) == hi as bv32
    ensures IsOdd(((hi as bv32) << 1) | (lo as bv32)) == (lo != 0)
  {
  }

  lemma Wide(hi: bv31)
    ensures (hi as bv32) as nat == hi as nat
  {
  }

  lemma JoinedHalf(hi: bv31, lo: bv1)
    ensures Half(((hi as bv32) << 1) | (lo as bv32)) as nat == (((hi as bv32) << 1) | (lo as bv32)) as nat / 2
  {
    Masks(hi, lo);
    Wide(hi);
    Places(hi, lo);
    LowestBitCut((((hi as bv32) << 1) | (lo as bv32)) as nat, hi as nat, lo as nat);
  }

  lemma JoinedOdd(hi: bv31, lo: bv1)
    ensures IsOdd(((hi as bv32) << 1) | (lo as bv32)) <==> (((hi as bv32) << 1) | (lo as bv32)) as nat % 2 == 1
  {
    Masks(hi, lo);
    OneBit(lo);
    Places(hi, lo);
    LowestBitCut((((hi as bv32) << 1) | (lo as bv32)) as nat, hi as nat, lo as nat);
  }

  lemma HalfNumber(x: bv32) returns (n: nat, h: nat)
    ensures n == x as nat && h == Half(x) as nat && h == n / 2 && (IsOdd(x) <==> n % 2 == 1)
  {
    var hi, lo := Split(x);
    JoinedHalf(hi, lo);
    JoinedOdd(hi, lo);
    n, h := x as nat, Half(x) as nat;
  }

  //
  // Sums made bit by bit
  //

  /** Any kind of word. */
  datatype Words<!T> = Words(num: T -> nat, sum: (T, T) -> T, half: T -> T)

  predicate Halves<T>(w: Words<T>, x: T) {
    w.num(w.half(x)) == w.num(x) / 2
  }

  predicate Parity<T(==)>(w: Words<T>, x: T, y: T) {
    && w.half(w.sum(x, y)) == w.sum(w.half(x), w.half(y))
    && (w.num(w.sum(x, y)) % 2 == 1) == ((w.num(x) % 2 == 1) != (w.num(y) % 2 == 1))
  }

  lemma {:induction false} SumBit<T(!new)>(w: Words<T>, x: T, y: T, k: nat)
    requires (forall x :: Halves(w, x)) && forall x, y :: Parity(w, x, y)
    ensures NatBit(w.num(w.sum(x, y)), k) == (NatBit(w.num(x), k) != NatBit(w.num(y), k))
    decreases k
  {
    assert Parity(w, x, y) && Halves(w, x) && Halves(w, y) && Halves(w, w.sum(x, y));
    if k > 0 {
      SumBit(w, w.half(x), w.half(y), k - 1);
    }
  }

  function Number32(x: bv32): nat {
    x as nat
  }

  const XOR := Words(Number32, XorWord, Half)

  lemma XorHalves(x: bv32)
    ensures Halves(XOR, x)
  {
    var n, h := HalfNumber(x);
  }

  lemma XorParity(x: bv32, y: bv32)
    ensures Parity(XOR, x, y)
  {
    var n, h := HalfNumber(x);
    var m, i := HalfNumber(y);
    var s, j := HalfNumber(XorWord(x, y));
    HalfOfSum(x, y);
  }

  /** Every bit of the exclusive or is the exclusive or of the bits. */
  lemma XorBit(x: bv32, y: bv32, k: nat)
    ensures NatBit(XorWord(x, y) as nat, k) == (NatBit(x as nat, k) != NatBit(y as nat, k))
  {
    forall x ensures Halves(XOR, x) {
      XorHalves(x);
    }
    forall x, y ensures Parity(XOR, x, y) {
      XorParity(x, y);
    }
    SumBit(XOR, x, y, k);
  }
}
