/** Laws of the eight cases of a CLHash step, for every instruction set whose exclusive or
    is a sum: which operand enters where, and what is stored. */
module CaseLaws {
  import opened Simd
  import opened Selector
  import opened Clhash
  import opened WordSums

  // As in Clhash, a and b are the entries selected by prand and prandex, p the selected
  // buffer word and q its neighbour.

  /** The product of nothing is nothing. */
  predicate ZeroProduct(isa: Isa) {
    isa.clmulHalves(ZERO) == ZERO
  }

  predicate Vanishes(isa: Isa, x: Vec, y: Vec) {
    isa.mulhrs(x, y) == ZERO
  }

  /** The multiply adds nothing to the entries. */
  ghost predicate Still(isa: Isa) {
    Sums(isa) && forall x, y :: Vanishes(isa, x, y)
  }

  predicate IsOwnInverse(isa: Isa, x: bv32) {
    isa.xor32(x, x) == 0
  }

  /** Equal summands cancel. */
  ghost predicate Cancels(isa: Isa) {
    Sums(isa) && forall x :: IsOwnInverse(isa, x)
  }

  lemma Cancel(isa: Isa, x: Vec, y: Vec)
    requires Cancels(isa)
    ensures Xor(isa, x, x) == ZERO && Xor(isa, x, Xor(isa, x, y)) == y
  {
    assert IsOwnInverse(isa, x.w0) && IsOwnInverse(isa, x.w1) && IsOwnInverse(isa, x.w2) && IsOwnInverse(isa, x.w3);
    Regroup(isa, x, x, y);
    Zero(isa, y);
  }

  lemma StillStir(isa: Isa, acc: Vec, x: Vec)
    requires Still(isa)
    ensures Stir(isa, acc, x) == x && Xor(isa, x, isa.mulhrs(acc, x)) == x
  {
    assert Vanishes(isa, acc, x);
    Zero(isa, x);
  }

  /** What is stirred in is the multiply of the accumulator. */
  lemma StirTakes(isa: Isa, acc: Vec, x: Vec)
    requires forall y, z :: isa.mulhrs(y, z) == y
    ensures Stir(isa, acc, x) == Xor(isa, acc, x)
  {
  }

  /** Summands can be taken in any order. */
  lemma Order(isa: Isa, x: Vec, y: Vec, z: Vec)
    requires Sums(isa)
    ensures Xor(isa, Xor(isa, x, y), z) == Xor(isa, x, Xor(isa, y, z)) == Xor(isa, y, Xor(isa, x, z))
    ensures Xor(isa, x, Xor(isa, y, z)) == Xor(isa, z, Xor(isa, x, y))
  {
    Regroup(isa, x, y, z);
    Middle(isa, x, y, z);
    Swap(isa, Xor(isa, x, y), z);
  }

  //
  // Case 0
  //

  /** An entry and its buffer word count only through their sum, and the accumulator is
      added to what they make. */
  lemma Case0Pairs(isa: Isa, acc: Vec, a: Vec, b: Vec, p: Vec, q: Vec)
    requires Sums(isa)
    ensures Case0(isa, acc, a, b, p, q).acc == Case0(isa, acc, Xor(isa, a, p), Xor(isa, b, q), ZERO, ZERO).acc
    ensures Case0(isa, acc, a, b, p, q).acc == Xor(isa, acc, Case0(isa, ZERO, a, b, p, q).acc)
  {
    var x, y := Xor(isa, a, p), Xor(isa, b, q);
    Zero(isa, x);
    Zero(isa, y);
    TwoOnTop(isa, acc, isa.clmulHalves(x), isa.clmulHalves(y));
  }

  lemma TwoOnTop(isa: Isa, acc: Vec, x: Vec, y: Vec)
    requires Sums(isa)
    ensures Xor(isa, x, Xor(isa, y, acc)) == Xor(isa, acc, Xor(isa, x, Xor(isa, y, ZERO)))
  {
    Zero(isa, y);
    Order(isa, x, y, acc);
  }

  /** Each pair adds its product ... */
  lemma Case0Products(isa: Isa, acc: Vec, a: Vec, b: Vec, p: Vec, q: Vec)
    requires Sums(isa) && ZeroProduct(isa)
    ensures Case0(isa, acc, a, b, p, q).acc ==
      Xor(isa, Case0(isa, ZERO, a, ZERO, p, ZERO).acc, Case0(isa, acc, ZERO, b, ZERO, q).acc)
    ensures Case0(isa, ZERO, a, ZERO, ZERO, ZERO).acc == isa.clmulHalves(a)
    ensures Case0(isa, ZERO, ZERO, b, ZERO, ZERO).acc == isa.clmulHalves(b)
  {
    Zero(isa, ZERO);
    Zero(isa, a);
    Zero(isa, b);
    Zero(isa, isa.clmulHalves(a));
    Zero(isa, isa.clmulHalves(b));
    Zero(isa, isa.clmulHalves(Xor(isa, a, p)));
    Zero(isa, Xor(isa, isa.clmulHalves(Xor(isa, b, q)), acc));
  }

  /** ... and prandex's is in the accumulator when the entry of prandex is stirred, both
      when the entry of prand is. */
  lemma Case0Stores(isa: Isa, acc: Vec, a: Vec, b: Vec, p: Vec, q: Vec)
    requires Sums(isa) && ZeroProduct(isa)
    ensures var o := Case0(isa, acc, a, b, p, q);
      && o.prand == Stir(isa, Case0(isa, acc, ZERO, b, ZERO, q).acc, b)
      && o.prandex == Stir(isa, o.acc, a)
  {
    Zero(isa, ZERO);
    Zero(isa, Xor(isa, isa.clmulHalves(Xor(isa, b, q)), acc));
  }

  //
  // Case 1
  //

  /** The neighbour, the entry of prandex and the accumulator are added as they are. */
  lemma Case1Sum(isa: Isa, acc: Vec, a: Vec, b: Vec, p: Vec, q: Vec)
    requires Sums(isa)
    ensures Case1(isa, acc, a, b, p, q).acc ==
      Xor(isa, q, Xor(isa, b, Xor(isa, acc, Case1(isa, ZERO, a, ZERO, p, ZERO).acc)))
  {
    var x, y := isa.clmulHalves(p), isa.clmulHalves(Xor(isa, a, p));
    TwoOnTop(isa, acc, x, y);
    Zero(isa, ZERO);
    Zero(isa, Xor(isa, x, Xor(isa, y, ZERO)));
    Order(isa, b, q, Xor(isa, x, Xor(isa, y, acc)));
  }

  /** The selected word and the entry of prand are multiplied: nothing without the entry,
      the product of the entry without the word, and for a sum of entries one after the
      other, the second with the word that the first has been added to. */
  lemma Case1Product(isa: Isa, a: Vec, c: Vec, p: Vec)
    requires Cancels(isa)
    ensures Case1(isa, ZERO, ZERO, ZERO, p, ZERO).acc == ZERO
    ensures ZeroProduct(isa) ==> Case1(isa, ZERO, a, ZERO, ZERO, ZERO).acc == isa.clmulHalves(a)
    ensures Case1(isa, ZERO, Xor(isa, a, c), ZERO, p, ZERO).acc ==
      Xor(isa, Case1(isa, ZERO, a, ZERO, Xor(isa, c, p), ZERO).acc, Case1(isa, ZERO, c, ZERO, p, ZERO).acc)
  {
    Zero(isa, ZERO);
    Zero(isa, a);
    Zero(isa, p);
    Cancel(isa, isa.clmulHalves(p), ZERO);
    Zero(isa, isa.clmulHalves(a));
    Regroup(isa, a, c, p);
    var x, y, z := isa.clmulHalves(p), isa.clmulHalves(Xor(isa, c, p)), isa.clmulHalves(Xor(isa, Xor(isa, a, c), p));
    Through(isa, x, y, z);
    Zero(isa, Xor(isa, x, z));
    Zero(isa, Xor(isa, y, z));
    Zero(isa, Xor(isa, x, y));
  }

  /** What is added and taken away again on the way. */
  lemma Through(isa: Isa, x: Vec, y: Vec, z: Vec)
    requires Cancels(isa)
    ensures Xor(isa, x, Xor(isa, z, ZERO)) == Xor(isa, x, z)
    ensures Xor(isa, y, Xor(isa, z, ZERO)) == Xor(isa, y, z)
    ensures Xor(isa, x, Xor(isa, y, ZERO)) == Xor(isa, x, y)
    ensures Xor(isa, x, z) == Xor(isa, Xor(isa, y, z), Xor(isa, x, y))
  {
    Zero(isa, y);
    Zero(isa, z);
    Regroup(isa, y, z, Xor(isa, x, y));
    Order(isa, z, x, y);
    Swap(isa, z, x);
    Cancel(isa, y, Xor(isa, x, z));
  }

  lemma Case1Stores(isa: Isa, acc: Vec, a: Vec, b: Vec, p: Vec, q: Vec)
    requires Sums(isa)
    ensures var o := Case1(isa, acc, a, b, p, q);
      && o.prandex == Stir(isa, Case1(isa, acc, a, ZERO, p, ZERO).acc, a)
      && o.prand == Stir(isa, o.acc, b)
  {
    Zero(isa, ZERO);
    Zero(isa, Xor(isa, isa.clmulHalves(p), Xor(isa, isa.clmulHalves(Xor(isa, a, p)), acc)));
  }

  //
  // Case 2
  //

  /** The selected word, the entry of prandex and the accumulator are added as they are. */
  lemma Case2Sum(isa: Isa, acc: Vec, a: Vec, b: Vec, p: Vec, q: Vec)
    requires Sums(isa)
    ensures Case2(isa, acc, a, b, p, q).acc ==
      Xor(isa, p, Xor(isa, b, Xor(isa, acc, Case2(isa, ZERO, a, ZERO, ZERO, q).acc)))
  {
    var x, y, z := isa.clmulHalves(q), isa.clmulHalves(Xor(isa, a, q)), Xor(isa, b, p);
    Zero(isa, ZERO);
    TwoOnTop(isa, Xor(isa, z, acc), x, y);
    Regroup(isa, z, acc, Xor(isa, x, Xor(isa, y, ZERO)));
    Order(isa, b, p, Xor(isa, acc, Xor(isa, x, Xor(isa, y, ZERO))));
  }

  /** The neighbour and the entry of prand are multiplied. */
  lemma Case2Product(isa: Isa, a: Vec, c: Vec, q: Vec)
    requires Cancels(isa)
    ensures Case2(isa, ZERO, ZERO, ZERO, ZERO, q).acc == ZERO
    ensures ZeroProduct(isa) ==> Case2(isa, ZERO, a, ZERO, ZERO, ZERO).acc == isa.clmulHalves(a)
    ensures Case2(isa, ZERO, Xor(isa, a, c), ZERO, ZERO, q).acc ==
      Xor(isa, Case2(isa, ZERO, a, ZERO, ZERO, Xor(isa, c, q)).acc, Case2(isa, ZERO, c, ZERO, ZERO, q).acc)
  {
    Zero(isa, ZERO);
    Zero(isa, a);
    Zero(isa, q);
    Cancel(isa, isa.clmulHalves(q), ZERO);
    Zero(isa, isa.clmulHalves(a));
    Regroup(isa, a, c, q);
    Through(isa, isa.clmulHalves(q), isa.clmulHalves(Xor(isa, c, q)), isa.clmulHalves(Xor(isa, Xor(isa, a, c), q)));
  }

  lemma Case2Stores(isa: Isa, acc: Vec, a: Vec, b: Vec, p: Vec, q: Vec)
    requires Sums(isa) && ZeroProduct(isa)
    ensures var o := Case2(isa, acc, a, b, p, q);
      && o.prand == Stir(isa, Case2(isa, acc, ZERO, b, p, ZERO).acc, b)
      && o.prandex == Stir(isa, o.acc, a)
  {
    Zero(isa, ZERO);
    Zero(isa, Xor(isa, Xor(isa, b, p), acc));
  }

  //
  // Case 7
  //

  /** The neighbour, the entry of prand and the accumulator are added as they are. */
  lemma Case7Sum(isa: Isa, acc: Vec, a: Vec, b: Vec, p: Vec, q: Vec)
    requires Sums(isa)
    ensures Case7(isa, acc, a, b, p, q).acc ==
      Xor(isa, q, Xor(isa, a, Xor(isa, acc, Case7(isa, ZERO, ZERO, b, p, ZERO).acc)))
  {
    var x := isa.clmulHalves(Xor(isa, p, b));
    Swap(isa, x, acc);
    Zero(isa, x);
  }

  /** The selected word and the entry of prandex are multiplied through their sum. */
  lemma Case7Product(isa: Isa, b: Vec, p: Vec)
    requires Sums(isa)
    ensures Case7(isa, ZERO, ZERO, b, p, ZERO).acc == Case7(isa, ZERO, ZERO, p, b, ZERO).acc
    ensures Case7(isa, ZERO, ZERO, b, ZERO, ZERO).acc == isa.clmulHalves(b)
    ensures Case7(isa, ZERO, ZERO, b, p, ZERO).acc == Case7(isa, ZERO, ZERO, Xor(isa, b, p), ZERO, ZERO).acc
  {
    Swap(isa, p, b);
    Zero(isa, b);
    Zero(isa, Xor(isa, p, b));
    Zero(isa, isa.clmulHalves(b));
  }

  lemma Case7Stores(isa: Isa, acc: Vec, a: Vec, b: Vec, p: Vec, q: Vec)
    requires Sums(isa)
    ensures var o := Case7(isa, acc, a, b, p, q);
      && o.prand == Stir(isa, Case7(isa, acc, ZERO, b, p, ZERO).acc, b)
      && o.prandex == Stir(isa, o.acc, a)
  {
    Zero(isa, Xor(isa, isa.clmulHalves(Xor(isa, p, b)), acc));
  }

  //
  // Case 3
  //

  predicate Odd(m: Vec) {
    Low64(m) & 1 == 1
  }

  /** The accumulator, the entry of prand and the neighbour count only through their sum. */
  lemma Case3Mixed(isa: Isa, sel: bv64, acc: Vec, a: Vec, b: Vec, p: Vec, q: Vec)
    requires Sums(isa) && Tag(sel) == 3
    ensures Case3(isa, sel, acc, a, b, p, q).acc ==
      Case3(isa, sel, Xor(isa, acc, Xor(isa, a, q)), ZERO, b, p, ZERO).acc
  {
    Zero(isa, ZERO);
    Zero(isa, Xor(isa, acc, Xor(isa, a, q)));
    Swap(isa, acc, Xor(isa, a, q));
  }

  /** If the sum is even the remainder of its low half is added to it, and the selected
      word; the entry of prandex is moved unchanged. */
  lemma Case3Even(isa: Isa, sel: bv64, acc: Vec, a: Vec, b: Vec, p: Vec, q: Vec, m: Vec)
    requires Sums(isa) && Tag(sel) == 3 && m == Xor(isa, Xor(isa, a, q), acc) && !Odd(m)
    ensures var o := Case3(isa, sel, acc, a, b, p, q);
      && o.acc == Xor(isa, p, Case3(isa, sel, acc, a, ZERO, ZERO, q).acc)
      && o.prand == b
      && o.prandex == Stir(isa, Case3(isa, sel, acc, a, ZERO, ZERO, q).acc, a)
    ensures Case3(isa, sel, acc, a, ZERO, ZERO, q).acc == Xor(isa, m, Modulo(sel, Low64(m)))
  {
    Zero(isa, Xor(isa, Modulo(sel, Low64(m)), m));
    Swap(isa, m, Modulo(sel, Low64(m)));
  }

  /** If it is odd the product of case 1 is added instead, here of the selected word and the
      entry of prandex, and that entry is stirred like the others. */
  lemma Case3Odd(isa: Isa, sel: bv64, acc: Vec, a: Vec, b: Vec, p: Vec, q: Vec, m: Vec)
    requires Cancels(isa) && Tag(sel) == 3 && m == Xor(isa, Xor(isa, a, q), acc) && Odd(m)
    ensures var o := Case3(isa, sel, acc, a, b, p, q);
      && o.acc == Xor(isa, Case1(isa, ZERO, b, ZERO, p, ZERO).acc, Case3(isa, sel, acc, a, ZERO, ZERO, q).acc)
      && o.prand == Stir(isa, o.acc, b)
      && o.prandex == Stir(isa, Case3(isa, sel, acc, a, ZERO, ZERO, q).acc, a)
    ensures Case3(isa, sel, acc, a, ZERO, ZERO, q).acc == Xor(isa, m, Modulo(sel, Low64(m)))
  {
    var rest := Xor(isa, Modulo(sel, Low64(m)), m);
    var x, y := isa.clmulHalves(p), isa.clmulHalves(Xor(isa, b, p));
    Swap(isa, m, Modulo(sel, Low64(m)));
    Zero(isa, ZERO);
    Cancel(isa, isa.clmulHalves(ZERO), rest);
    TwoOnTop(isa, rest, x, y);
    Zero(isa, Xor(isa, x, Xor(isa, y, ZERO)));
    Swap(isa, rest, Xor(isa, x, Xor(isa, y, ZERO)));
  }

  //
  // All cases
  //

  /** With a multiply that adds nothing every case but 6 swaps the two entries. */
  lemma CasesSwap(isa: Isa, key: seq<Vec>, sel: bv64, t: nat, i: nat, acc: Vec, a: Vec, b: Vec, p: Vec, q: Vec)
    requires Still(isa) && |key| >= KEY_REACH && t == Tag(sel) && i < MUTABLE && t != 6
    ensures var o := Switch(isa, key, sel, t, i, acc, a, b, p, q); o.prand == b && o.prandex == a
  {
    forall x, v ensures Stir(isa, x, v) == v && Xor(isa, v, isa.mulhrs(x, v)) == v {
      StillStir(isa, x, v);
    }
  }

  /** The store to prandex comes first exactly in cases 1, 5 and 6 and in the odd branch of
      case 3: there prand wins when both select one entry. */
  lemma StoreOrder(isa: Isa, key: seq<Vec>, sel: bv64, t: nat, i: nat, acc: Vec, a: Vec, b: Vec, p: Vec, q: Vec)
    requires |key| >= KEY_REACH && t == Tag(sel) && i < MUTABLE
    ensures Switch(isa, key, sel, t, i, acc, a, b, p, q).prandLast <==>
      t == 1 || t == 5 || t == 6 || (t == 3 && Odd(Xor(isa, Xor(isa, a, q), acc)))
  {
  }

  /** So a step then exchanges two entries of the key and keeps them all. */
  lemma StepSwaps(isa: Isa, pbuf: seq<Vec>, s: Lane)
    requires Still(isa) && |pbuf| == 4 && |s.key| >= KEY_REACH && Tag(Low64(s.acc)) != 6
    ensures var i, j, r := Prand(Low64(s.acc)), Prandex(Low64(s.acc)), Step(VerusRule(isa, pbuf), s);
      r.key == s.key[i := s.key[j]][j := s.key[i]] && multiset(r.key) == multiset(s.key)
  {
    var sel := Low64(s.acc);
    var i, j := Prand(sel), Prandex(sel);
    CasesSwap(isa, s.key, sel, Tag(sel), i, s.acc, s.key[i], s.key[j],
              pbuf[BufferIndex(sel)], pbuf[NeighbourIndex(sel)]);
    Exchanged(s.key, i, j);
  }

  lemma Exchanged(key: seq<Vec>, i: nat, j: nat)
    requires i < |key| && j < |key|
    ensures multiset(key[i := key[j]][j := key[i]]) == multiset(key)
    ensures key[j := key[i]][i := key[j]] == key[i := key[j]][j := key[i]]
  {
  }
}
