/** Instruction sets whose exclusive or is a sum: all that the laws of single steps need to
    know of it. */
module WordSums {
  import opened Simd

  predicate Commutes(isa: Isa, a: bv32, b: bv32) {
    isa.xor32(a, b) == isa.xor32(b, a)
  }

  predicate Regroups(isa: Isa, a: bv32, b: bv32, c: bv32) {
    isa.xor32(isa.xor32(a, b), c) == isa.xor32(a, isa.xor32(b, c))
  }

  predicate KeepsZero(isa: Isa, a: bv32) {
    isa.xor32(0, a) == a
  }

  /** The exclusive or is commutative and associative, with 0 as its identity. */
  ghost predicate Sums(isa: Isa) {
    && (forall a, b :: Commutes(isa, a, b))
    && (forall a, b, c :: Regroups(isa, a, b, c))
    && (forall a :: KeepsZero(isa, a))
  }

  /** So it is on registers. */
  lemma Swap(isa: Isa, a: Vec, b: Vec)
    requires Sums(isa)
    ensures Xor(isa, a, b) == Xor(isa, b, a)
  {
    assert Commutes(isa, a.w0, b.w0) && Commutes(isa, a.w1, b.w1);
    assert Commutes(isa, a.w2, b.w2) && Commutes(isa, a.w3, b.w3);
  }

  lemma Regroup(isa: Isa, a: Vec, b: Vec, c: Vec)
    requires Sums(isa)
    ensures Xor(isa, Xor(isa, a, b), c) == Xor(isa, a, Xor(isa, b, c))
  {
    assert Regroups(isa, a.w0, b.w0, c.w0) && Regroups(isa, a.w1, b.w1, c.w1);
    assert Regroups(isa, a.w2, b.w2, c.w2) && Regroups(isa, a.w3, b.w3, c.w3);
  }

  lemma Zero(isa: Isa, a: Vec)
    requires Sums(isa)
    ensures Xor(isa, ZERO, a) == a && Xor(isa, a, ZERO) == a
  {
    Swap(isa, a, ZERO);
    assert KeepsZero(isa, a.w0) && KeepsZero(isa, a.w1) && KeepsZero(isa, a.w2) && KeepsZero(isa, a.w3);
  }

  /** The middle of three summands first. */
  lemma Middle(isa: Isa, a: Vec, b: Vec, c: Vec)
    requires Sums(isa)
    ensures Xor(isa, a, Xor(isa, b, c)) == Xor(isa, b, Xor(isa, a, c))
  {
    Regroup(isa, a, b, c);
    Swap(isa, a, b);
    Regroup(isa, b, a, c);
  }
}
