/** The instructions of both builds meet the conditions under which the laws of the steps
    are stated. */
module BuildLaws {
  import opened Simd
  import opened WordSums
  import opened Clhash
  import opened CaseLaws
  import opened Registers
  import opened Builds
  import RegisterLaws

  lemma XorCommutes(a: bv32, b: bv32)
    ensures XorWord(a, b) == XorWord(b, a)
  {
  }

  lemma XorRegroups(a: bv32, b: bv32, c: bv32)
    ensures XorWord(XorWord(a, b), c) == XorWord(a, XorWord(b, c))
  {
  }

  lemma XorUnit(a: bv32)
    ensures XorWord(0, a) == a && XorWord(a, a) == 0
  {
  }

  lemma XorCancels(isa: Isa)
    requires isa.xor32 == XorWord
    ensures Cancels(isa)
  {
    forall a, b, c ensures Commutes(isa, a, b) && Regroups(isa, a, b, c) && KeepsZero(isa, a) && IsOwnInverse(isa, a) {
      XorCommutes(a, b);
      XorRegroups(a, b, c);
      XorUnit(a);
    }
  }

  /** On both builds the exclusive or is a sum in which equal summands cancel, the product
      of nothing is nothing, and `lazyLengthHash` is the constant that is added. */
  lemma BuildsAreLawful(aesenc: (Vec, Vec) -> Vec)
    ensures Cancels(X86(aesenc)) && ZeroProduct(X86(aesenc))
    ensures Cancels(Arm(aesenc)) && ZeroProduct(Arm(aesenc))
    ensures X86(aesenc).clmulHalves(Vec(64, 0, 1024, 0)) == Arm(aesenc).clmulHalves(Vec(64, 0, 1024, 0)) == LENGTH_HASH
  {
    XorCancels(X86(aesenc));
    XorCancels(Arm(aesenc));
    RegisterLaws.ClmulByNothing();
    RegisterLaws.LazyLengthHash();
  }
}
