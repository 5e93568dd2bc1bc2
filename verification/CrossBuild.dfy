/** The two builds of `scanhash_verus` side by side: the ARM build scans in pairs with NEON
    instructions and restores its keys from a pristine copy, the x86 build scans one by
    one and undoes what it saved; they leave the same share. */
module CrossBuild {
  import opened Simd
  import opened Layout
  import opened Limbs
  import opened VerusHash
  import opened Builds
  import opened ScanHash

  lemma WinningAlike(a: Algo, b: Algo, data: seq<Byte>, solution: seq<Byte>, target: Digest, nonce: Limb)
    requires SameAlgo(a, b) && |data| == 192 && |solution| == SOLUTION
    ensures WinningMessage(a, data, solution, target, nonce) <==> WinningMessage(b, data, solution, target, nonce)
  {
    SameHash(a, b, Message(data, solution, nonce));
  }

  /** A share recorded under one algorithm is recorded under every other with the same
      primitives. */
  lemma RecordedAlike(a: Algo, b: Algo, solution: seq<Byte>, target: Digest, before: View, after: View,
                      stop: nat -> bool, nonce: Limb, vhash: seq<bv32>)
    requires SameAlgo(a, b)
    requires ViewShape(before) && ViewShape(after) && |solution| == SOLUTION && before.valid < MAX_NONCES
    requires Recorded(a, solution, target, before, after, stop, nonce, vhash)
    ensures Recorded(b, solution, target, before, after, stop, nonce, vhash)
  {
    SameHash(a, b, Message(before.data, solution, nonce));
    forall m: Limb | m < nonce ensures !WinningMessage(b, before.data, solution, target, m) {
      WinningAlike(a, b, before.data, solution, target, m);
    }
  }

  lemma NothingFoundAlike(a: Algo, b: Algo, solution: seq<Byte>, target: Digest, before: View, after: View,
                          limit: nat, stop: nat -> bool, done: nat)
    requires SameAlgo(a, b) && ViewShape(before) && ViewShape(after) && |solution| == SOLUTION
    requires NothingFound(a, solution, target, before, after, limit, stop, done)
    ensures NothingFound(b, solution, target, before, after, limit, stop, done)
  {
    forall m: Limb | m < done ensures !WinningMessage(b, before.data, solution, target, m) {
      WinningAlike(a, b, before.data, solution, target, m);
    }
  }

  /** What a finished scan promises. */
  ghost predicate Outcome(algo: Algo, solution: seq<Byte>, target: Digest, limit: nat, stop: nat -> bool,
                          before: View, after: View, found: bool, nonce: Limb, vhash: seq<bv32>, done: nat)
    requires ViewShape(before) && ViewShape(after) && |solution| == SOLUTION && before.valid < MAX_NONCES
  {
    if found then Recorded(algo, solution, target, before, after, stop, nonce, vhash) && nonce < limit
    else NothingFound(algo, solution, target, before, after, limit, stop, done)
  }

  /** Scans by the two builds of the same work under the same flags agree in everything
      but, when they found something, the count of hashes. */
  lemma ScansAgree(aesenc: (Vec, Vec) -> Vec, rc: seq<Vec>, solution: seq<Byte>, target: Digest, limit: nat,
                   stop: nat -> bool, before: View,
                   after1: View, found1: bool, nonce1: Limb, vhash1: seq<bv32>, done1: nat,
                   after2: View, found2: bool, nonce2: Limb, vhash2: seq<bv32>, done2: nat)
    requires |rc| == 40 && ViewShape(before) && ViewShape(after1) && ViewShape(after2)
    requires |solution| == SOLUTION && before.valid < MAX_NONCES
    requires Outcome(Verus(Arm(aesenc), rc), solution, target, limit, stop, before, after1,
                     found1, nonce1, vhash1, done1)
    requires Outcome(Verus(X86(aesenc), rc), solution, target, limit, stop, before, after2,
                     found2, nonce2, vhash2, done2)
    ensures after1 == after2 && found1 == found2
    ensures found1 ==> nonce1 == nonce2 && vhash1 == vhash2
    ensures !found1 ==> done1 == done2
  {
    var arm, x86 := Verus(Arm(aesenc), rc), Verus(X86(aesenc), rc);
    ArmAgreesWithX86(aesenc);
    SameVerus(Arm(aesenc), X86(aesenc), rc);
    if found1 {
      RecordedAlike(arm, x86, solution, target, before, after1, stop, nonce1, vhash1);
    } else {
      NothingFoundAlike(arm, x86, solution, target, before, after1, limit, stop, done1);
    }
    BuildsAgree(x86, solution, target, limit, stop, before, after1, found1, nonce1, vhash1, done1,
                after2, found2, nonce2, vhash2, done2);
  }

  /** Both builds, each on its own copy of the same work. */
  method ScanBoth(aesenc: (Vec, Vec) -> Vec, rc: seq<Vec>, arm: Work, x86: Work, maxNonce: Limb, stop: nat -> bool,
                  garbage1: seq<Byte>, garbage2: seq<Byte>)
    returns (found: bool, nonce: Limb, vhash: seq<bv32>, done: nat)
    requires |rc| == 40 && |garbage1| == |garbage2| == 64
    requires arm.Shape() && x86.Shape() && arm != x86
    requires {arm, arm.data, arm.extra, arm.nonces} !! {x86, x86.data, x86.extra, x86.nonces}
    requires arm.solution == x86.solution && arm.target == x86.target
    requires ViewOf(arm) == ViewOf(x86) && arm.validNonces < MAX_NONCES
    modifies arm, arm.data, arm.extra, arm.nonces, x86, x86.data, x86.extra, x86.nonces
    ensures ViewOf(arm) == ViewOf(x86)
    ensures var limit := if maxNonce == 0 then 1 else maxNonce;
      && Outcome(Verus(Arm(aesenc), rc), arm.solution, arm.target, limit, stop, old(ViewOf(arm)), ViewOf(arm),
                 found, nonce, vhash, done)
      && Outcome(Verus(X86(aesenc), rc), arm.solution, arm.target, limit, stop, old(ViewOf(arm)), ViewOf(arm),
                 found, nonce, vhash, done)
  {
    ghost var before, limit := ViewOf(arm), if maxNonce == 0 then 1 else maxNonce;
    ghost var algo1, algo2 := Verus(Arm(aesenc), rc), Verus(X86(aesenc), rc);
    VerusImplements(Arm(aesenc), rc);
    VerusImplements(X86(aesenc), rc);
    var valid1, done1, found1, nonce1, vhash1 :=
      ScanHashDual(Arm(aesenc), rc, arm, maxNonce, stop, garbage1, true, algo1);
    ghost var after1 := ViewOf(arm);
    assert ViewOf(x86) == before;
    var valid2;
    valid2, done, found, nonce, vhash := ScanHashSaved(X86(aesenc), rc, x86, maxNonce, stop, garbage2, true, algo2);
    assert ViewOf(arm) == after1;
    ScansAgree(aesenc, rc, arm.solution, arm.target, limit, stop, before, after1, found1, nonce1, vhash1, done1,
               ViewOf(x86), found, nonce, vhash, done);
  }
}
