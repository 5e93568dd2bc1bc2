/** The two builds compute one hash: replacing the 16-bit multiply and the reduction by
    functions with the same values changes no message's VerusHash. */
module Builds {
  import opened Simd
  import opened Layout
  import opened Selector
  import opened Clhash
  import opened VerusHash
  import opened Registers
  import Haraka
  import Gf2
  import Mulhrs

  //
  // The real instructions
  //

  function X86(aesenc: (Vec, Vec) -> Vec): Isa {
    Isa(XorWord, aesenc, ClmulHalves, MulhrsX86, (v: Vec) => Reduce64(false, v))
  }

  function Arm(aesenc: (Vec, Vec) -> Vec): Isa {
    Isa(XorWord, aesenc, ClmulHalves, MulhrsArm, (v: Vec) => Reduce64(true, v))
  }

  //
  // Instruction sets that agree
  //

  ghost predicate Agree(i: Isa, j: Isa) {
    && i.xor32 == j.xor32 && i.aesenc == j.aesenc
    && i.clmulHalves == j.clmulHalves && (forall v :: i.reduce64(v) == j.reduce64(v))
    && forall a, b :: i.mulhrs(a, b) == j.mulhrs(a, b)
  }

  lemma SameWord(a: bv32, b: bv32)
    ensures MulWord(Mulhrs.Native, a, b) == MulWord(Mulhrs.Pmulhrsw, a, b)
  {
    Mulhrs.NativeIsPmulhrsw(LowLane(a), LowLane(b));
    Mulhrs.NativeIsPmulhrsw(HighLane(a), HighLane(b));
  }

  lemma ArmAgreesWithX86(aesenc: (Vec, Vec) -> Vec)
    ensures Agree(Arm(aesenc), X86(aesenc))
  {
    forall a, b ensures MulhrsArm(a, b) == MulhrsX86(a, b) {
      SameWord(a.w0, b.w0);
      SameWord(a.w1, b.w1);
      SameWord(a.w2, b.w2);
      SameWord(a.w3, b.w3);
    }
    forall v ensures Reduce64(true, v) == Reduce64(false, v) {
      Gf2.ReductionsAgree(BitsOf(v));
    }
  }

  lemma {:induction false} SameLoop5(f: Rounds5, g: Rounds5, bit: nat -> bool, n: nat, rc: nat, off: nat, acc: Vec)
    requires forall n, rc, off, acc :: f(n, rc, off, acc) == g(n, rc, off, acc)
    ensures Loop5(f, bit, n, rc, off, acc) == Loop5(g, bit, n, rc, off, acc)
  {
    if n > 0 {
      SameLoop5(f, g, bit, n - 1, rc + 1, if bit(n) then off else off + 4, f(n, rc, off, acc));
    }
  }

  lemma {:induction false} SameLoop6(f: Rounds6, g: Rounds6, n: nat, rc: nat, acc: Vec)
    requires forall n, rc, acc :: f(n, rc, acc) == g(n, rc, acc)
    ensures Loop6(f, n, rc, acc) == Loop6(g, n, rc, acc)
  {
    if n > 0 {
      SameLoop6(f, g, n - 1, rc + 1, f(n, rc, acc).acc);
    }
  }

  //
  // One step, whole runs, whole messages
  //

  lemma SameRound5(i: Isa, j: Isa, key: seq<Vec>, product: bool, x: Vec, rc: nat, off: nat, acc: Vec)
    requires Agree(i, j) && rc + off + 5 <= |key|
    ensures Round5(i, key, product, x, rc, off, acc) == Round5(j, key, product, x, rc, off, acc)
  {
  }

  lemma SameRule5(i: Isa, j: Isa, key: seq<Vec>, bit: nat -> bool, p: Vec, q: Vec)
    requires Agree(i, j)
    ensures forall n, rc, off, acc ::
      Rounds5For(i, key, bit, p, q)(n, rc, off, acc) == Rounds5For(j, key, bit, p, q)(n, rc, off, acc)
  {
    forall n: nat, rc: nat, off: nat, acc
      ensures Rounds5For(i, key, bit, p, q)(n, rc, off, acc) == Rounds5For(j, key, bit, p, q)(n, rc, off, acc)
    {
      if rc + off + 5 <= |key| {
        SameRound5(i, j, key, bit(n), Pick(bit(n), n, p, q), rc, off, acc);
      }
    }
  }

  lemma SameRound6(i: Isa, j: Isa, modulo: Vec -> Vec, divide: bool, k: Vec, x: Vec, acc: Vec)
    requires Agree(i, j)
    ensures Round6(i, modulo, divide, k, x, acc) == Round6(j, modulo, divide, k, x, acc)
  {
  }

  lemma SameRule6(i: Isa, j: Isa, key: seq<Vec>, bit: nat -> bool, modulo: Vec -> Vec, p: Vec, q: Vec)
    requires Agree(i, j)
    ensures forall n, rc, acc ::
      Rounds6For(i, key, bit, modulo, p, q)(n, rc, acc) == Rounds6For(j, key, bit, modulo, p, q)(n, rc, acc)
  {
    forall n: nat, rc: nat, acc
      ensures Rounds6For(i, key, bit, modulo, p, q)(n, rc, acc) == Rounds6For(j, key, bit, modulo, p, q)(n, rc, acc)
    {
      if rc < |key| {
        SameRound6(i, j, modulo, bit(n), key[rc], Pick(bit(n), n, p, q), acc);
      }
    }
  }

  lemma SameCase0(i: Isa, j: Isa, acc: Vec, a: Vec, b: Vec, p: Vec, q: Vec)
    requires Agree(i, j)
    ensures Case0(i, acc, a, b, p, q) == Case0(j, acc, a, b, p, q)
  {
  }

  lemma SameCase1(i: Isa, j: Isa, acc: Vec, a: Vec, b: Vec, p: Vec, q: Vec)
    requires Agree(i, j)
    ensures Case1(i, acc, a, b, p, q) == Case1(j, acc, a, b, p, q)
  {
  }

  lemma SameCase2(i: Isa, j: Isa, acc: Vec, a: Vec, b: Vec, p: Vec, q: Vec)
    requires Agree(i, j)
    ensures Case2(i, acc, a, b, p, q) == Case2(j, acc, a, b, p, q)
  {
  }

  lemma SameCase7(i: Isa, j: Isa, acc: Vec, a: Vec, b: Vec, p: Vec, q: Vec)
    requires Agree(i, j)
    ensures Case7(i, acc, a, b, p, q) == Case7(j, acc, a, b, p, q)
  {
  }

  lemma SameCase3(i: Isa, j: Isa, sel: bv64, acc: Vec, a: Vec, b: Vec, p: Vec, q: Vec)
    requires Agree(i, j) && Tag(sel) == 3
    ensures Case3(i, sel, acc, a, b, p, q) == Case3(j, sel, acc, a, b, p, q)
  {
  }

  lemma SameCase4(i: Isa, j: Isa, key: seq<Vec>, at: nat, acc: Vec, a: Vec, b: Vec, p: Vec, q: Vec)
    requires Agree(i, j) && at < MUTABLE && |key| >= KEY_REACH
    ensures Case4(i, key, at, acc, a, b, p, q) == Case4(j, key, at, acc, a, b, p, q)
  {
  }

  lemma SameCase5(i: Isa, j: Isa, sel: bv64, key: seq<Vec>, at: nat, acc: Vec, a: Vec, b: Vec, p: Vec, q: Vec)
    requires Agree(i, j) && at < MUTABLE && |key| >= KEY_REACH
    ensures Case5(i, sel, key, at, acc, a, b, p, q) == Case5(j, sel, key, at, acc, a, b, p, q)
  {
    var bit := RoundBits(sel);
    SameRule5(i, j, key, bit, p, q);
    SameLoop5(Rounds5For(i, key, bit, p, q), Rounds5For(j, key, bit, p, q), bit, LoopRounds(sel), at, 0, acc);
  }

  lemma SameCase6(i: Isa, j: Isa, sel: bv64, key: seq<Vec>, at: nat, acc: Vec, b: Vec, p: Vec, q: Vec)
    requires Agree(i, j) && at < MUTABLE && |key| >= KEY_REACH && Tag(sel) == 6
    ensures Case6(i, sel, key, at, acc, b, p, q) == Case6(j, sel, key, at, acc, b, p, q)
  {
    var bit, modulo := RoundBits(sel), Remainders(sel);
    SameRule6(i, j, key, bit, modulo, p, q);
    SameLoop6(Rounds6For(i, key, bit, modulo, p, q), Rounds6For(j, key, bit, modulo, p, q), LoopRounds(sel), at, acc);
  }

  lemma SameSwitch(i: Isa, j: Isa, key: seq<Vec>, sel: bv64, t: nat, at: nat, acc: Vec, a: Vec, b: Vec, p: Vec, q: Vec)
    requires Agree(i, j) && |key| >= KEY_REACH && t == Tag(sel) && at < MUTABLE
    ensures Switch(i, key, sel, t, at, acc, a, b, p, q) == Switch(j, key, sel, t, at, acc, a, b, p, q)
  {
    if t == 0 {
      SameCase0(i, j, acc, a, b, p, q);
    } else if t == 1 {
      SameCase1(i, j, acc, a, b, p, q);
    } else if t == 2 {
      SameCase2(i, j, acc, a, b, p, q);
    } else if t == 3 {
      SameCase3(i, j, sel, acc, a, b, p, q);
    } else if t == 4 {
      SameCase4(i, j, key, at, acc, a, b, p, q);
    } else if t == 5 {
      SameCase5(i, j, sel, key, at, acc, a, b, p, q);
    } else if t == 6 {
      SameCase6(i, j, sel, key, at, acc, b, p, q);
    } else {
      SameCase7(i, j, acc, a, b, p, q);
    }
  }

  lemma SameEffect(i: Isa, j: Isa, key: seq<Vec>, pbuf: seq<Vec>, acc: Vec)
    requires Agree(i, j) && |key| >= KEY_REACH && |pbuf| == 4
    ensures Effect(i, key, pbuf, acc) == Effect(j, key, pbuf, acc)
  {
    var sel := Low64(acc);
    SameSwitch(i, j, key, sel, Tag(sel), Prand(sel), acc, key[Prand(sel)], key[Prandex(sel)],
               pbuf[BufferIndex(sel)], pbuf[NeighbourIndex(sel)]);
  }

  lemma {:induction false} SameRun(r: Rule, s: Rule, lane: Lane, n: nat)
    requires |lane.key| >= MUTABLE
    requires forall acc :: r.prand(acc) == s.prand(acc) && r.prandex(acc) == s.prandex(acc)
    requires forall key, acc :: r.effect(key, acc) == s.effect(key, acc)
    ensures Run(r, lane, n) == Run(s, lane, n)
  {
    if n > 0 {
      SameRun(r, s, lane, n - 1);
    }
  }

  lemma SameRule(i: Isa, j: Isa, pbuf: seq<Vec>, key: seq<Vec>, acc: Vec)
    requires Agree(i, j) && |pbuf| == 4
    ensures VerusRule(i, pbuf).effect(key, acc) == VerusRule(j, pbuf).effect(key, acc)
  {
    if |key| >= KEY_REACH {
      SameEffect(i, j, key, pbuf, acc);
    }
  }

  lemma SameFinish(i: Isa, j: Isa, key: seq<Vec>, buf: seq<Byte>)
    requires Agree(i, j) && |key| >= KEY_REACH && |buf| == 64
    ensures Finish(i, key, buf) == Finish(j, key, buf)
  {
    var pbuf := Pbuf(i, buf);
    assert pbuf == Pbuf(j, buf);
    var r, s := VerusRule(i, pbuf), VerusRule(j, pbuf);
    forall k, a ensures r.effect(k, a) == s.effect(k, a) {
      SameRule(i, j, pbuf, k, a);
    }
    SameRun(r, s, Start(key), STEPS);
  }

  lemma SameBufferHash(i: Isa, j: Isa, key: seq<Vec>, buf: seq<Byte>)
    requires Agree(i, j) && |key| >= KEY_REACH && |buf| == 64
    ensures BufferHash(i, key, buf) == BufferHash(j, key, buf)
  {
    SameFinish(i, j, key, buf);
  }

  /** Algorithms whose primitives have the same values hash every message alike. */
  ghost predicate SameAlgo(a: Algo, b: Algo) {
    && (forall s, t :: a.compress(s, t) == b.compress(s, t))
    && (forall p :: a.next(p) == b.next(p))
    && (forall key, buf :: a.finish(key, buf) == b.finish(key, buf))
  }

  lemma {:induction false} SameAbsorb(a: Algo, b: Algo, data: seq<Byte>, n: nat)
    requires SameAlgo(a, b) && 32 * n <= |data|
    ensures Absorb(a, data, n) == Absorb(b, data, n)
  {
    if n > 0 {
      SameAbsorb(a, b, data, n - 1);
    }
  }

  lemma {:induction false} SameChain(a: Algo, b: Algo, seed: Haraka.Pair, n: nat)
    requires SameAlgo(a, b)
    ensures Chain(a, seed, n) == Chain(b, seed, n)
  {
    if n > 0 {
      SameChain(a, b, seed, n - 1);
    }
  }

  lemma SameHash(a: Algo, b: Algo, message: seq<Byte>)
    requires SameAlgo(a, b) && |message| == MESSAGE
    ensures Hash(a, message) == Hash(b, message)
  {
    SameAbsorb(a, b, message, 46);
    var seed := Seed(Absorb(a, message, 46));
    forall k | 0 <= k < KEY_LENGTH ensures Key(a, seed)[k] == Key(b, seed)[k] {
      SameChain(a, b, seed, k / 2);
    }
    assert Key(a, seed) == Key(b, seed);
  }

  lemma SameVerus(i: Isa, j: Isa, rc: seq<Vec>)
    requires Agree(i, j) && |rc| == 40
    ensures SameAlgo(Verus(i, rc), Verus(j, rc))
  {
    forall key, buf ensures Verus(i, rc).finish(key, buf) == Verus(j, rc).finish(key, buf) {
      if |key| >= KEY_REACH && |buf| == 64 {
        SameBufferHash(i, j, key, buf);
      }
    }
  }

  /** Both builds give every message the same VerusHash, for every AES round. */
  lemma BuildsHashAlike(aesenc: (Vec, Vec) -> Vec, rc: seq<Vec>, message: seq<Byte>)
    requires |rc| == 40 && |message| == MESSAGE
    ensures Hash(Verus(Arm(aesenc), rc), message) == Hash(Verus(X86(aesenc), rc), message)
  {
    ArmAgreesWithX86(aesenc);
    SameVerus(Arm(aesenc), X86(aesenc), rc);
    SameHash(Verus(Arm(aesenc), rc), Verus(X86(aesenc), rc), message);
  }
}
