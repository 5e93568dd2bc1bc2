/** No step looks past key entry 550: cutting the key off there changes nothing. */
module KeyReach {
  import opened Simd
  import opened Selector
  import opened Clhash
  import opened VerusHash
  import opened Fills
  import Haraka

  lemma CutAt(key: seq<Vec>, k: nat)
    requires |key| >= KEY_REACH && k < KEY_REACH
    ensures key[..KEY_REACH][k] == key[k]
  {
  }

  lemma Round5Reach(isa: Isa, key: seq<Vec>, product: bool, x: Vec, rc: nat, off: nat, acc: Vec)
    requires |key| >= KEY_REACH && rc + off + 5 <= KEY_REACH
    ensures Round5(isa, key, product, x, rc, off, acc) == Round5(isa, key[..KEY_REACH], product, x, rc, off, acc)
  {
  }

  /** The loop of case 5 started at a writable position stays below the cut, whatever
      mixture of rounds the selector asks for. */
  lemma {:induction false} Loop5Below(f: Rounds5, g: Rounds5, bit: nat -> bool, n: nat, rc: nat, off: nat, acc: Vec)
    requires n < 8 && rc + n < MUTABLE + 7 && off + 4 * n <= 28
    requires forall m: nat, k: nat, o: nat, a: Vec :: k + o + 5 <= KEY_REACH ==> f(m, k, o, a) == g(m, k, o, a)
    ensures Loop5(f, bit, n, rc, off, acc) == Loop5(g, bit, n, rc, off, acc)
  {
    assert rc + off + 5 <= KEY_REACH;
    if n > 0 {
      Loop5Below(f, g, bit, n - 1, rc + 1, if bit(n) then off else off + 4, f(n, rc, off, acc));
    }
  }

  lemma Loop5Reach(isa: Isa, key: seq<Vec>, bit: nat -> bool, p: Vec, q: Vec, n: nat, rc: nat, off: nat, acc: Vec)
    requires |key| >= KEY_REACH && n < 8 && rc + n < MUTABLE + 7 && off + 4 * n <= 28
    ensures Loop5(Rounds5For(isa, key, bit, p, q), bit, n, rc, off, acc)
         == Loop5(Rounds5For(isa, key[..KEY_REACH], bit, p, q), bit, n, rc, off, acc)
  {
    var f, g := Rounds5For(isa, key, bit, p, q), Rounds5For(isa, key[..KEY_REACH], bit, p, q);
    forall m: nat, k: nat, o: nat, a | k + o + 5 <= KEY_REACH ensures f(m, k, o, a) == g(m, k, o, a) {
      Round5Reach(isa, key, bit(m), Pick(bit(m), m, p, q), k, o, a);
    }
    Loop5Below(f, g, bit, n, rc, off, acc);
  }

  lemma {:induction false} Loop6Reach(isa: Isa, key: seq<Vec>, bit: nat -> bool, modulo: Vec -> Vec, p: Vec, q: Vec,
                                      n: nat, rc: nat, acc: Vec)
    requires |key| >= KEY_REACH && n < 8 && rc + n < MUTABLE + 7
    ensures Loop6(Rounds6For(isa, key, bit, modulo, p, q), n, rc, acc)
         == Loop6(Rounds6For(isa, key[..KEY_REACH], bit, modulo, p, q), n, rc, acc)
  {
    var f, g := Rounds6For(isa, key, bit, modulo, p, q), Rounds6For(isa, key[..KEY_REACH], bit, modulo, p, q);
    CutAt(key, rc);
    assert f(n, rc, acc) == g(n, rc, acc);
    if n > 0 {
      Loop6Reach(isa, key, bit, modulo, p, q, n - 1, rc + 1, f(n, rc, acc).acc);
    }
  }

  lemma {:induction false} Rounds256Reach(isa: Isa, key: seq<Vec>, at: nat, s: Haraka.Pair, n: nat)
    requires |key| >= KEY_REACH && at + 4 * n <= KEY_REACH
    ensures Haraka.Rounds256(isa.aesenc, key, at, s, n) == Haraka.Rounds256(isa.aesenc, key[..KEY_REACH], at, s, n)
  {
    if n > 0 {
      Rounds256Reach(isa, key, at, s, n - 1);
    }
  }

  lemma SwitchReach(isa: Isa, key: seq<Vec>, sel: bv64, t: nat, i: nat, acc: Vec, a: Vec, b: Vec, p: Vec, q: Vec)
    requires |key| >= KEY_REACH && t == Tag(sel) && i < MUTABLE
    ensures Switch(isa, key, sel, t, i, acc, a, b, p, q) == Switch(isa, key[..KEY_REACH], sel, t, i, acc, a, b, p, q)
  {
    if t == 4 {
      Rounds256Reach(isa, key, i, Haraka.Pair(q, p), 3);
    } else if t == 5 {
      Loop5Reach(isa, key, RoundBits(sel), p, q, LoopRounds(sel), i, 0, acc);
    } else if t == 6 {
      Loop6Reach(isa, key, RoundBits(sel), Remainders(sel), p, q, LoopRounds(sel), i, acc);
    }
  }

  /** A whole step reads only entries 0 to 550. */
  lemma EffectReach(isa: Isa, key: seq<Vec>, pbuf: seq<Vec>, acc: Vec)
    requires |key| >= KEY_REACH && |pbuf| == 4
    ensures Effect(isa, key, pbuf, acc) == Effect(isa, key[..KEY_REACH], pbuf, acc)
  {
    var sel := Low64(acc);
    var i, j := Prand(sel), Prandex(sel);
    CutAt(key, i);
    CutAt(key, j);
    SwitchReach(isa, key, sel, Tag(sel), i, acc, key[i], key[j], pbuf[BufferIndex(sel)], pbuf[NeighbourIndex(sel)]);
  }

  /** Cutting a lane's key off at the reach. */
  function Cut(s: Lane): Lane
    requires |s.key| >= KEY_REACH
  {
    s.(key := s.key[..KEY_REACH])
  }

  lemma ApplyReach(key: seq<Vec>, i: Slot, j: Slot, o: Outcome)
    requires |key| >= KEY_REACH
    ensures Apply(key, i, j, o)[..KEY_REACH] == Apply(key[..KEY_REACH], i, j, o)
  {
  }

  lemma {:induction false} RunBelow(rule: Rule, s: Lane, n: nat)
    requires |s.key| >= KEY_REACH
    requires forall key, acc :: |key| >= KEY_REACH ==> rule.effect(key, acc) == rule.effect(key[..KEY_REACH], acc)
    ensures Run(rule, Cut(s), n) == Cut(Run(rule, s, n))
  {
    if n > 0 {
      RunBelow(rule, s, n - 1);
      var t := Run(rule, s, n - 1);
      ApplyReach(t.key, rule.prand(t.acc), rule.prandex(t.acc), rule.effect(t.key, t.acc));
    }
  }

  /** Whole runs commute with cutting the key: entry 551 is never looked at. */
  lemma RunReach(isa: Isa, pbuf: seq<Vec>, s: Lane, n: nat)
    requires |s.key| >= KEY_REACH && |pbuf| == 4
    ensures Run(VerusRule(isa, pbuf), Cut(s), n) == Cut(Run(VerusRule(isa, pbuf), s, n))
  {
    var rule := VerusRule(isa, pbuf);
    forall key, acc | |key| >= KEY_REACH ensures rule.effect(key, acc) == rule.effect(key[..KEY_REACH], acc) {
      EffectReach(isa, key, pbuf, acc);
    }
    RunBelow(rule, s, n);
  }

  //
  // The final keyed hash
  //

  lemma SubRoundReach(aes: Haraka.AesRound, key: seq<Vec>, at: nat, s: Haraka.State)
    requires |key| >= KEY_REACH && at + 8 <= KEY_REACH
    ensures Haraka.SubRound(aes, key, at, s) == Haraka.SubRound(aes, key[..KEY_REACH], at, s)
  {
  }

  lemma {:induction false} RoundsReach(aes: Haraka.AesRound, key: seq<Vec>, at: nat, s: Haraka.State, n: nat)
    requires |key| >= KEY_REACH && at + 8 * n <= KEY_REACH
    ensures Haraka.Rounds(aes, key, at, s, n) == Haraka.Rounds(aes, key[..KEY_REACH], at, s, n)
  {
    if n > 0 {
      RoundsReach(aes, key, at, s, n - 1);
      SubRoundReach(aes, key, at + 8 * (n - 1), Haraka.Rounds(aes, key, at, s, n - 1));
    }
  }

  lemma FinalReach(isa: Isa, key: seq<Vec>, buf: seq<Byte>, inter: bv64)
    requires |key| >= KEY_REACH && |buf| == 64
    ensures Final(isa, key, buf, inter) == Final(isa, key[..KEY_REACH], buf, inter)
  {
    var input := buf[..47] + Fill(Bytes64(inter));
    RoundsReach(isa.aesenc, key, KeyOffset(inter), Haraka.LoadState(input), 5);
  }

  /** Lane setup, all 32 steps and the final hash of a candidate look at no entry past 550. */
  lemma BufferHashReach(isa: Isa, key: seq<Vec>, buf: seq<Byte>)
    requires |key| >= KEY_REACH && |buf| == 64
    ensures BufferHash(isa, key, buf) == BufferHash(isa, key[..KEY_REACH], buf)
  {
    RunReach(isa, Pbuf(isa, buf), Start(key), STEPS);
    assert Start(key[..KEY_REACH]) == Cut(Start(key));
    var lane := Finish(isa, key, buf);
    assert Finish(isa, key[..KEY_REACH], buf) == Cut(lane);
    FinalReach(isa, lane.key, buf, Result(isa, lane));
  }

  /** Entry 550 is reached: with an AES round that returns its key and an exclusive or that
      returns its first operand, the final hash at offset 511 shows one of its words. */
  lemma LastEntryReached(isa: Isa, key: seq<Vec>, buf: seq<Byte>, inter: bv64)
    requires |key| >= KEY_REACH && |buf| == 64 && KeyOffset(inter) == 511
    requires (forall a, b :: isa.aesenc(a, b) == b) && (forall a, b :: isa.xor32(a, b) == a)
    ensures Final(isa, key, buf, inter)[1] == key[550].w3
  {
    var s := Haraka.LoadState(buf[..47] + Fill(Bytes64(inter)));
    var r := Haraka.Rounds(isa.aesenc, key, 511, s, 4);
    var t := Haraka.SubRound(isa.aesenc, key, 543, r);
    assert t.s3 == key[550];
    assert Haraka.Rounds(isa.aesenc, key, 511, s, 5) == Haraka.Shuffle(t);
  }
}
