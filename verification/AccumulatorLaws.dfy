/** The accumulator of a run is only ever added to: with an exclusive or that returns its
    second operand it stays what it was at the start. */
module AccumulatorLaws {
  import opened Simd
  import opened Selector
  import opened Clhash
  import opened LoopLaws

  predicate KeepsSecond(isa: Isa, a: bv32, b: bv32) {
    isa.xor32(a, b) == b
  }

  /** The exclusive or returns its second operand. */
  ghost predicate SecondOnly(isa: Isa) {
    forall a, b :: KeepsSecond(isa, a, b)
  }

  lemma Second(isa: Isa, a: Vec, b: Vec)
    requires SecondOnly(isa)
    ensures Xor(isa, a, b) == b
  {
    assert KeepsSecond(isa, a.w0, b.w0) && KeepsSecond(isa, a.w1, b.w1);
    assert KeepsSecond(isa, a.w2, b.w2) && KeepsSecond(isa, a.w3, b.w3);
  }

  lemma Case3Keeps(isa: Isa, sel: bv64, acc: Vec, a: Vec, b: Vec, p: Vec, q: Vec)
    requires SecondOnly(isa) && Tag(sel) == 3
    ensures Case3(isa, sel, acc, a, b, p, q).acc == acc
  {
    forall x, y ensures Xor(isa, x, y) == y {
      Second(isa, x, y);
    }
  }

  lemma {:induction false} GatheredKeeps(isa: Isa, term: nat -> Vec, n: nat, acc: Vec)
    requires SecondOnly(isa)
    ensures Gathered(isa, term, n, acc) == acc
  {
    Second(isa, term(n), acc);
    if n > 0 {
      GatheredKeeps(isa, term, n - 1, acc);
    }
  }

  lemma Case5Keeps(isa: Isa, sel: bv64, key: seq<Vec>, i: nat, acc: Vec, a: Vec, b: Vec, p: Vec, q: Vec)
    requires SecondOnly(isa) && i < MUTABLE && |key| >= KEY_REACH
    ensures Case5(isa, sel, key, i, acc, a, b, p, q).acc == acc
  {
    Loop5Keeps(isa, key, RoundBits(sel), i, LoopRounds(sel), acc, p, q);
  }

  lemma Round5Keeps(isa: Isa, key: seq<Vec>, product: bool, x: Vec, rc: nat, off: nat, acc: Vec)
    requires SecondOnly(isa) && rc + off + 5 <= |key|
    ensures Round5(isa, key, product, x, rc, off, acc) == acc
  {
    forall x, y ensures Xor(isa, x, y) == y {
      Second(isa, x, y);
    }
  }

  lemma Adds5Nothing(isa: Isa, key: seq<Vec>, bit: nat -> bool, i: nat, n: nat, m: nat, acc: Vec, p: Vec, q: Vec,
                     term: nat -> Vec)
    requires SecondOnly(isa) && i < MUTABLE && n < 8 && m <= n && |key| >= KEY_REACH
    ensures Adds5(isa, Rounds5For(isa, key, bit, p, q), bit, term, i, n, m, acc)
  {
    Round5Keeps(isa, key, bit(m), Pick(bit(m), m, p, q), i + n - m, 4 * AesRounds(bit, n, m), acc);
    Second(isa, term(m), acc);
  }

  lemma Loop5Keeps(isa: Isa, key: seq<Vec>, bit: nat -> bool, i: nat, n: nat, acc: Vec, p: Vec, q: Vec)
    requires SecondOnly(isa) && i < MUTABLE && n < 8 && |key| >= KEY_REACH
    ensures Loop5(Rounds5For(isa, key, bit, p, q), bit, n, i, 0, acc) == acc
  {
    var term := (m: nat) => ZERO;
    forall m: nat, acc | m <= n ensures Adds5(isa, Rounds5For(isa, key, bit, p, q), bit, term, i, n, m, acc) {
      Adds5Nothing(isa, key, bit, i, n, m, acc, p, q, term);
    }
    Loop5Sum(isa, Rounds5For(isa, key, bit, p, q), bit, term, i, n, n, acc);
    GatheredKeeps(isa, term, n, acc);
  }

  lemma Case6Keeps(isa: Isa, sel: bv64, key: seq<Vec>, i: nat, acc: Vec, b: Vec, p: Vec, q: Vec)
    requires SecondOnly(isa) && i < MUTABLE && |key| >= KEY_REACH && Tag(sel) == 6
    ensures Case6(isa, sel, key, i, acc, b, p, q).acc == acc
  {
    Loop6Keeps(isa, Remainders(sel), key, RoundBits(sel), i, LoopRounds(sel), acc, p, q);
  }

  lemma Round6Keeps(isa: Isa, modulo: Vec -> Vec, divide: bool, k: Vec, x: Vec, acc: Vec)
    requires SecondOnly(isa)
    ensures Round6(isa, modulo, divide, k, x, acc).acc == acc
  {
    forall x, y ensures Xor(isa, x, y) == y {
      Second(isa, x, y);
    }
  }

  lemma Adds6Nothing(isa: Isa, modulo: Vec -> Vec, key: seq<Vec>, bit: nat -> bool, i: nat, n: nat, m: nat, acc: Vec,
                     p: Vec, q: Vec, term: nat -> Vec)
    requires SecondOnly(isa) && m <= n && i + n < |key|
    ensures Adds6(isa, Rounds6For(isa, key, bit, modulo, p, q), term, i, n, m, acc)
  {
    Round6Keeps(isa, modulo, bit(m), key[i + n - m], Pick(bit(m), m, p, q), acc);
    Second(isa, term(m), acc);
  }

  lemma Loop6Keeps(isa: Isa, modulo: Vec -> Vec, key: seq<Vec>, bit: nat -> bool, i: nat, n: nat, acc: Vec,
                   p: Vec, q: Vec)
    requires SecondOnly(isa) && i + n < |key|
    ensures Loop6(Rounds6For(isa, key, bit, modulo, p, q), n, i, acc).acc == acc
  {
    var term := (m: nat) => ZERO;
    forall m: nat, acc | m <= n ensures Adds6(isa, Rounds6For(isa, key, bit, modulo, p, q), term, i, n, m, acc) {
      Adds6Nothing(isa, modulo, key, bit, i, n, m, acc, p, q, term);
    }
    Loop6Sum(isa, Rounds6For(isa, key, bit, modulo, p, q), term, i, n, n, acc);
    GatheredKeeps(isa, term, n, acc);
  }

  lemma ProductsKeep(isa: Isa, acc: Vec, a: Vec, b: Vec, p: Vec, q: Vec)
    requires SecondOnly(isa)
    ensures Case0(isa, acc, a, b, p, q).acc == acc && Case1(isa, acc, a, b, p, q).acc == acc
    ensures Case2(isa, acc, a, b, p, q).acc == acc && Case7(isa, acc, a, b, p, q).acc == acc
  {
    forall x, y ensures Xor(isa, x, y) == y {
      Second(isa, x, y);
    }
  }

  lemma Case4Keeps(isa: Isa, key: seq<Vec>, i: nat, acc: Vec, a: Vec, b: Vec, p: Vec, q: Vec)
    requires SecondOnly(isa) && i < MUTABLE && |key| >= KEY_REACH
    ensures Case4(isa, key, i, acc, a, b, p, q).acc == acc
  {
    forall x, y ensures Xor(isa, x, y) == y {
      Second(isa, x, y);
    }
  }

  /** In every case the accumulator is the last summand. */
  lemma SwitchKeeps(isa: Isa, key: seq<Vec>, sel: bv64, t: nat, i: nat, acc: Vec, a: Vec, b: Vec, p: Vec, q: Vec)
    requires SecondOnly(isa) && |key| >= KEY_REACH && t == Tag(sel) && i < MUTABLE
    ensures Switch(isa, key, sel, t, i, acc, a, b, p, q).acc == acc
  {
    if t == 3 {
      Case3Keeps(isa, sel, acc, a, b, p, q);
    } else if t == 4 {
      Case4Keeps(isa, key, i, acc, a, b, p, q);
    } else if t == 5 {
      Case5Keeps(isa, sel, key, i, acc, a, b, p, q);
    } else if t == 6 {
      Case6Keeps(isa, sel, key, i, acc, b, p, q);
    } else {
      ProductsKeep(isa, acc, a, b, p, q);
    }
  }

  predicate Keeps(rule: Rule, key: seq<Vec>, acc: Vec) {
    rule.effect(key, acc).acc == acc
  }

  lemma RuleKeeps(isa: Isa, pbuf: seq<Vec>, key: seq<Vec>, acc: Vec)
    requires SecondOnly(isa) && |pbuf| == 4 && |key| >= KEY_REACH
    ensures Keeps(VerusRule(isa, pbuf), key, acc)
  {
    var sel := Low64(acc);
    var i, j := Prand(sel), Prandex(sel);
    SwitchKeeps(isa, key, sel, Tag(sel), i, acc, key[i], key[j], pbuf[BufferIndex(sel)], pbuf[NeighbourIndex(sel)]);
  }

  lemma {:induction false} RunKeeps(rule: Rule, s: Lane, n: nat)
    requires |s.key| >= KEY_REACH && forall key, acc :: |key| >= KEY_REACH ==> Keeps(rule, key, acc)
    ensures var r := Run(rule, s, n); r.acc == s.acc && |r.log| == |s.log| + n
  {
    if n > 0 {
      RunKeeps(rule, s, n - 1);
      var r := Run(rule, s, n - 1);
      assert Keeps(rule, r.key, r.acc);
    }
  }

  /** A run of 32 steps starts from entry 513, and all it does is add to it; the length
      hash is added at the end. */
  lemma FinishKeeps(isa: Isa, key: seq<Vec>, buf: seq<Byte>)
    requires SecondOnly(isa) && |key| >= KEY_REACH && |buf| == 64
    ensures var r := Finish(isa, key, buf);
      r.acc == key[513] && |r.log| == 32 && Result(isa, r) == isa.reduce64(Vec(0x10000, 0, 0, 0))
  {
    var pbuf := Pbuf(isa, buf);
    forall key, acc | |key| >= KEY_REACH ensures Keeps(VerusRule(isa, pbuf), key, acc) {
      RuleKeeps(isa, pbuf, key, acc);
    }
    RunKeeps(VerusRule(isa, pbuf), Start(key), STEPS);
    Second(isa, Finish(isa, key, buf).acc, LENGTH_HASH);
  }
}
