/** The CLHash kernel as it runs: in place on the key array, with aliasing between
    the two selected entries, for one lane and for two interleaved lanes. */
module ClhashLane {
  import opened Simd
  import opened Selector
  import opened Clhash
  import opened KeyRestore
  import Haraka

  //
  // The eight cases, loads and stores in program order
  //

  method Store0(isa: Isa, key: array<Vec>, i: nat, j: nat, acc0: Vec, p: Vec, q: Vec) returns (acc: Vec)
    requires i < key.Length && j < key.Length
    modifies key
    ensures var o := Case0(isa, acc0, old(key[i]), old(key[j]), p, q);
            acc == o.acc && key[..] == Apply(old(key[..]), i, j, o)
  {
    acc := acc0;
    var temp1 := key[j];
    var add1 := Xor(isa, temp1, q);
    acc := Xor(isa, isa.clmulHalves(add1), acc);
    var tempa1 := isa.mulhrs(acc, temp1);
    var tempa2 := Xor(isa, tempa1, temp1);
    var temp12 := key[i];
    key[i] := tempa2;
    var add12 := Xor(isa, temp12, p);
    acc := Xor(isa, isa.clmulHalves(add12), acc);
    var tempb1 := isa.mulhrs(acc, temp12);
    key[j] := Xor(isa, tempb1, temp12);
  }

  method Store1(isa: Isa, key: array<Vec>, i: nat, j: nat, acc0: Vec, p: Vec, q: Vec) returns (acc: Vec)
    requires i < key.Length && j < key.Length
    modifies key
    ensures var o := Case1(isa, acc0, old(key[i]), old(key[j]), p, q);
            acc == o.acc && key[..] == Apply(old(key[..]), i, j, o)
  {
    acc := acc0;
    var temp1 := key[i];
    var add1 := Xor(isa, temp1, p);
    acc := Xor(isa, isa.clmulHalves(add1), acc);
    acc := Xor(isa, isa.clmulHalves(p), acc);
    var tempa1 := isa.mulhrs(acc, temp1);
    var tempa2 := Xor(isa, tempa1, temp1);
    var temp12 := key[j];
    key[j] := tempa2;
    var add12 := Xor(isa, temp12, q);
    acc := Xor(isa, add12, acc);
    var tempb1 := isa.mulhrs(acc, temp12);
    key[i] := Xor(isa, tempb1, temp12);
  }

  method Store2(isa: Isa, key: array<Vec>, i: nat, j: nat, acc0: Vec, p: Vec, q: Vec) returns (acc: Vec)
    requires i < key.Length && j < key.Length
    modifies key
    ensures var o := Case2(isa, acc0, old(key[i]), old(key[j]), p, q);
            acc == o.acc && key[..] == Apply(old(key[..]), i, j, o)
  {
    acc := acc0;
    var temp1 := key[j];
    var add1 := Xor(isa, temp1, p);
    acc := Xor(isa, add1, acc);
    var tempa1 := isa.mulhrs(acc, temp1);
    var tempa2 := Xor(isa, tempa1, temp1);
    var temp12 := key[i];
    key[i] := tempa2;
    var add12 := Xor(isa, temp12, q);
    acc := Xor(isa, isa.clmulHalves(add12), acc);
    acc := Xor(isa, isa.clmulHalves(q), acc);
    var tempb1 := isa.mulhrs(acc, temp12);
    key[j] := Xor(isa, tempb1, temp12);
  }

  method Store3(isa: Isa, sel: bv64, key: array<Vec>, i: nat, j: nat, acc0: Vec, p: Vec, q: Vec) returns (acc: Vec)
    requires i < key.Length && j < key.Length && Tag(sel) == 3
    modifies key
    ensures var o := Case3(isa, sel, acc0, old(key[i]), old(key[j]), p, q);
            acc == o.acc && key[..] == Apply(old(key[..]), i, j, o)
  {
    acc := acc0;
    var temp1 := key[i];
    var add1 := Xor(isa, temp1, q);
    acc := Xor(isa, add1, acc);
    var dividend := Low64(acc);
    acc := Xor(isa, Modulo(sel, dividend), acc);
    var tempa1 := isa.mulhrs(acc, temp1);
    var tempa2 := Xor(isa, tempa1, temp1);
    if dividend & 1 == 1 {
      var temp12 := key[j];
      key[j] := tempa2;
      var add12 := Xor(isa, temp12, p);
      acc := Xor(isa, isa.clmulHalves(add12), acc);
      acc := Xor(isa, isa.clmulHalves(p), acc);
      var tempb1 := isa.mulhrs(acc, temp12);
      key[i] := Xor(isa, tempb1, temp12);
    } else {
      key[i] := key[j];
      key[j] := tempa2;
      acc := Xor(isa, p, acc);
    }
  }

  /** The ARM build loads prandex before the AES chain, the others after it. */
  method Store4(isa: Isa, arm: bool, key: array<Vec>, i: nat, j: nat, acc0: Vec, p: Vec, q: Vec) returns (acc: Vec)
    requires i < MUTABLE && j < MUTABLE && key.Length >= KEY_REACH
    modifies key
    ensures var o := Case4(isa, old(key[..]), i, acc0, old(key[i]), old(key[j]), p, q);
            acc == o.acc && key[..] == Apply(old(key[..]), i, j, o)
  {
    acc := acc0;
    var staged := key[j];
    ghost var k := key[..];
    ghost var s := Haraka.Pair(q, p);
    var temp1, temp2 := Haraka.AesMix2(isa.aesenc, key[..], i, q, p);
    assert Haraka.Pair(temp1, temp2) == Haraka.Rounds256(isa.aesenc, k, i, s, 1);
    temp1, temp2 := Haraka.AesMix2(isa.aesenc, key[..], i + 4, temp1, temp2);
    assert Haraka.Pair(temp1, temp2) == Haraka.Rounds256(isa.aesenc, k, i, s, 2);
    temp1, temp2 := Haraka.AesMix2(isa.aesenc, key[..], i + 8, temp1, temp2);
    assert Haraka.Pair(temp1, temp2) == Haraka.Rounds256(isa.aesenc, k, i, s, 3);
    acc := Xor(isa, temp2, Xor(isa, temp1, acc));
    var tempa1 := key[i];
    var tempa2 := isa.mulhrs(acc, tempa1);
    if arm {
      key[i] := staged;
    } else {
      key[i] := key[j];
    }
    key[j] := Xor(isa, tempa1, tempa2);
  }

  method Store5(isa: Isa, sel: bv64, key: array<Vec>, i: nat, j: nat, acc0: Vec, p: Vec, q: Vec) returns (acc: Vec)
    requires i < MUTABLE && j < MUTABLE && key.Length >= KEY_REACH
    modifies key
    ensures var o := Case5(isa, sel, old(key[..]), i, acc0, old(key[i]), old(key[j]), p, q);
            acc == o.acc && key[..] == Apply(old(key[..]), i, j, o)
  {
    acc := acc0;
    acc := MonkinsLoop(isa, RoundBits(sel), LoopRounds(sel), key, i, acc, p, q,
                       Rounds5For(isa, key[..], RoundBits(sel), p, q));
    var tempa1 := key[i];
    var tempa2 := isa.mulhrs(acc, tempa1);
    var tempa3 := Xor(isa, tempa1, tempa2);
    var tempa4 := key[j];
    key[j] := tempa3;
    key[i] := tempa4;
  }

  ghost predicate Runs5(isa: Isa, key: seq<Vec>, bit: nat -> bool, p: Vec, q: Vec, round: Rounds5) {
    forall n: nat, rc: nat, off: nat, a: Vec
      {:trigger Round5(isa, key, bit(n), Pick(bit(n), n, p, q), rc, off, a)} :: rc + off + 5 <= |key| ==>
      round(n, rc, off, a) == Round5(isa, key, bit(n), Pick(bit(n), n, p, q), rc, off, a)
  }

  /** The do-while of case 5; AES keys are counted from the already advanced `rc`. */
  method MonkinsLoop(isa: Isa, bit: nat -> bool, rounds0: nat, key: array<Vec>, i: nat, acc0: Vec, p: Vec, q: Vec,
                     ghost round: Rounds5)
    returns (acc: Vec)
    requires rounds0 < 8 && i < MUTABLE && key.Length >= KEY_REACH
    requires Runs5(isa, key[..], bit, p, q, round)
    ensures acc == Loop5(round, bit, rounds0, i, 0, acc0)
  {
    acc := acc0;
    var rounds: nat, rc: nat, aesroundoffset: nat := rounds0, i, 0;
    ghost var want := Loop5(round, bit, rounds, rc, aesroundoffset, acc);
    var again := true;
    while again
      invariant rounds < 8
      invariant again ==> rc + rounds < MUTABLE + 7 && aesroundoffset + 4 * rounds <= 28
      invariant again ==> Loop5(round, bit, rounds, rc, aesroundoffset, acc) == want
      invariant !again ==> acc == want
      decreases again, rounds
    {
      acc, aesroundoffset := MonkinsRound(isa, bit, rounds, key, rc, aesroundoffset, acc, p, q, round);
      rc := rc + 1;
      if rounds == 0 {
        again := false;
      } else {
        rounds := rounds - 1;
      }
    }
  }

  method MonkinsRound(isa: Isa, bit: nat -> bool, rounds: nat, key: array<Vec>, rc: nat, off0: nat, acc0: Vec,
                      p: Vec, q: Vec, ghost round: Rounds5)
    returns (acc: Vec, off: nat)
    requires rc + off0 + 5 <= key.Length && Runs5(isa, key[..], bit, p, q, round)
    ensures acc == round(rounds, rc, off0, acc0)
    ensures off == if bit(rounds) then off0 else off0 + 4
  {
    off := off0;
    if bit(rounds) {
      var temp2 := if rounds % 2 == 1 then p else q;
      var add1 := Xor(isa, key[rc], temp2);
      acc := Xor(isa, isa.clmulHalves(add1), acc0);
    } else {
      var temp2 := if rounds % 2 == 1 then q else p;
      var onekey;
      onekey, temp2 := Haraka.AesMix2(isa.aesenc, key[..], rc + 1 + off, key[rc], temp2);
      off := off + 4;
      acc := Xor(isa, onekey, acc0);
      acc := Xor(isa, temp2, acc);
    }
    assert acc == Round5(isa, key[..], bit(rounds), Pick(bit(rounds), rounds, p, q), rc, off0, acc0);
  }

  method Store6(isa: Isa, sel: bv64, key: array<Vec>, i: nat, j: nat, acc0: Vec, p: Vec, q: Vec) returns (acc: Vec)
    requires i < MUTABLE && j < MUTABLE && key.Length >= KEY_REACH && Tag(sel) == 6
    modifies key
    ensures var o := Case6(isa, sel, old(key[..]), i, acc0, old(key[j]), p, q);
            acc == o.acc && key[..] == Apply(old(key[..]), i, j, o)
  {
    var onekey;
    acc, onekey := DivideLoop(isa, RoundBits(sel), Remainders(sel), LoopRounds(sel), key, i, acc0, p, q,
                              Rounds6For(isa, key[..], RoundBits(sel), Remainders(sel), p, q));
    var tempa3 := key[j];
    key[j] := onekey;
    key[i] := Xor(isa, tempa3, acc);
  }

  ghost predicate Runs6(isa: Isa, key: seq<Vec>, bit: nat -> bool, modulo: Vec -> Vec, p: Vec, q: Vec, round: Rounds6) {
    forall n: nat, rc: nat, a: Vec
      {:trigger Round6(isa, modulo, bit(n), key[rc], Pick(bit(n), n, p, q), a)} :: rc < |key| ==>
      round(n, rc, a) == Round6(isa, modulo, bit(n), key[rc], Pick(bit(n), n, p, q), a)
  }

  /** The do-while of case 6. */
  method DivideLoop(isa: Isa, bit: nat -> bool, modulo: Vec -> Vec, rounds0: nat, key: array<Vec>, i: nat,
                    acc0: Vec, p: Vec, q: Vec, ghost round: Rounds6)
    returns (acc: Vec, onekey: Vec)
    requires rounds0 < 8 && i < MUTABLE && key.Length >= KEY_REACH
    requires Runs6(isa, key[..], bit, modulo, p, q, round)
    ensures Loop6Result(acc, onekey) == Loop6(round, rounds0, i, acc0)
  {
    acc, onekey := acc0, ZERO;
    var rounds: nat, rc: nat := rounds0, i;
    ghost var want := Loop6(round, rounds, rc, acc);
    var again := true;
    while again
      invariant rounds < 8
      invariant again ==> rc + rounds < MUTABLE + 7
      invariant again ==> Loop6(round, rounds, rc, acc) == want
      invariant !again ==> Loop6Result(acc, onekey) == want
      decreases again, rounds
    {
      acc, onekey := DivideRound(isa, bit, modulo, rounds, key, rc, acc, p, q, round);
      rc := rc + 1;
      if rounds == 0 {
        again := false;
      } else {
        rounds := rounds - 1;
      }
    }
  }

  method DivideRound(isa: Isa, bit: nat -> bool, modulo: Vec -> Vec, rounds: nat, key: array<Vec>, rc: nat,
                     acc0: Vec, p: Vec, q: Vec, ghost round: Rounds6)
    returns (acc: Vec, onekey: Vec)
    requires rc < key.Length && Runs6(isa, key[..], bit, modulo, p, q, round)
    ensures Loop6Result(acc, onekey) == round(rounds, rc, acc0)
  {
    if bit(rounds) {
      var temp2 := if rounds % 2 == 1 then p else q;
      onekey := Xor(isa, key[rc], temp2);
      acc := Xor(isa, modulo(onekey), acc0);
    } else {
      var temp2 := if rounds % 2 == 1 then q else p;
      var add1 := Xor(isa, key[rc], temp2);
      onekey := isa.clmulHalves(add1);
      acc := Xor(isa, isa.mulhrs(acc0, onekey), acc0);
    }
    assert Loop6Result(acc, onekey)
        == Round6(isa, modulo, bit(rounds), key[..][rc], Pick(bit(rounds), rounds, p, q), acc0);
  }

  method Store7(isa: Isa, key: array<Vec>, i: nat, j: nat, acc0: Vec, p: Vec, q: Vec) returns (acc: Vec)
    requires i < key.Length && j < key.Length
    modifies key
    ensures var o := Case7(isa, acc0, old(key[i]), old(key[j]), p, q);
            acc == o.acc && key[..] == Apply(old(key[..]), i, j, o)
  {
    acc := acc0;
    var temp2 := key[j];
    var add1 := Xor(isa, p, temp2);
    acc := Xor(isa, isa.clmulHalves(add1), acc);
    var tempa1 := isa.mulhrs(acc, temp2);
    var tempa2 := Xor(isa, tempa1, temp2);
    var tempa3 := key[i];
    key[i] := tempa2;
    acc := Xor(isa, tempa3, acc);
    acc := Xor(isa, q, acc);
    var tempb1 := isa.mulhrs(acc, tempa3);
    key[j] := Xor(isa, tempb1, tempa3);
  }

  //
  // One lane
  //

  ghost predicate Follows(rule: Rule, isa: Isa, pbuf: seq<Vec>)
    requires |pbuf| == 4
  {
    && (forall acc {:trigger Low64(acc)} ::
          rule.prand(acc) == Prand(Low64(acc)) && rule.prandex(acc) == Prandex(Low64(acc)))
    && (forall key, acc {:trigger Effect(isa, key, pbuf, acc)} :: |key| >= KEY_REACH ==>
          rule.effect(key, acc) == Effect(isa, key, pbuf, acc))
  }

  lemma VerusRuleFollows(isa: Isa, pbuf: seq<Vec>)
    requires |pbuf| == 4
    ensures Follows(VerusRule(isa, pbuf), isa, pbuf)
  {
  }

  /** `clhash_lane` with the key and log arrays it points to. On ARM `fixrand` is
      the packed log `touched` and the other three logs are null. */
  class KernelLane {
    const isa: Isa
    const arm: bool
    const key: array<Vec>
    const fixrand: array<bv32>
    const fixrandex: array?<bv32>
    const gPrand: array?<Vec>
    const gPrandex: array?<Vec>
    const pbuf: seq<Vec>
    var acc: Vec
    ghost var log: seq<Entry>

    /** What a step of this lane computes, kept by name so that proofs about whole
        runs need not look inside the eight cases. */
    ghost const rule: Rule

    /** The arrays a step writes. */
    ghost const arrays: set<object> :=
      if arm || fixrandex == null || gPrand == null || gPrandex == null then {key as object, fixrand}
      else {key as object, fixrand, fixrandex, gPrand, gPrandex}

    ghost predicate Shape() {
      && |pbuf| == 4 && Follows(rule, isa, pbuf)
      && key.Length == KEY_LENGTH && fixrand.Length == STEPS
      && key as object != fixrand
      && (!arm ==>
            && fixrandex != null && gPrand != null && gPrandex != null
            && fixrandex.Length == gPrand.Length == gPrandex.Length == STEPS
            && fixrand != fixrandex && key != gPrand && key != gPrandex && gPrand != gPrandex
            && key as object != fixrandex
            && fixrand as object != gPrand && fixrand as object != gPrandex
            && fixrandex as object != gPrand && fixrandex as object != gPrandex)
    }

    ghost predicate Valid()
      reads this, arrays
    {
      && Shape() && |log| <= STEPS
      && (if arm then PackedAs(log, fixrand[..])
          else SavedAs(log, fixrand[..], fixrandex[..], gPrand[..], gPrandex[..]))
    }

    ghost function Value(): Lane
      reads this, key
    {
      Lane(acc, key[..], log)
    }

    /** `init_lane`. */
    constructor (isa: Isa, arm: bool, key: array<Vec>, buf: seq<Byte>, fixrand: array<bv32>,
                 fixrandex: array?<bv32>, gPrand: array?<Vec>, gPrandex: array?<Vec>)
      requires |buf| == 64 && key.Length == KEY_LENGTH && fixrand.Length == STEPS && key as object != fixrand
      requires !arm ==>
                 && fixrandex != null && gPrand != null && gPrandex != null
                 && fixrandex.Length == gPrand.Length == gPrandex.Length == STEPS
                 && fixrand != fixrandex && key != gPrand && key != gPrandex && gPrand != gPrandex
                 && key as object != fixrandex
                 && fixrand as object != gPrand && fixrand as object != gPrandex
                 && fixrandex as object != gPrand && fixrandex as object != gPrandex
      ensures Valid() && Value() == Start(key[..])
      ensures this.isa == isa && pbuf == Pbuf(isa, buf) && rule == VerusRule(isa, pbuf)
      ensures this.arm == arm && this.key == key && this.fixrand == fixrand
      ensures this.fixrandex == fixrandex && this.gPrand == gPrand && this.gPrandex == gPrandex
    {
      this.isa, this.arm, this.key, this.fixrand := isa, arm, key, fixrand;
      this.fixrandex, this.gPrand, this.gPrandex := fixrandex, gPrand, gPrandex;
      var words := [
        Xor(isa, Load(buf, 0), Load(buf, 32)), Xor(isa, Load(buf, 16), Load(buf, 48)),
        Load(buf, 32), Load(buf, 48)];
      pbuf := words;
      rule := VerusRule(isa, words);
      acc := key[511 + 2];
      log := [];
      VerusRuleFollows(isa, words);
    }

    method Remember(i: nat, prandIdx: bv32, prandexIdx: bv32, ghost e: Entry)
      requires Valid() && i == |log| < STEPS
      requires prandIdx <= 511 && prandexIdx <= 511
      requires e.prand == Index(prandIdx) && e.prandex == Index(prandexIdx)
      requires e.oldPrand == key[e.prand] && e.oldPrandex == key[e.prandex]
      modifies this`log, arrays - {key}
      ensures Valid() && log == old(log) + [e]
    {
      if arm {
        PackRoundTrip(prandIdx, prandexIdx);
        fixrand[i] := prandIdx | (prandexIdx << 16);
      } else {
        gPrand[i] := key[Index(prandIdx)];
        gPrandex[i] := key[Index(prandexIdx)];
        fixrand[i] := prandIdx;
        fixrandex[i] := prandexIdx;
      }
      log := log + [e];
    }

    /** The part of `clhash_step` before the switch: remember what is about to change. */
    method WriteLog(i: nat)
      requires Valid() && i == |log| < STEPS
      modifies this`log, arrays - {key}
      ensures Valid()
      ensures var a, b := rule.prand(acc), rule.prandex(acc);
              log == old(log) + [Entry(a, b, key[a], key[b])]
    {
      var selector := Low64(acc);
      IndexInRange(selector);
      Remember(i, PrandBits(selector), PrandexBits(selector),
               Entry(Prand(selector), Prandex(selector), key[Prand(selector)], key[Prandex(selector)]));
    }

    /** The switch of `clhash_step`. */
    method Dispatch()
      requires Valid()
      modifies this`acc, key
      ensures var o := rule.effect(old(key[..]), old(acc));
              acc == o.acc && key[..] == Apply(old(key[..]), rule.prand(old(acc)), rule.prandex(old(acc)), o)
      ensures Valid()
    {
      var selector := Low64(acc);
      var i, j, t := Prand(selector), Prandex(selector), Tag(selector);
      var p, q := pbuf[BufferIndex(selector)], pbuf[NeighbourIndex(selector)];
      ghost var o := Effect(isa, key[..], pbuf, acc);
      assert rule.effect(key[..], acc) == o;
      if t == 0 {
        acc := Store0(isa, key, i, j, acc, p, q);
      } else if t == 1 {
        acc := Store1(isa, key, i, j, acc, p, q);
      } else if t == 2 {
        acc := Store2(isa, key, i, j, acc, p, q);
      } else if t == 3 {
        acc := Store3(isa, selector, key, i, j, acc, p, q);
      } else if t == 4 {
        acc := Store4(isa, arm, key, i, j, acc, p, q);
      } else if t == 5 {
        acc := Store5(isa, selector, key, i, j, acc, p, q);
      } else if t == 6 {
        acc := Store6(isa, selector, key, i, j, acc, p, q);
      } else {
        acc := Store7(isa, key, i, j, acc, p, q);
      }
    }

    /** `clhash_step`. */
    method Advance(i: nat)
      requires Valid() && i == |log| < STEPS
      modifies this`acc, this`log, arrays
      ensures Valid() && Value() == Step(rule, old(Value()))
    {
      WriteLog(i);
      Dispatch();
    }
  }

  //
  // The drivers
  //

  /** The loop of `__verusclmulwithoutreduction64alignedrepeatv2_2` on a fresh lane. */
  method RunLane(lane: KernelLane)
    requires lane.Valid() && lane.log == []
    modifies lane`acc, lane`log, lane.arrays
    ensures lane.Valid() && lane.Value() == Run(lane.rule, old(lane.Value()), STEPS)
  {
    for i := 0 to STEPS
      invariant lane.Valid() && |lane.log| == i
      invariant lane.Value() == Run(lane.rule, old(lane.Value()), i)
    {
      lane.Advance(i);
    }
  }

  /** Two lanes that share nothing. */
  ghost predicate Apart(lane0: KernelLane, lane1: KernelLane) {
    && lane0 != lane1 && lane0.arrays !! lane1.arrays
    && lane0 !in lane1.arrays && lane1 !in lane0.arrays
  }

  method AdvanceBoth(lane0: KernelLane, lane1: KernelLane, i: nat)
    requires lane0.Valid() && lane1.Valid() && Apart(lane0, lane1)
    requires |lane0.log| == |lane1.log| == i < STEPS
    modifies lane0`acc, lane0`log, lane0.arrays, lane1`acc, lane1`log, lane1.arrays
    ensures lane0.Valid() && lane0.Value() == Step(lane0.rule, old(lane0.Value()))
    ensures lane1.Valid() && lane1.Value() == Step(lane1.rule, old(lane1.Value()))
  {
    lane0.Advance(i);
    assert lane1.Valid() && lane1.Value() == old(lane1.Value());
    label L:
    lane1.Advance(i);
    assert lane0.Valid() && lane0.Value() == old@L(lane0.Value());
  }

  /** The interleaved loop of `verusclhashv2_2_dual`: each lane ends as if run alone. */
  method RunDual(lane0: KernelLane, lane1: KernelLane)
    requires lane0.Valid() && lane0.log == []
    requires lane1.Valid() && lane1.log == []
    requires Apart(lane0, lane1)
    modifies lane0`acc, lane0`log, lane0.arrays, lane1`acc, lane1`log, lane1.arrays
    ensures lane0.Valid() && lane0.Value() == Run(lane0.rule, old(lane0.Value()), STEPS)
    ensures lane1.Valid() && lane1.Value() == Run(lane1.rule, old(lane1.Value()), STEPS)
  {
    ghost var start0, start1 := lane0.Value(), lane1.Value();
    for i := 0 to STEPS
      invariant At(lane0, start0, i) && At(lane1, start1, i)
    {
      StepBoth(lane0, lane1, i, start0, start1);
    }
  }

  /** The lane has taken i steps from `start`. */
  ghost predicate At(lane: KernelLane, start: Lane, i: nat)
    reads lane, lane.arrays, lane.key
  {
    lane.Valid() && |lane.log| == i && |start.key| >= MUTABLE && lane.Value() == Run(lane.rule, start, i)
  }

  method StepBoth(lane0: KernelLane, lane1: KernelLane, i: nat, ghost start0: Lane, ghost start1: Lane)
    requires At(lane0, start0, i) && At(lane1, start1, i) && Apart(lane0, lane1) && i < STEPS
    modifies lane0`acc, lane0`log, lane0.arrays, lane1`acc, lane1`log, lane1.arrays
    ensures At(lane0, start0, i + 1) && At(lane1, start1, i + 1)
  {
    AdvanceBoth(lane0, lane1, i);
    OneStep(lane0.rule, start0, i);
    OneStep(lane1.rule, start1, i);
  }

  lemma OneStep(rule: Rule, s: Lane, i: nat)
    requires |s.key| >= MUTABLE
    ensures Run(rule, s, i + 1) == Step(rule, Run(rule, s, i))
    ensures |Run(rule, s, i + 1).log| == |Run(rule, s, i).log| + 1
  {
  }
}
