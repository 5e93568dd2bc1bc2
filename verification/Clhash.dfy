/** The mutating CLHash of VerusHash 2.2 (verus/verus_clhash.cpp): 32 data-dependent
    steps over a 552-entry key, each reading the key anywhere and rewriting two entries.

    This module holds the value-level meaning of a step. ClhashLane.dfy runs the
    same steps in place on arrays and proves that they compute this. */
module Clhash {
  import opened Simd
  import opened Selector
  import Haraka

  const KEY_LENGTH := 552

  /** One more than the largest index any step, or the final keyed hash, may read. */
  const KEY_REACH := 551

  const STEPS := 32

  //
  // The signed remainder of cases 3 and 6
  //

  function Signed32(x: bv32): int {
    var n := x as int;
    if n < 0x8000_0000 then n else n - 0x1_0000_0000
  }

  function Signed64(x: bv64): int {
    var n := x as int;
    if n < 0x8000_0000_0000_0000 then n else n - 0x1_0000_0000_0000_0000
  }

  /** The C remainder: it takes the sign of the dividend. */
  function TruncRem(a: int, b: int): int
    requires b != 0
  {
    if a >= 0 then a % b else -((-a) % b)
  }

  function Divisor(sel: bv64): int {
    Signed32((sel & 0xffff_ffff) as bv32)
  }

  /** A 32-bit integer moved into the low word of a register. */
  function FromInt32(x: int): Vec {
    Vec(WordOf(x % 0x1_0000_0000), 0, 0, 0)
  }

  /** r is the remainder of a division whose quotient is a 64-bit integer. */
  ghost predicate Divides64(a: int, b: int, r: int) {
    exists q :: a == q * b + r && -0x8000_0000_0000_0000 <= q < 0x8000_0000_0000_0000
  }

  /** The tag bits keep the divisor away from 0 and from -1, so the quotient cannot
      overflow even for the smallest dividend, and the remainder fits in 32 bits. */
  lemma RemainderIsSafe(sel: bv64, dividend: bv64)
    requires Tag(sel) == 3 || Tag(sel) == 6
    ensures Divisor(sel) != 0 && Divisor(sel) != -1
    ensures var r := TruncRem(Signed64(dividend), Divisor(sel));
            -0x8000_0000 <= r < 0x8000_0000 && Divides64(Signed64(dividend), Divisor(sel), r)
  {
    DivisorSafe(sel);
    Signed32Range((sel & 0xffff_ffff) as bv32);
    Signed64Range(dividend);
    TruncatedDivision(Signed64(dividend), Divisor(sel));
  }

  lemma DivisorSafe(sel: bv64)
    requires Tag(sel) == 3 || Tag(sel) == 6
    ensures Divisor(sel) != 0 && Divisor(sel) != -1
  {
  }

  lemma Signed32Range(x: bv32)
    ensures -0x8000_0000 <= Signed32(x) < 0x8000_0000
  {
  }

  lemma Signed64Range(x: bv64)
    ensures -0x8000_0000_0000_0000 <= Signed64(x) < 0x8000_0000_0000_0000
  {
  }

  lemma TruncatedDivision(a: int, b: int)
    requires b != 0 && b != -1
    requires -0x8000_0000_0000_0000 <= a < 0x8000_0000_0000_0000
    ensures var r := TruncRem(a, b);
            (if b < 0 then b < r < -b else -b < r < b) && Divides64(a, b, r)
  {
    var r := TruncRem(a, b);
    if a >= 0 {
      QuotientBound(a, b);
      assert a == (a / b) * b + r;
    } else {
      QuotientBound(-a, b);
      assert a == (-((-a) / b)) * b + r;
    }
  }

  lemma QuotientBound(n: int, b: int)
    requires n >= 0 && b != 0 && b != -1
    ensures -n <= n / b <= n
    ensures n > 0 ==> -n < n / b
  {
    var q, m := n / b, n % b;
    assert n == q * b + m;
    if b > 0 {
      Scale(q, b, m);
    } else {
      Scale(-q, -b, m);
    }
  }

  lemma Scale(q: int, b: int, m: int)
    requires b > 0 && 0 <= m < b && q * b + m >= 0
    ensures q >= 0 && q <= q * b
    ensures b >= 2 ==> 2 * q <= q * b
  {
    if q < 0 {
      assert q * b == -b + (q + 1) * b;
      NotPositive(q + 1, b);
    } else {
      assert q * b == q + q * (b - 1);
      if b >= 2 {
        assert q * b == 2 * q + q * (b - 2);
      }
    }
  }

  lemma NotPositive(x: int, b: int)
    requires x <= 0 && b > 0
    ensures x * b <= 0
  {
  }

  function Modulo(sel: bv64, dividend: bv64): Vec
    requires Tag(sel) == 3 || Tag(sel) == 6
  {
    DivisorSafe(sel);
    FromInt32(TruncRem(Signed64(dividend), Divisor(sel)))
  }

  /** The remainder of the low half of a register, as case 6 takes it. */
  function Remainders(sel: bv64): Vec -> Vec
    requires Tag(sel) == 3 || Tag(sel) == 6
  {
    (v: Vec) => Modulo(sel, Low64(v))
  }

  //
  // One step
  //

  /** What a step does: the new accumulator, the values stored to the two selected
      entries, and which store comes last (it wins when both select one entry). */
  datatype Outcome = Outcome(acc: Vec, prand: Vec, prandex: Vec, prandLast: bool)

  function Apply(key: seq<Vec>, i: nat, j: nat, o: Outcome): (r: seq<Vec>)
    requires i < |key| && j < |key|
    ensures |r| == |key|
  {
    if o.prandLast then key[j := o.prandex][i := o.prand] else key[i := o.prand][j := o.prandex]
  }

  /** `x ^ mulhrs(acc, x)`: the value every case writes back for an entry x. */
  function Stir(isa: Isa, acc: Vec, x: Vec): Vec {
    Xor(isa, isa.mulhrs(acc, x), x)
  }

  // In the cases below a and b are the entries selected by prand and prandex,
  // p the selected buffer word and q its neighbour.

  function Case0(isa: Isa, acc: Vec, a: Vec, b: Vec, p: Vec, q: Vec): Outcome {
    var acc1 := Xor(isa, isa.clmulHalves(Xor(isa, b, q)), acc);
    var acc2 := Xor(isa, isa.clmulHalves(Xor(isa, a, p)), acc1);
    Outcome(acc2, Stir(isa, acc1, b), Stir(isa, acc2, a), false)
  }

  function Case1(isa: Isa, acc: Vec, a: Vec, b: Vec, p: Vec, q: Vec): Outcome {
    var acc1 := Xor(isa, isa.clmulHalves(p), Xor(isa, isa.clmulHalves(Xor(isa, a, p)), acc));
    var acc2 := Xor(isa, Xor(isa, b, q), acc1);
    Outcome(acc2, Stir(isa, acc2, b), Stir(isa, acc1, a), true)
  }

  function Case2(isa: Isa, acc: Vec, a: Vec, b: Vec, p: Vec, q: Vec): Outcome {
    var acc1 := Xor(isa, Xor(isa, b, p), acc);
    var acc2 := Xor(isa, isa.clmulHalves(q), Xor(isa, isa.clmulHalves(Xor(isa, a, q)), acc1));
    Outcome(acc2, Stir(isa, acc1, b), Stir(isa, acc2, a), false)
  }

  function Case3(isa: Isa, sel: bv64, acc: Vec, a: Vec, b: Vec, p: Vec, q: Vec): Outcome
    requires Tag(sel) == 3
  {
    var mixed := Xor(isa, Xor(isa, a, q), acc);
    var dividend := Low64(mixed);
    var acc1 := Xor(isa, Modulo(sel, dividend), mixed);
    if dividend & 1 == 1 then
      var acc2 := Xor(isa, isa.clmulHalves(p), Xor(isa, isa.clmulHalves(Xor(isa, b, p)), acc1));
      Outcome(acc2, Stir(isa, acc2, b), Stir(isa, acc1, a), true)
    else
      Outcome(Xor(isa, p, acc1), b, Stir(isa, acc1, a), false)
  }

  function Case4(isa: Isa, key: seq<Vec>, i: nat, acc: Vec, a: Vec, b: Vec, p: Vec, q: Vec): Outcome
    requires i < MUTABLE && |key| >= KEY_REACH
  {
    var r := Haraka.Rounds256(isa.aesenc, key, i, Haraka.Pair(q, p), 3);
    var acc1 := Xor(isa, r.s1, Xor(isa, r.s0, acc));
    Outcome(acc1, b, Xor(isa, a, isa.mulhrs(acc1, a)), false)
  }

  /** One round of the case 5 loop. `rc` is the running key position; AES keys are
      taken at offset `off` counted from the position after it. */
  function Round5(isa: Isa, key: seq<Vec>, product: bool, x: Vec, rc: nat, off: nat, acc: Vec): Vec
    requires rc + off + 5 <= |key|
  {
    if product then Xor(isa, isa.clmulHalves(Xor(isa, key[rc], x)), acc)
    else
      var r := Haraka.Round256(isa.aesenc, key, rc + 1 + off, Haraka.Pair(key[rc], x));
      Xor(isa, r.s1, Xor(isa, r.s0, acc))
  }

  /** The buffer word a loop round uses: branch and parity pick it together. */
  function Pick(branch: bool, rounds: nat, p: Vec, q: Vec): Vec {
    if (rounds % 2 == 1) == branch then p else q
  }

  type Rounds5 = (nat, nat, nat, Vec) -> Vec

  /** All rounds of the case 5 loop as one function of (round, rc, off, acc). */
  function Rounds5For(isa: Isa, key: seq<Vec>, bit: nat -> bool, p: Vec, q: Vec): Rounds5 {
    (n: nat, rc: nat, off: nat, acc: Vec) =>
      if rc + off + 5 <= |key| then Round5(isa, key, bit(n), Pick(bit(n), n, p, q), rc, off, acc) else ZERO
  }

  /** The variable-round loop of case 5, from round n down to 0. Started at position
      rc + n < 519 with offset 0 it never looks past entry 550. */
  function Loop5(round: Rounds5, bit: nat -> bool, n: nat, rc: nat, off: nat, acc: Vec): Vec {
    var acc1 := round(n, rc, off, acc);
    if n == 0 then acc1 else Loop5(round, bit, n - 1, rc + 1, if bit(n) then off else off + 4, acc1)
  }

  function Case5(isa: Isa, sel: bv64, key: seq<Vec>, i: nat, acc: Vec, a: Vec, b: Vec, p: Vec, q: Vec): Outcome
    requires i < MUTABLE && |key| >= KEY_REACH
  {
    var bit := RoundBits(sel);
    var acc1 := Loop5(Rounds5For(isa, key, bit, p, q), bit, LoopRounds(sel), i, 0, acc);
    Outcome(acc1, b, Xor(isa, a, isa.mulhrs(acc1, a)), true)
  }

  datatype Loop6Result = Loop6Result(acc: Vec, onekey: Vec)

  /** One round of the case 6 loop. */
  function Round6(isa: Isa, modulo: Vec -> Vec, divide: bool, k: Vec, x: Vec, acc: Vec): Loop6Result {
    if divide then
      var onekey := Xor(isa, k, x);
      Loop6Result(Xor(isa, modulo(onekey), acc), onekey)
    else
      var onekey := isa.clmulHalves(Xor(isa, k, x));
      Loop6Result(Xor(isa, isa.mulhrs(acc, onekey), acc), onekey)
  }

  type Rounds6 = (nat, nat, Vec) -> Loop6Result

  function Rounds6For(isa: Isa, key: seq<Vec>, bit: nat -> bool, modulo: Vec -> Vec, p: Vec, q: Vec): Rounds6 {
    (n: nat, rc: nat, acc: Vec) =>
      if rc < |key| then Round6(isa, modulo, bit(n), key[rc], Pick(bit(n), n, p, q), acc) else Loop6Result(ZERO, ZERO)
  }

  function Loop6(round: Rounds6, n: nat, rc: nat, acc: Vec): Loop6Result {
    var next := round(n, rc, acc);
    if n == 0 then next else Loop6(round, n - 1, rc + 1, next.acc)
  }

  function Case6(isa: Isa, sel: bv64, key: seq<Vec>, i: nat, acc: Vec, b: Vec, p: Vec, q: Vec): Outcome
    requires i < MUTABLE && |key| >= KEY_REACH && Tag(sel) == 6
  {
    var r := Loop6(Rounds6For(isa, key, RoundBits(sel), Remainders(sel), p, q), LoopRounds(sel), i, acc);
    Outcome(r.acc, Xor(isa, b, r.acc), r.onekey, true)
  }

  function Case7(isa: Isa, acc: Vec, a: Vec, b: Vec, p: Vec, q: Vec): Outcome {
    var acc1 := Xor(isa, isa.clmulHalves(Xor(isa, p, b)), acc);
    var acc2 := Xor(isa, q, Xor(isa, a, acc1));
    Outcome(acc2, Stir(isa, acc1, b), Stir(isa, acc2, a), false)
  }

  /** The switch: t is the tag of the selector, i the position selected by prand. */
  function Switch(isa: Isa, key: seq<Vec>, sel: bv64, t: nat, i: nat, acc: Vec, a: Vec, b: Vec, p: Vec, q: Vec): Outcome
    requires |key| >= KEY_REACH && t == Tag(sel) && i < MUTABLE
  {
    if t == 0 then Case0(isa, acc, a, b, p, q)
    else if t == 1 then Case1(isa, acc, a, b, p, q)
    else if t == 2 then Case2(isa, acc, a, b, p, q)
    else if t == 3 then Case3(isa, sel, acc, a, b, p, q)
    else if t == 4 then Case4(isa, key, i, acc, a, b, p, q)
    else if t == 5 then Case5(isa, sel, key, i, acc, a, b, p, q)
    else if t == 6 then Case6(isa, sel, key, i, acc, b, p, q)
    else Case7(isa, acc, a, b, p, q)
  }

  function Effect(isa: Isa, key: seq<Vec>, pbuf: seq<Vec>, acc: Vec): Outcome
    requires |key| >= KEY_REACH && |pbuf| == 4
  {
    var sel := Low64(acc);
    var i := Prand(sel);
    Switch(isa, key, sel, Tag(sel), i, acc, key[i], key[Prandex(sel)],
           pbuf[BufferIndex(sel)], pbuf[NeighbourIndex(sel)])
  }

  //
  // Whole runs
  //

  /** What one step remembers: the two indices and the entries it found there. */
  datatype Entry = Entry(prand: Slot, prandex: Slot, oldPrand: Vec, oldPrandex: Vec)

  datatype Lane = Lane(acc: Vec, key: seq<Vec>, log: seq<Entry>)

  /** How a step picks its two entries from the accumulator, and what it computes.
      The theorems about logs and lanes hold for every rule. */
  datatype Rule = Rule(
    prand: Vec -> Slot,
    prandex: Vec -> Slot,
    effect: (seq<Vec>, Vec) -> Outcome)

  /** The rule of VerusHash 2.2 for a given buffer. */
  function VerusRule(isa: Isa, pbuf: seq<Vec>): Rule
    requires |pbuf| == 4
  {
    Rule(
      (acc: Vec) => Prand(Low64(acc)),
      (acc: Vec) => Prandex(Low64(acc)),
      (key: seq<Vec>, acc: Vec) =>
        if |key| >= KEY_REACH then Effect(isa, key, pbuf, acc) else Outcome(ZERO, ZERO, ZERO, false))
  }

  function Step(rule: Rule, s: Lane): (r: Lane)
    requires |s.key| >= MUTABLE
    ensures |r.key| == |s.key|
  {
    var i, j := rule.prand(s.acc), rule.prandex(s.acc);
    var o := rule.effect(s.key, s.acc);
    Lane(o.acc, Apply(s.key, i, j, o), s.log + [Entry(i, j, s.key[i], s.key[j])])
  }

  function Run(rule: Rule, s: Lane, n: nat): (r: Lane)
    requires |s.key| >= MUTABLE
    ensures |r.key| == |s.key|
  {
    if n == 0 then s else Step(rule, Run(rule, s, n - 1))
  }

  /** The four buffer words a lane works on. */
  function Pbuf(isa: Isa, buf: seq<Byte>): (r: seq<Vec>)
    requires |buf| == 64
    ensures |r| == 4
  {
    [Xor(isa, Load(buf, 0), Load(buf, 32)), Xor(isa, Load(buf, 16), Load(buf, 48)), Load(buf, 32), Load(buf, 48)]
  }

  function Start(key: seq<Vec>): Lane
    requires |key| >= KEY_REACH
  {
    Lane(key[513], key, [])
  }

  /** The lane after all 32 steps. */
  function Finish(isa: Isa, key: seq<Vec>, buf: seq<Byte>): (r: Lane)
    requires |key| >= KEY_REACH && |buf| == 64
    ensures |r.key| == |key|
  {
    Run(VerusRule(isa, Pbuf(isa, buf)), Start(key), STEPS)
  }

  /** `lazyLengthHash` for this kernel is the constant 0x10000. */
  const LENGTH_HASH := Vec(0x10000, 0, 0, 0)

  /** The 64-bit hash of a finished lane. */
  function Result(isa: Isa, r: Lane): bv64 {
    isa.reduce64(Xor(isa, r.acc, LENGTH_HASH))
  }
}
