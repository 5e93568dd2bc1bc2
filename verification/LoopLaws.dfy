/** Laws of the cases that run AES rounds and loops over the key: which entries they read,
    and which of the two buffer words each round takes. */
module LoopLaws {
  import opened Simd
  import opened Selector
  import opened Clhash
  import opened WordSums
  import opened Haraka
  import opened HarakaLaws

  //
  // Case 4
  //

  /** What the three mixes leave is added to the accumulator; prandex moves to prand
      unchanged, and the entry of prand is stirred with the result. */
  lemma Case4Sum(isa: Isa, key: seq<Vec>, i: nat, acc: Vec, a: Vec, b: Vec, p: Vec, q: Vec)
    requires Sums(isa) && i < MUTABLE && |key| >= KEY_REACH
    ensures var o := Case4(isa, key, i, acc, a, b, p, q);
      && o.acc == Xor(isa, acc, Case4(isa, key, i, ZERO, a, b, p, q).acc)
      && o.prand == b && o.prandex == Stir(isa, o.acc, a)
  {
    var o := Case4(isa, key, i, acc, a, b, p, q);
    var r := Rounds256(isa.aesenc, key, i, Pair(q, p), 3);
    ThreeSum(isa, acc, r.s0, r.s1);
    Swap(isa, a, isa.mulhrs(o.acc, a));
  }

  lemma ThreeSum(isa: Isa, acc: Vec, x: Vec, y: Vec)
    requires Sums(isa)
    ensures Xor(isa, y, Xor(isa, x, acc)) == Xor(isa, acc, Xor(isa, y, Xor(isa, x, ZERO)))
  {
    Zero(isa, x);
    Regroup(isa, y, x, acc);
    Swap(isa, Xor(isa, y, x), acc);
  }

  /** Under an adding AES round all twelve entries from prand on are added. */
  lemma Case4Keys(isa: Isa, key: seq<Vec>, i: nat, a: Vec, b: Vec, p: Vec, q: Vec)
    requires AddsKey(isa) && i < MUTABLE && |key| >= KEY_REACH
    ensures var r := Added(Mixer256(isa), Layers(isa, key, i, 3), Pair(q, p));
      Case4(isa, key, i, ZERO, a, b, p, q).acc == Xor(isa, r.s1, r.s0)
  {
    RoundsAdd(isa, key, i, Pair(q, p), 3);
    Zero(isa, Rounds256(isa.aesenc, key, i, Pair(q, p), 3).s0);
  }

  /** Under one that returns its key the last two of them are left. */
  lemma Case4Ends(isa: Isa, key: seq<Vec>, i: nat, a: Vec, b: Vec, p: Vec, q: Vec)
    requires Sums(isa) && ReturnsKey(isa) && i < MUTABLE && |key| >= KEY_REACH
    ensures var r := Deal(Pair(key[i + 10], key[i + 11]));
      Case4(isa, key, i, ZERO, a, b, p, q).acc == Xor(isa, r.s1, r.s0)
  {
    RoundEnds(isa, key, i + 8, Rounds256(isa.aesenc, key, i, Pair(q, p), 2));
    Zero(isa, Deal(Pair(key[i + 10], key[i + 11])).s0);
  }

  predicate Wiped(isa: Isa, k: Vec, x: Vec, l: Vec) {
    isa.aesenc(x, l) == if l == k then ZERO else x
  }

  /** An AES round that wipes the block under the key k and does nothing under others. */
  ghost predicate Wipes(isa: Isa, k: Vec) {
    forall x, l :: Wiped(isa, k, x, l)
  }

  lemma TwoWipes(isa: Isa, k: Vec, x: Vec, l: Vec, m: Vec)
    requires Wipes(isa, k)
    ensures isa.aesenc(isa.aesenc(x, l), m) == if l == k || m == k then ZERO else x
  {
    assert Wiped(isa, k, x, l) && Wiped(isa, k, x, m) && Wiped(isa, k, ZERO, m);
  }

  lemma RoundWipes(isa: Isa, key: seq<Vec>, at: nat, s: Pair, k: Vec)
    requires Wipes(isa, k) && at + 4 <= |key|
    ensures Round256(isa.aesenc, key, at, s) == Deal(Pair(
      if key[at] == k || key[at + 2] == k then ZERO else s.s0,
      if key[at + 1] == k || key[at + 3] == k then ZERO else s.s1))
  {
    TwoWipes(isa, k, s.s0, key[at], key[at + 2]);
    TwoWipes(isa, k, s.s1, key[at + 1], key[at + 3]);
  }

  lemma DealThrice(s: Pair)
    ensures Deal(Deal(Deal(s))) == s
  {
  }

  /** Once the first round is over such keys do nothing more. */
  lemma TwoMoreRounds(isa: Isa, key: seq<Vec>, i: nat, s: Pair, t: Pair, k: Vec)
    requires Wipes(isa, k) && i + 12 <= |key| && forall j :: i + 4 <= j < i + 12 ==> key[j] != k
    requires Round256(isa.aesenc, key, i, s) == Deal(t)
    ensures Rounds256(isa.aesenc, key, i, s, 3) == t
  {
    RoundWipes(isa, key, i + 4, Deal(t), k);
    RoundWipes(isa, key, i + 8, Deal(Deal(t)), k);
    DealThrice(t);
    assert Rounds256(isa.aesenc, key, i, s, 0) == s;
    assert Rounds256(isa.aesenc, key, i, s, 1) == Deal(t);
    assert Rounds256(isa.aesenc, key, i, s, 2) == Deal(Deal(t));
  }

  /** The entry of prand is the first key of the neighbour ... */
  lemma Case4Neighbour(isa: Isa, key: seq<Vec>, i: nat, a: Vec, b: Vec, p: Vec, q: Vec)
    requires Sums(isa) && i < MUTABLE && |key| >= KEY_REACH
    requires Wipes(isa, key[i]) && forall j :: i < j < i + 12 ==> key[j] != key[i]
    ensures Case4(isa, key, i, ZERO, a, b, p, q).acc == p
  {
    RoundWipes(isa, key, i, Pair(q, p), key[i]);
    TwoMoreRounds(isa, key, i, Pair(q, p), Pair(ZERO, p), key[i]);
    Zero(isa, ZERO);
    Zero(isa, p);
  }

  /** ... and the next one that of the selected word. */
  lemma Case4Selected(isa: Isa, key: seq<Vec>, i: nat, a: Vec, b: Vec, p: Vec, q: Vec)
    requires Sums(isa) && i < MUTABLE && |key| >= KEY_REACH
    requires Wipes(isa, key[i + 1]) && forall j :: i <= j < i + 12 && j != i + 1 ==> key[j] != key[i + 1]
    ensures Case4(isa, key, i, ZERO, a, b, p, q).acc == q
  {
    RoundWipes(isa, key, i, Pair(q, p), key[i + 1]);
    TwoMoreRounds(isa, key, i, Pair(q, p), Pair(q, ZERO), key[i + 1]);
    Zero(isa, q);
  }

  //
  // Sums over the rounds of a loop
  //

  /** The terms n, ..., 0 added to acc. */
  function Gathered(isa: Isa, term: nat -> Vec, n: nat, acc: Vec): Vec {
    if n == 0 then Xor(isa, term(0), acc) else Gathered(isa, term, n - 1, Xor(isa, term(n), acc))
  }

  lemma {:induction false} GatheredOnTop(isa: Isa, term: nat -> Vec, n: nat, acc: Vec)
    requires Sums(isa)
    ensures Gathered(isa, term, n, acc) == Xor(isa, acc, Gathered(isa, term, n, ZERO))
  {
    if n == 0 {
      Swap(isa, term(0), acc);
      Zero(isa, term(0));
    } else {
      GatheredOnTop(isa, term, n - 1, Xor(isa, term(n), acc));
      GatheredOnTop(isa, term, n - 1, Xor(isa, term(n), ZERO));
      OnTop(isa, term(n), acc, Gathered(isa, term, n - 1, ZERO));
    }
  }

  lemma OnTop(isa: Isa, x: Vec, acc: Vec, rest: Vec)
    requires Sums(isa)
    ensures Xor(isa, Xor(isa, x, acc), rest) == Xor(isa, acc, Xor(isa, Xor(isa, x, ZERO), rest))
  {
    Zero(isa, x);
    Swap(isa, x, acc);
    Regroup(isa, acc, x, rest);
  }

  /** How many of the rounds n, ..., m + 1 run AES. */
  function AesRounds(bit: nat -> bool, n: nat, m: nat): (r: nat)
    requires m <= n
    ensures r <= n - m
    decreases n - m
  {
    if m == n then 0 else AesRounds(bit, n, m + 1) + if bit(m + 1) then 0 else 1
  }

  predicate Adds5(isa: Isa, round: Rounds5, bit: nat -> bool, term: nat -> Vec, i: nat, n: nat, m: nat, acc: Vec)
    requires m <= n
  {
    round(m, i + n - m, 4 * AesRounds(bit, n, m), acc) == Xor(isa, term(m), acc)
  }

  lemma {:induction false} Loop5Sum(isa: Isa, round: Rounds5, bit: nat -> bool, term: nat -> Vec,
                                    i: nat, n: nat, m: nat, acc: Vec)
    requires m <= n && forall m: nat, acc | m <= n :: Adds5(isa, round, bit, term, i, n, m, acc)
    ensures Loop5(round, bit, m, i + n - m, 4 * AesRounds(bit, n, m), acc) == Gathered(isa, term, m, acc)
  {
    assert Adds5(isa, round, bit, term, i, n, m, acc);
    if m > 0 {
      Loop5Sum(isa, round, bit, term, i, n, m - 1, Xor(isa, term(m), acc));
    }
  }

  //
  // Case 5
  //

  /** The two blocks of a mix added. */
  function Joined(isa: Isa, s: Pair): Vec {
    Xor(isa, s.s1, s.s0)
  }

  /** What round m adds when k is the entry it reads and its AES keys start at `at`: it
      multiplies the entry with p in odd rounds and with q in even ones, or mixes it with
      the other word. */
  predicate IsTerm5(isa: Isa, key: seq<Vec>, product: bool, m: nat, k: Vec, at: nat, p: Vec, q: Vec, term: Vec)
    requires at + 4 <= |key|
  {
    term ==
      if product then isa.clmulHalves(Xor(isa, k, if m % 2 == 1 then p else q))
      else Joined(isa, Round256(isa.aesenc, key, at, Pair(k, if m % 2 == 1 then q else p)))
  }

  /** Round m reads the entry as many places after prand as rounds came before. The four
      keys of an AES round follow, four further on for each AES round before it. */
  predicate Term5(isa: Isa, key: seq<Vec>, bit: nat -> bool, i: nat, n: nat, p: Vec, q: Vec, term: nat -> Vec, m: nat)
    requires i < MUTABLE && n < 8 && |key| >= KEY_REACH && m <= n
  {
    IsTerm5(isa, key, bit(m), m, key[i + n - m], i + n - m + 1 + 4 * AesRounds(bit, n, m), p, q, term(m))
  }

  lemma Round5Term(isa: Isa, key: seq<Vec>, product: bool, m: nat, rc: nat, off: nat,
                   p: Vec, q: Vec, term: Vec, acc: Vec)
    requires Sums(isa) && rc + off + 5 <= |key| && IsTerm5(isa, key, product, m, key[rc], rc + 1 + off, p, q, term)
    ensures Round5(isa, key, product, Pick(product, m, p, q), rc, off, acc) == Xor(isa, term, acc)
  {
    if !product {
      var r := Round256(isa.aesenc, key, rc + 1 + off, Pair(key[rc], if m % 2 == 1 then q else p));
      Regroup(isa, r.s1, r.s0, acc);
    }
  }

  lemma Round5Adds(isa: Isa, key: seq<Vec>, bit: nat -> bool, i: nat, n: nat, p: Vec, q: Vec,
                   term: nat -> Vec, m: nat, acc: Vec)
    requires Sums(isa) && i < MUTABLE && n < 8 && |key| >= KEY_REACH && m <= n
    requires Term5(isa, key, bit, i, n, p, q, term, m)
    ensures Adds5(isa, Rounds5For(isa, key, bit, p, q), bit, term, i, n, m, acc)
  {
    Round5At(isa, key, bit, m, i + n - m, 4 * AesRounds(bit, n, m), p, q, term(m), acc);
  }

  lemma Round5At(isa: Isa, key: seq<Vec>, bit: nat -> bool, m: nat, rc: nat, off: nat,
                 p: Vec, q: Vec, term: Vec, acc: Vec)
    requires Sums(isa) && rc + off + 5 <= |key| && IsTerm5(isa, key, bit(m), m, key[rc], rc + 1 + off, p, q, term)
    ensures Rounds5For(isa, key, bit, p, q)(m, rc, off, acc) == Xor(isa, term, acc)
  {
    Round5Term(isa, key, bit(m), m, rc, off, p, q, term, acc);
  }

  /** Case 5 adds one term for each of its rounds. Round m reads the entry as many places
      after prand as rounds came before; it multiplies it with p in odd rounds and with q in
      even ones, or mixes it with the other word. The four keys of an AES round follow the
      entry, four further on for each AES round before. The entry of prandex moves to prand
      unchanged, and that of prand is stirred with the result. */
  lemma Case5Sum(isa: Isa, sel: bv64, key: seq<Vec>, i: nat, acc: Vec, a: Vec, b: Vec, p: Vec, q: Vec,
                 bit: nat -> bool, n: nat, term: nat -> Vec)
    requires Sums(isa) && i < MUTABLE && |key| >= KEY_REACH && bit == RoundBits(sel) && n == LoopRounds(sel)
    requires forall m: nat | m <= n && bit(m) ::
      term(m) == isa.clmulHalves(Xor(isa, key[i + n - m], if m % 2 == 1 then p else q))
    requires forall m: nat | m <= n && !bit(m) ::
      var r := Round256(isa.aesenc, key, i + n - m + 1 + 4 * AesRounds(bit, n, m),
                        Pair(key[i + n - m], if m % 2 == 1 then q else p));
      term(m) == Xor(isa, r.s1, r.s0)
    ensures var o := Case5(isa, sel, key, i, acc, a, b, p, q);
      && o.acc == Gathered(isa, term, n, acc)
      && o.prand == b && o.prandex == Stir(isa, o.acc, a)
  {
    Case5Terms(isa, key, i, acc, p, q, bit, n, term);
    Case5Stores(isa, sel, key, i, acc, a, b, p, q, bit, n, Gathered(isa, term, n, acc));
  }

  lemma Case5Stores(isa: Isa, sel: bv64, key: seq<Vec>, i: nat, acc: Vec, a: Vec, b: Vec, p: Vec, q: Vec,
                    bit: nat -> bool, n: nat, acc1: Vec)
    requires Sums(isa) && i < MUTABLE && |key| >= KEY_REACH && bit == RoundBits(sel) && n == LoopRounds(sel)
    requires acc1 == Loop5(Rounds5For(isa, key, bit, p, q), bit, n, i, 0, acc)
    ensures var o := Case5(isa, sel, key, i, acc, a, b, p, q);
      o.acc == acc1 && o.prand == b && o.prandex == Stir(isa, acc1, a)
  {
    Swap(isa, a, isa.mulhrs(acc1, a));
  }

  lemma Case5Terms(isa: Isa, key: seq<Vec>, i: nat, acc: Vec, p: Vec, q: Vec,
                   bit: nat -> bool, n: nat, term: nat -> Vec)
    requires Sums(isa) && i < MUTABLE && n < 8 && |key| >= KEY_REACH
    requires forall m: nat | m <= n && bit(m) ::
      term(m) == isa.clmulHalves(Xor(isa, key[i + n - m], if m % 2 == 1 then p else q))
    requires forall m: nat | m <= n && !bit(m) ::
      var r := Round256(isa.aesenc, key, i + n - m + 1 + 4 * AesRounds(bit, n, m),
                        Pair(key[i + n - m], if m % 2 == 1 then q else p));
      term(m) == Xor(isa, r.s1, r.s0)
    ensures Loop5(Rounds5For(isa, key, bit, p, q), bit, n, i, 0, acc) == Gathered(isa, term, n, acc)
  {
    forall m: nat | m <= n ensures Term5(isa, key, bit, i, n, p, q, term, m) {
    }
    Case5Loop(isa, key, bit, i, n, acc, p, q, term);
  }

  lemma Case5Loop(isa: Isa, key: seq<Vec>, bit: nat -> bool, i: nat, n: nat, acc: Vec, p: Vec, q: Vec, term: nat -> Vec)
    requires Sums(isa) && i < MUTABLE && n < 8 && |key| >= KEY_REACH
    requires forall m: nat | m <= n :: Term5(isa, key, bit, i, n, p, q, term, m)
    ensures Loop5(Rounds5For(isa, key, bit, p, q), bit, n, i, 0, acc) == Gathered(isa, term, n, acc)
  {
    forall m: nat, acc | m <= n ensures Adds5(isa, Rounds5For(isa, key, bit, p, q), bit, term, i, n, m, acc) {
      Round5Adds(isa, key, bit, i, n, p, q, term, m, acc);
    }
    Loop5Sum(isa, Rounds5For(isa, key, bit, p, q), bit, term, i, n, n, acc);
  }

  //
  // Case 6
  //

  predicate Adds6(isa: Isa, round: Rounds6, term: nat -> Vec, i: nat, n: nat, m: nat, acc: Vec)
    requires m <= n
  {
    round(m, i + n - m, acc).acc == Xor(isa, term(m), acc)
  }

  lemma {:induction false} Loop6Sum(isa: Isa, round: Rounds6, term: nat -> Vec, i: nat, n: nat, m: nat, acc: Vec)
    requires m <= n && forall m: nat, acc | m <= n :: Adds6(isa, round, term, i, n, m, acc)
    ensures Loop6(round, m, i + n - m, acc).acc == Gathered(isa, term, m, acc)
  {
    assert Adds6(isa, round, term, i, n, m, acc);
    if m > 0 {
      Loop6Sum(isa, round, term, i, n, m - 1, Xor(isa, term(m), acc));
    }
  }

  predicate Ends6(round: Rounds6, at: nat, onekey: Vec, acc: Vec) {
    round(0, at, acc).onekey == onekey
  }

  lemma {:induction false} Loop6Key(round: Rounds6, at: nat, onekey: Vec, n: nat, rc: nat, acc: Vec)
    requires rc + n == at && forall acc :: Ends6(round, at, onekey, acc)
    ensures Loop6(round, n, rc, acc).onekey == onekey
  {
    if n > 0 {
      Loop6Key(round, at, onekey, n - 1, rc + 1, round(n, rc, acc).acc);
    } else {
      assert Ends6(round, at, onekey, acc);
    }
  }

  lemma Round6Key(isa: Isa, modulo: Vec -> Vec, divide: bool, k: Vec, p: Vec, q: Vec, acc: Vec)
    ensures Round6(isa, modulo, divide, k, Pick(divide, 0, p, q), acc).onekey ==
      if divide then Xor(isa, k, q) else isa.clmulHalves(Xor(isa, k, p))
  {
  }

  lemma Case6Key(isa: Isa, modulo: Vec -> Vec, key: seq<Vec>, bit: nat -> bool, i: nat, n: nat,
                 acc: Vec, p: Vec, q: Vec)
    requires i + n < |key|
    ensures Loop6(Rounds6For(isa, key, bit, modulo, p, q), n, i, acc).onekey ==
      if bit(0) then Xor(isa, key[i + n], q) else isa.clmulHalves(Xor(isa, key[i + n], p))
  {
    var at := i + n;
    var onekey := if bit(0) then Xor(isa, key[at], q) else isa.clmulHalves(Xor(isa, key[at], p));
    forall acc ensures Ends6(Rounds6For(isa, key, bit, modulo, p, q), at, onekey, acc) {
      Round6Key(isa, modulo, bit(0), key[at], p, q, acc);
    }
    Loop6Key(Rounds6For(isa, key, bit, modulo, p, q), at, onekey, n, i, acc);
  }

  /** The last round reads the entry LoopRounds places after prand; what it makes of it is
      stored to prandex, and the accumulator is added to the entry moved to prand. */
  lemma Case6Stores(isa: Isa, sel: bv64, key: seq<Vec>, i: nat, acc: Vec, b: Vec, p: Vec, q: Vec)
    requires i < MUTABLE && |key| >= KEY_REACH && Tag(sel) == 6
    ensures var o, k := Case6(isa, sel, key, i, acc, b, p, q), key[i + LoopRounds(sel)];
      && o.prand == Xor(isa, b, o.acc)
      && o.prandex == if RoundBits(sel)(0) then Xor(isa, k, q) else isa.clmulHalves(Xor(isa, k, p))
  {
    Case6Key(isa, Remainders(sel), key, RoundBits(sel), i, LoopRounds(sel), acc, p, q);
  }

  predicate Multiplied(isa: Isa, mul: Vec -> Vec, x: Vec, y: Vec) {
    isa.mulhrs(x, y) == mul(y)
  }

  /** What round m adds when k is the entry it reads and the multiply ignores its first
      operand: the remainder of the entry with p in odd rounds and with q in even ones, or
      the multiple of its product with the other word. */
  predicate IsTerm6(isa: Isa, modulo: Vec -> Vec, mul: Vec -> Vec, divide: bool, m: nat, k: Vec,
                    p: Vec, q: Vec, term: Vec)
  {
    term ==
      if divide then modulo(Xor(isa, k, if m % 2 == 1 then p else q))
      else mul(isa.clmulHalves(Xor(isa, k, if m % 2 == 1 then q else p)))
  }

  predicate Term6(isa: Isa, modulo: Vec -> Vec, mul: Vec -> Vec, key: seq<Vec>, bit: nat -> bool, i: nat, n: nat,
                  p: Vec, q: Vec, term: nat -> Vec, m: nat)
    requires i + n < |key| && m <= n
  {
    IsTerm6(isa, modulo, mul, bit(m), m, key[i + n - m], p, q, term(m))
  }

  lemma Round6Term(isa: Isa, modulo: Vec -> Vec, mul: Vec -> Vec, divide: bool, m: nat, k: Vec,
                   p: Vec, q: Vec, term: Vec, acc: Vec)
    requires (forall x, y :: Multiplied(isa, mul, x, y)) && IsTerm6(isa, modulo, mul, divide, m, k, p, q, term)
    ensures Round6(isa, modulo, divide, k, Pick(divide, m, p, q), acc).acc == Xor(isa, term, acc)
  {
    assert Multiplied(isa, mul, acc, isa.clmulHalves(Xor(isa, k, if m % 2 == 1 then q else p)));
  }

  /** Case 6 adds one term for each of its rounds too, reading the same entries, when the
      multiply ignores its first operand: the remainder of the entry with p in odd rounds and
      with q in even ones, or a multiple of the product with the other word. */
  lemma Case6Sum(isa: Isa, sel: bv64, key: seq<Vec>, i: nat, acc: Vec, b: Vec, p: Vec, q: Vec,
                 bit: nat -> bool, n: nat, mul: Vec -> Vec, term: nat -> Vec)
    requires (forall x, y :: isa.mulhrs(x, y) == mul(y)) && i < MUTABLE && |key| >= KEY_REACH && Tag(sel) == 6
    requires bit == RoundBits(sel) && n == LoopRounds(sel)
    requires forall m: nat | m <= n && bit(m) ::
      term(m) == Modulo(sel, Low64(Xor(isa, key[i + n - m], if m % 2 == 1 then p else q)))
    requires forall m: nat | m <= n && !bit(m) ::
      term(m) == mul(isa.clmulHalves(Xor(isa, key[i + n - m], if m % 2 == 1 then q else p)))
    ensures Case6(isa, sel, key, i, acc, b, p, q).acc == Gathered(isa, term, n, acc)
  {
    forall x, y ensures Multiplied(isa, mul, x, y) {
    }
    forall m: nat | m <= n ensures Term6(isa, Remainders(sel), mul, key, bit, i, n, p, q, term, m) {
    }
    Case6Loop(isa, Remainders(sel), key, bit, i, n, acc, p, q, mul, term);
  }

  lemma Case6Loop(isa: Isa, modulo: Vec -> Vec, key: seq<Vec>, bit: nat -> bool, i: nat, n: nat, acc: Vec,
                  p: Vec, q: Vec, mul: Vec -> Vec, term: nat -> Vec)
    requires (forall x, y :: Multiplied(isa, mul, x, y)) && i + n < |key|
    requires forall m: nat | m <= n :: Term6(isa, modulo, mul, key, bit, i, n, p, q, term, m)
    ensures Loop6(Rounds6For(isa, key, bit, modulo, p, q), n, i, acc).acc == Gathered(isa, term, n, acc)
  {
    forall m: nat, acc | m <= n ensures Adds6(isa, Rounds6For(isa, key, bit, modulo, p, q), term, i, n, m, acc) {
      assert Term6(isa, modulo, mul, key, bit, i, n, p, q, term, m);
      Round6Term(isa, modulo, mul, bit(m), m, key[i + n - m], p, q, term(m), acc);
    }
    Loop6Sum(isa, Rounds6For(isa, key, bit, modulo, p, q), term, i, n, n, acc);
  }
}
