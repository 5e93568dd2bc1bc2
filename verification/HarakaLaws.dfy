/** Where the round constants go in Haraka-256 and Haraka-512, read off from AES rounds
    simple enough to see through: one that returns its key, and one that adds its key to
    the block. */
module HarakaLaws {
  import opened Simd
  import opened Haraka
  import opened WordSums

  /** The AES round returns its key. */
  ghost predicate ReturnsKey(isa: Isa) {
    forall x, k :: isa.aesenc(x, k) == k
  }

  /** The exclusive or returns its first operand. */
  ghost predicate ReturnsFirst(isa: Isa) {
    forall a, b :: isa.xor32(a, b) == a
  }

  predicate Adds(isa: Isa, x: Vec, k: Vec) {
    isa.aesenc(x, k) == Xor(isa, x, k)
  }

  /** The AES round adds its key. */
  ghost predicate AddsKey(isa: Isa) {
    Sums(isa) && forall x, k :: Adds(isa, x, k)
  }

  /** Two added keys are one. */
  lemma TwoKeys(isa: Isa, x: Vec, k: Vec, l: Vec)
    requires AddsKey(isa)
    ensures isa.aesenc(isa.aesenc(x, k), l) == Xor(isa, Xor(isa, k, l), x)
  {
    assert Adds(isa, x, k) && Adds(isa, Xor(isa, x, k), l);
    Regroup(isa, x, k, l);
    Swap(isa, x, Xor(isa, k, l));
  }

  //
  // Rounds that add a layer of constants and mix
  //

  /** How states are added and mixed. */
  datatype Mixer<!S> = Mixer(plus: (S, S) -> S, mix: S -> S, zero: S)

  predicate Distributes<S(==)>(m: Mixer<S>, a: S, b: S, c: S) {
    m.mix(m.plus(a, m.plus(b, c))) == m.plus(m.mix(m.plus(a, b)), m.mix(c))
  }

  predicate ZeroFirst<S(==)>(m: Mixer<S>, a: S) {
    m.plus(m.zero, a) == a
  }

  ghost predicate Linear<S(!new)>(m: Mixer<S>) {
    (forall a :: ZeroFirst(m, a)) && forall a, b, c :: Distributes(m, a, b, c)
  }

  /** The sum of the layers, each mixed as often as rounds end after it. */
  function Total<S>(m: Mixer<S>, layers: seq<S>): S {
    if layers == [] then m.zero
    else
      var n := |layers| - 1;
      m.mix(m.plus(layers[n], Total(m, layers[..n])))
  }

  function Mixed<S>(m: Mixer<S>, s: S, n: nat): S {
    if n == 0 then s else m.mix(Mixed(m, s, n - 1))
  }

  /** What a run of such rounds computes. */
  function Added<S>(m: Mixer<S>, layers: seq<S>, s: S): S {
    m.plus(Total(m, layers), Mixed(m, s, |layers|))
  }

  predicate Steps<S(==)>(m: Mixer<S>, layer: S, before: S, after: S) {
    after == m.mix(m.plus(layer, before))
  }

  lemma {:induction false} RunAdds<S(!new)>(m: Mixer<S>, layers: seq<S>, states: seq<S>)
    requires Linear(m) && |states| == |layers| + 1
    requires forall i :: 0 <= i < |layers| ==> Steps(m, layers[i], states[i], states[i + 1])
    ensures states[|layers|] == Added(m, layers, states[0])
  {
    if layers == [] {
      assert ZeroFirst(m, states[0]);
    } else {
      var n := |layers| - 1;
      assert Steps(m, layers[n], states[n], states[n + 1]);
      RunAdds(m, layers[..n], states[..n + 1]);
      assert Distributes(m, layers[n], Total(m, layers[..n]), Mixed(m, states[0], n));
    }
  }

  //
  // Haraka-256
  //

  function Plus(isa: Isa, s: Pair, t: Pair): Pair {
    Pair(Xor(isa, s.s0, t.s0), Xor(isa, s.s1, t.s1))
  }

  /** The columns of the two blocks, dealt out alternately. */
  function Deal(s: Pair): Pair {
    Pair(UnpackLo32(s.s0, s.s1), UnpackHi32(s.s0, s.s1))
  }

  function Mixer256(isa: Isa): Mixer<Pair> {
    Mixer((s: Pair, t: Pair) => Plus(isa, s, t), Deal, Pair(ZERO, ZERO))
  }

  /** What one round adds: of its four constants the first and third go to the first block,
      the second and fourth to the second. */
  function Layer(isa: Isa, rc: seq<Vec>, at: nat): Pair
    requires at + 4 <= |rc|
  {
    Plus(isa, Pair(rc[at], rc[at + 1]), Pair(rc[at + 2], rc[at + 3]))
  }

  function Layers(isa: Isa, rc: seq<Vec>, at: nat, n: nat): (r: seq<Pair>)
    requires at + 4 * n <= |rc|
    ensures |r| == n
  {
    seq(n, i requires 0 <= i < n => Layer(isa, rc, at + 4 * i))
  }

  /** Under the key-returning round a round leaves its last two constants, dealt. */
  lemma RoundEnds(isa: Isa, rc: seq<Vec>, at: nat, s: Pair)
    requires ReturnsKey(isa) && at + 4 <= |rc|
    ensures Round256(isa.aesenc, rc, at, s) == Deal(Pair(rc[at + 2], rc[at + 3]))
  {
  }

  /** So the digest is made of the last two constants. */
  lemma DigestEnds(isa: Isa, rc: seq<Vec>, s: Pair)
    requires ReturnsKey(isa) && ReturnsFirst(isa) && 20 <= |rc|
    ensures Digest256(isa, rc, s) == Pair(
      Vec(rc[18].w0, rc[19].w0, rc[18].w1, rc[19].w1),
      Vec(rc[18].w2, rc[19].w2, rc[18].w3, rc[19].w3))
  {
    RoundEnds(isa, rc, 16, Rounds256(isa.aesenc, rc, 0, s, 4));
  }

  lemma RoundAdds(isa: Isa, rc: seq<Vec>, at: nat, s: Pair)
    requires AddsKey(isa) && at + 4 <= |rc|
    ensures Round256(isa.aesenc, rc, at, s) == Deal(Plus(isa, Layer(isa, rc, at), s))
  {
    TwoKeys(isa, s.s0, rc[at], rc[at + 2]);
    TwoKeys(isa, s.s1, rc[at + 1], rc[at + 3]);
  }

  lemma DealSum(isa: Isa, s: Pair, t: Pair)
    ensures Deal(Plus(isa, s, t)) == Plus(isa, Deal(s), Deal(t))
  {
  }

  lemma PlusRegroup(isa: Isa, s: Pair, t: Pair, u: Pair)
    requires Sums(isa)
    ensures Plus(isa, Plus(isa, s, t), u) == Plus(isa, s, Plus(isa, t, u))
  {
    Regroup(isa, s.s0, t.s0, u.s0);
    Regroup(isa, s.s1, t.s1, u.s1);
  }

  lemma Linear256(isa: Isa)
    requires Sums(isa)
    ensures Linear(Mixer256(isa))
  {
    forall s ensures ZeroFirst(Mixer256(isa), s) {
      Zero(isa, s.s0);
      Zero(isa, s.s1);
    }
    forall a, b, c ensures Distributes(Mixer256(isa), a, b, c) {
      PlusRegroup(isa, a, b, c);
      DealSum(isa, Plus(isa, a, b), c);
    }
  }

  lemma OneRound(isa: Isa, rc: seq<Vec>, at: nat, s: Pair, i: nat, layer: Pair, before: Pair, after: Pair)
    requires AddsKey(isa) && at + 4 * (i + 1) <= |rc| && layer == Layer(isa, rc, at + 4 * i)
    requires before == Rounds256(isa.aesenc, rc, at, s, i) && after == Rounds256(isa.aesenc, rc, at, s, i + 1)
    ensures Steps(Mixer256(isa), layer, before, after)
  {
    RoundAdds(isa, rc, at + 4 * i, before);
  }

  lemma StepAt(isa: Isa, rc: seq<Vec>, at: nat, s: Pair, n: nat, i: nat, states: seq<Pair>)
    requires AddsKey(isa) && at + 4 * n <= |rc| && i < n && |states| == n + 1
    requires forall i :: 0 <= i <= n ==> states[i] == Rounds256(isa.aesenc, rc, at, s, i)
    ensures Steps(Mixer256(isa), Layers(isa, rc, at, n)[i], states[i], states[i + 1])
  {
    OneRound(isa, rc, at, s, i, Layers(isa, rc, at, n)[i], states[i], states[i + 1]);
  }

  /** Under the adding round every round adds its four constants in their places. */
  lemma RoundsAdd(isa: Isa, rc: seq<Vec>, at: nat, s: Pair, n: nat)
    requires AddsKey(isa) && at + 4 * n <= |rc|
    ensures Rounds256(isa.aesenc, rc, at, s, n) == Added(Mixer256(isa), Layers(isa, rc, at, n), s)
  {
    var states := seq(n + 1, i requires 0 <= i <= n => Rounds256(isa.aesenc, rc, at, s, i));
    forall i | 0 <= i < n ensures Steps(Mixer256(isa), Layers(isa, rc, at, n)[i], states[i], states[i + 1]) {
      StepAt(isa, rc, at, s, n, i, states);
    }
    Linear256(isa);
    RunAdds(Mixer256(isa), Layers(isa, rc, at, n), states);
  }

  /** The digest under the adding round: all 20 constants, the input dealt five times, and
      the input fed forward. */
  lemma DigestAdds(isa: Isa, rc: seq<Vec>, s: Pair)
    requires AddsKey(isa) && 20 <= |rc|
    ensures Digest256(isa, rc, s) == Plus(isa, Added(Mixer256(isa), Layers(isa, rc, 0, 5), s), s)
  {
    RoundsAdd(isa, rc, 0, s, 5);
  }

  //
  // Haraka-512
  //

  function Mixer512(isa: Isa): Mixer<State> {
    Mixer((s: State, t: State) => FeedForward(isa, s, t), Shuffle, State(ZERO, ZERO, ZERO, ZERO))
  }

  /** Four constants in a row, one for each block. */
  function Keys(rc: seq<Vec>, at: nat): State
    requires at + 4 <= |rc|
  {
    State(rc[at], rc[at + 1], rc[at + 2], rc[at + 3])
  }

  /** What one round adds: each block gets one of the first four constants and one of the
      second four. */
  function LayerOf(isa: Isa, rc: seq<Vec>, at: nat): State
    requires at + 8 <= |rc|
  {
    FeedForward(isa, Keys(rc, at), Keys(rc, at + 4))
  }

  function LayersOf(isa: Isa, rc: seq<Vec>, at: nat, n: nat): (r: seq<State>)
    requires at + 8 * n <= |rc|
    ensures |r| == n
  {
    seq(n, i requires 0 <= i < n => LayerOf(isa, rc, at + 8 * i))
  }

  lemma SubRoundEnds(isa: Isa, rc: seq<Vec>, at: nat, s: State)
    requires ReturnsKey(isa) && at + 8 <= |rc|
    ensures SubRound(isa.aesenc, rc, at, s) == Keys(rc, at + 4)
  {
  }

  /** Under the key-returning round the digest is made of the last four constants. */
  lemma DigestEndsAt(isa: Isa, rc: seq<Vec>, at: nat, b: seq<Byte>)
    requires ReturnsKey(isa) && ReturnsFirst(isa) && at + 40 <= |rc| && |b| == 64
    ensures var k := Keys(rc, at + 36);
      Digest512(isa, rc, at, b) ==
        [k.s1.w3, k.s3.w3, k.s3.w0, k.s1.w0, k.s2.w1, k.s0.w1, k.s0.w2, k.s2.w2]
  {
    SubRoundEnds(isa, rc, at + 32, Rounds(isa.aesenc, rc, at, LoadState(b), 4));
  }

  lemma SubRoundAdds(isa: Isa, rc: seq<Vec>, at: nat, s: State)
    requires AddsKey(isa) && at + 8 <= |rc|
    ensures SubRound(isa.aesenc, rc, at, s) == FeedForward(isa, LayerOf(isa, rc, at), s)
  {
    TwoKeys(isa, s.s0, rc[at], rc[at + 4]);
    TwoKeys(isa, s.s1, rc[at + 1], rc[at + 5]);
    TwoKeys(isa, s.s2, rc[at + 2], rc[at + 6]);
    TwoKeys(isa, s.s3, rc[at + 3], rc[at + 7]);
  }

  lemma ShuffleSum(isa: Isa, s: State, t: State)
    ensures Shuffle(FeedForward(isa, s, t)) == FeedForward(isa, Shuffle(s), Shuffle(t))
  {
  }

  lemma StateRegroup(isa: Isa, s: State, t: State, u: State)
    requires Sums(isa)
    ensures FeedForward(isa, FeedForward(isa, s, t), u) == FeedForward(isa, s, FeedForward(isa, t, u))
  {
    Regroup(isa, s.s0, t.s0, u.s0);
    Regroup(isa, s.s1, t.s1, u.s1);
    Regroup(isa, s.s2, t.s2, u.s2);
    Regroup(isa, s.s3, t.s3, u.s3);
  }

  lemma StateZero(isa: Isa, s: State)
    requires Sums(isa)
    ensures FeedForward(isa, State(ZERO, ZERO, ZERO, ZERO), s) == s
  {
    Zero(isa, s.s0);
    Zero(isa, s.s1);
    Zero(isa, s.s2);
    Zero(isa, s.s3);
  }

  lemma Linear512(isa: Isa)
    requires Sums(isa)
    ensures Linear(Mixer512(isa))
  {
    forall s ensures ZeroFirst(Mixer512(isa), s) {
      StateZero(isa, s);
    }
    forall a, b, c ensures Distributes(Mixer512(isa), a, b, c) {
      StateRegroup(isa, a, b, c);
      ShuffleSum(isa, FeedForward(isa, a, b), c);
    }
  }

  lemma OneShuffle(isa: Isa, rc: seq<Vec>, at: nat, s: State, i: nat, layer: State, before: State, after: State)
    requires AddsKey(isa) && at + 8 * (i + 1) <= |rc| && layer == LayerOf(isa, rc, at + 8 * i)
    requires before == Rounds(isa.aesenc, rc, at, s, i) && after == Rounds(isa.aesenc, rc, at, s, i + 1)
    ensures Steps(Mixer512(isa), layer, before, after)
  {
    SubRoundAdds(isa, rc, at + 8 * i, before);
  }

  lemma StepOf(isa: Isa, rc: seq<Vec>, at: nat, s: State, n: nat, i: nat, states: seq<State>)
    requires AddsKey(isa) && at + 8 * n <= |rc| && i < n && |states| == n + 1
    requires forall i :: 0 <= i <= n ==> states[i] == Rounds(isa.aesenc, rc, at, s, i)
    ensures Steps(Mixer512(isa), LayersOf(isa, rc, at, n)[i], states[i], states[i + 1])
  {
    OneShuffle(isa, rc, at, s, i, LayersOf(isa, rc, at, n)[i], states[i], states[i + 1]);
  }

  /** Under the adding round every round adds its eight constants in their places. */
  lemma RoundsAddTo(isa: Isa, rc: seq<Vec>, at: nat, s: State, n: nat)
    requires AddsKey(isa) && at + 8 * n <= |rc|
    ensures Rounds(isa.aesenc, rc, at, s, n) == Added(Mixer512(isa), LayersOf(isa, rc, at, n), s)
  {
    var states := seq(n + 1, i requires 0 <= i <= n => Rounds(isa.aesenc, rc, at, s, i));
    forall i | 0 <= i < n ensures Steps(Mixer512(isa), LayersOf(isa, rc, at, n)[i], states[i], states[i + 1]) {
      StepOf(isa, rc, at, s, n, i, states);
    }
    Linear512(isa);
    RunAdds(Mixer512(isa), LayersOf(isa, rc, at, n), states);
  }

  /** The digest under the adding round: all 40 constants, the input shuffled five times,
      and the input fed forward, of which half the columns are kept. */
  lemma DigestAddsTo(isa: Isa, rc: seq<Vec>, at: nat, b: seq<Byte>)
    requires AddsKey(isa) && at + 40 <= |rc| && |b| == 64
    ensures var s := LoadState(b);
      Digest512(isa, rc, at, b) ==
        Truncate(FeedForward(isa, Added(Mixer512(isa), LayersOf(isa, rc, at, 5), s), s))
  {
    RoundsAddTo(isa, rc, at, LoadState(b), 5);
  }
}
