/** Haraka-256, Haraka-512 and the keyed Haraka-512 that finishes a Verus hash
    (verus/haraka.c, verus/haraka.h), for every AES round function. */
module Haraka {
  import opened Simd

  type AesRound = (Vec, Vec) -> Vec

  /** The 512-bit state. */
  datatype State = State(s0: Vec, s1: Vec, s2: Vec, s3: Vec)

  //
  // Reference: the permutation by rounds, with the column shuffle as a table
  //

  /** Two AES rounds on each of the four blocks, keys taken in order. */
  function SubRound(aes: AesRound, rc: seq<Vec>, at: nat, s: State): State
    requires at + 8 <= |rc|
  {
    State(
      aes(aes(s.s0, rc[at]), rc[at + 4]),
      aes(aes(s.s1, rc[at + 1]), rc[at + 5]),
      aes(aes(s.s2, rc[at + 2]), rc[at + 6]),
      aes(aes(s.s3, rc[at + 3]), rc[at + 7]))
  }

  /** The column shuffle of Haraka-512. Numbering the 16 columns of the state from 0,
      the result is columns 3, 11, 7, 15, 8, 0, 12, 4, 9, 1, 13, 5, 2, 10, 6, 14. */
  function Shuffle(s: State): State {
    State(
      Vec(s.s0.w3, s.s2.w3, s.s1.w3, s.s3.w3),
      Vec(s.s2.w0, s.s0.w0, s.s3.w0, s.s1.w0),
      Vec(s.s2.w1, s.s0.w1, s.s3.w1, s.s1.w1),
      Vec(s.s0.w2, s.s2.w2, s.s1.w2, s.s3.w2))
  }

  function Rounds(aes: AesRound, rc: seq<Vec>, at: nat, s: State, n: nat): State
    requires at + 8 * n <= |rc|
  {
    if n == 0 then s
    else Shuffle(SubRound(aes, rc, at + 8 * (n - 1), Rounds(aes, rc, at, s, n - 1)))
  }

  function LoadState(b: seq<Byte>): State
    requires |b| == 64
  {
    State(Load(b, 0), Load(b, 16), Load(b, 32), Load(b, 48))
  }

  function FeedForward(isa: Isa, s: State, t: State): State {
    State(Xor(isa, s.s0, t.s0), Xor(isa, s.s1, t.s1), Xor(isa, s.s2, t.s2), Xor(isa, s.s3, t.s3))
  }

  /** The eight words kept of the 512-bit result: the high halves of the first
      two blocks and the low halves of the last two. */
  function Truncate(s: State): seq<bv32> {
    [s.s0.w2, s.s0.w3, s.s1.w2, s.s1.w3, s.s2.w0, s.s2.w1, s.s3.w0, s.s3.w1]
  }

  /** Haraka-512 of a 64-byte input under the 40 round keys from `at` on. */
  function Digest512(isa: Isa, rc: seq<Vec>, at: nat, b: seq<Byte>): (r: seq<bv32>)
    requires at + 40 <= |rc| && |b| == 64
    ensures |r| == 8
  {
    var s := LoadState(b);
    Truncate(FeedForward(isa, Rounds(isa.aesenc, rc, at, s, 5), s))
  }

  //
  // The macros of haraka.h, as they reassign their arguments
  //

  method Aes4(aes: AesRound, rc: seq<Vec>, at: nat, a0: Vec, a1: Vec, a2: Vec, a3: Vec)
    returns (s0: Vec, s1: Vec, s2: Vec, s3: Vec)
    requires at + 8 <= |rc|
    ensures State(s0, s1, s2, s3) == SubRound(aes, rc, at, State(a0, a1, a2, a3))
  {
    s0, s1, s2, s3 := a0, a1, a2, a3;
    s0 := aes(s0, rc[at]);
    s1 := aes(s1, rc[at + 1]);
    s2 := aes(s2, rc[at + 2]);
    s3 := aes(s3, rc[at + 3]);
    s0 := aes(s0, rc[at + 4]);
    s1 := aes(s1, rc[at + 5]);
    s2 := aes(s2, rc[at + 6]);
    s3 := aes(s3, rc[at + 7]);
  }

  method Mix4(a0: Vec, a1: Vec, a2: Vec, a3: Vec) returns (s0: Vec, s1: Vec, s2: Vec, s3: Vec)
    ensures State(s0, s1, s2, s3) == Shuffle(State(a0, a1, a2, a3))
  {
    s0, s1, s2, s3 := a0, a1, a2, a3;
    var tmp := UnpackLo32(s0, s1);
    s0 := UnpackHi32(s0, s1);
    s1 := UnpackLo32(s2, s3);
    s2 := UnpackHi32(s2, s3);
    s3 := UnpackLo32(s0, s2);
    s0 := UnpackHi32(s0, s2);
    s2 := UnpackHi32(s1, tmp);
    s1 := UnpackLo32(s1, tmp);
  }

  /** The trimmed shuffle keeps only block 2. */
  method Mix4Last(a0: Vec, a1: Vec, a2: Vec, a3: Vec) returns (s2: Vec)
    ensures s2 == Shuffle(State(a0, a1, a2, a3)).s2
  {
    s2 := a2;
    var tmp := UnpackLo32(a0, a1);
    var s1 := UnpackLo32(s2, a3);
    s2 := UnpackHi32(s1, tmp);
  }

  method TruncStore(s0: Vec, s1: Vec, s2: Vec, s3: Vec) returns (out: seq<bv32>)
    ensures out == Truncate(State(s0, s1, s2, s3))
  {
    var trunc0 := UnpackHi64(s0, s1);
    var trunc1 := UnpackLo64(s2, s3);
    out := Words(trunc0, trunc1);
  }

  //
  // haraka512 / haraka512_keyed / haraka512_keyed_highword
  //

  /** `haraka512_keyed`; with the global constants as `rc` it is `haraka512`. */
  method Haraka512Keyed(isa: Isa, input: seq<Byte>, rc: seq<Vec>, at: nat) returns (out: seq<bv32>)
    requires |input| == 64 && at + 40 <= |rc|
    ensures out == Digest512(isa, rc, at, input)
  {
    var s0, s1, s2, s3 := Load(input, 0), Load(input, 16), Load(input, 32), Load(input, 48);
    ghost var s := LoadState(input);

    s0, s1, s2, s3 := Aes4(isa.aesenc, rc, at, s0, s1, s2, s3);
    s0, s1, s2, s3 := Mix4(s0, s1, s2, s3);
    assert State(s0, s1, s2, s3) == Rounds(isa.aesenc, rc, at, s, 1);

    s0, s1, s2, s3 := Aes4(isa.aesenc, rc, at + 8, s0, s1, s2, s3);
    s0, s1, s2, s3 := Mix4(s0, s1, s2, s3);
    assert State(s0, s1, s2, s3) == Rounds(isa.aesenc, rc, at, s, 2);

    s0, s1, s2, s3 := Aes4(isa.aesenc, rc, at + 16, s0, s1, s2, s3);
    s0, s1, s2, s3 := Mix4(s0, s1, s2, s3);
    assert State(s0, s1, s2, s3) == Rounds(isa.aesenc, rc, at, s, 3);

    s0, s1, s2, s3 := Aes4(isa.aesenc, rc, at + 24, s0, s1, s2, s3);
    s0, s1, s2, s3 := Mix4(s0, s1, s2, s3);
    assert State(s0, s1, s2, s3) == Rounds(isa.aesenc, rc, at, s, 4);

    s0, s1, s2, s3 := Aes4(isa.aesenc, rc, at + 32, s0, s1, s2, s3);
    s0, s1, s2, s3 := Mix4(s0, s1, s2, s3);
    assert State(s0, s1, s2, s3) == Rounds(isa.aesenc, rc, at, s, 5);

    s0 := Xor(isa, s0, Load(input, 0));
    s1 := Xor(isa, s1, Load(input, 16));
    s2 := Xor(isa, s2, Load(input, 32));
    s3 := Xor(isa, s3, Load(input, 48));
    out := TruncStore(s0, s1, s2, s3);
  }

  lemma LastShuffle(isa: Isa, r: State, s: State)
    ensures Truncate(FeedForward(isa, Shuffle(r), s))[7] == isa.xor32(r.s2.w2, s.s3.w1)
  {
  }

  /** Word 7 of the digest needs only block 2 of the last AES layer. */
  lemma HighWord(isa: Isa, rc: seq<Vec>, at: nat, b: seq<Byte>)
    requires |b| == 64 && at + 40 <= |rc|
    ensures Digest512(isa, rc, at, b)[7]
         == isa.xor32(SubRound(isa.aesenc, rc, at + 32, Rounds(isa.aesenc, rc, at, LoadState(b), 4)).s2.w2,
                      LoadState(b).s3.w1)
  {
    var s := LoadState(b);
    var r := SubRound(isa.aesenc, rc, at + 32, Rounds(isa.aesenc, rc, at, s, 4));
    assert Rounds(isa.aesenc, rc, at, s, 5) == Shuffle(r);
    LastShuffle(isa, r, s);
  }

  /** The trimmed computation yields word 7 of the full keyed digest. */
  method Haraka512KeyedHighword(isa: Isa, input: seq<Byte>, rc: seq<Vec>, at: nat) returns (high: bv32)
    requires |input| == 64 && at + 40 <= |rc|
    ensures high == Digest512(isa, rc, at, input)[7]
  {
    var s0, s1, s2, s3 := Load(input, 0), Load(input, 16), Load(input, 32), Load(input, 48);
    ghost var s := LoadState(input);

    s0, s1, s2, s3 := Aes4(isa.aesenc, rc, at, s0, s1, s2, s3);
    s0, s1, s2, s3 := Mix4(s0, s1, s2, s3);
    assert State(s0, s1, s2, s3) == Rounds(isa.aesenc, rc, at, s, 1);

    s0, s1, s2, s3 := Aes4(isa.aesenc, rc, at + 8, s0, s1, s2, s3);
    s0, s1, s2, s3 := Mix4(s0, s1, s2, s3);
    assert State(s0, s1, s2, s3) == Rounds(isa.aesenc, rc, at, s, 2);

    s0, s1, s2, s3 := Aes4(isa.aesenc, rc, at + 16, s0, s1, s2, s3);
    s0, s1, s2, s3 := Mix4(s0, s1, s2, s3);
    assert State(s0, s1, s2, s3) == Rounds(isa.aesenc, rc, at, s, 3);

    s0, s1, s2, s3 := Aes4(isa.aesenc, rc, at + 24, s0, s1, s2, s3);
    s2 := Mix4Last(s0, s1, s2, s3);
    assert s2 == Rounds(isa.aesenc, rc, at, s, 4).s2;

    s2 := isa.aesenc(s2, rc[at + 34]);
    s2 := isa.aesenc(s2, rc[at + 38]);
    HighWord(isa, rc, at, input);

    var stateWord := s2.w2;
    var inputWord := WordAt(input, 52);
    high := isa.xor32(stateWord, inputWord);
  }

  //
  // haraka256
  //

  datatype Pair = Pair(s0: Vec, s1: Vec)

  /** One Haraka-256 round: two AES rounds per block, then interleave the columns. */
  function Round256(aes: AesRound, rc: seq<Vec>, at: nat, s: Pair): Pair
    requires at + 4 <= |rc|
  {
    var a := aes(aes(s.s0, rc[at]), rc[at + 2]);
    var b := aes(aes(s.s1, rc[at + 1]), rc[at + 3]);
    Pair(Vec(a.w0, b.w0, a.w1, b.w1), Vec(a.w2, b.w2, a.w3, b.w3))
  }

  function Rounds256(aes: AesRound, rc: seq<Vec>, at: nat, s: Pair, n: nat): Pair
    requires at + 4 * n <= |rc|
  {
    if n == 0 then s else Round256(aes, rc, at + 4 * (n - 1), Rounds256(aes, rc, at, s, n - 1))
  }

  function Digest256(isa: Isa, rc: seq<Vec>, s: Pair): Pair
    requires 20 <= |rc|
  {
    var r := Rounds256(isa.aesenc, rc, 0, s, 5);
    Pair(Xor(isa, r.s0, s.s0), Xor(isa, r.s1, s.s1))
  }

  /** `AES2` followed by `MIX2`, as they appear together everywhere. */
  method AesMix2(aes: AesRound, rc: seq<Vec>, at: nat, a0: Vec, a1: Vec) returns (s0: Vec, s1: Vec)
    requires at + 4 <= |rc|
    ensures Pair(s0, s1) == Round256(aes, rc, at, Pair(a0, a1))
  {
    s0, s1 := a0, a1;
    s0 := aes(s0, rc[at]);
    s1 := aes(s1, rc[at + 1]);
    s0 := aes(s0, rc[at + 2]);
    s1 := aes(s1, rc[at + 3]);
    var tmp := UnpackLo32(s0, s1);
    s1 := UnpackHi32(s0, s1);
    s0 := tmp;
  }

  method Haraka256(isa: Isa, rc: seq<Vec>, in0: Vec, in1: Vec) returns (s0: Vec, s1: Vec)
    requires 20 <= |rc|
    ensures Pair(s0, s1) == Digest256(isa, rc, Pair(in0, in1))
  {
    ghost var s := Pair(in0, in1);
    s0, s1 := AesMix2(isa.aesenc, rc, 0, in0, in1);
    assert Pair(s0, s1) == Rounds256(isa.aesenc, rc, 0, s, 1);
    s0, s1 := AesMix2(isa.aesenc, rc, 4, s0, s1);
    assert Pair(s0, s1) == Rounds256(isa.aesenc, rc, 0, s, 2);
    s0, s1 := AesMix2(isa.aesenc, rc, 8, s0, s1);
    assert Pair(s0, s1) == Rounds256(isa.aesenc, rc, 0, s, 3);
    s0, s1 := AesMix2(isa.aesenc, rc, 12, s0, s1);
    assert Pair(s0, s1) == Rounds256(isa.aesenc, rc, 0, s, 4);
    s0, s1 := AesMix2(isa.aesenc, rc, 16, s0, s1);
    assert Pair(s0, s1) == Rounds256(isa.aesenc, rc, 0, s, 5);
    s0 := Xor(isa, s0, in0);
    s1 := Xor(isa, s1, in1);
  }
}
