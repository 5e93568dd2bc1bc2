/** The path of the message bytes through the whole hash, seen with an exclusive or that
    returns its second operand, for every AES round, product, multiply and reduction. */
module HashLaws {
  import opened Simd
  import opened Layout
  import opened Selector
  import opened Fills
  import opened Haraka
  import opened Clhash
  import opened VerusHash
  import opened AccumulatorLaws
  import opened WordSums
  import opened CaseLaws

  //
  // Haraka
  //

  lemma Digest256Keeps(isa: Isa, rc: seq<Vec>, s: Pair)
    requires SecondOnly(isa) && 20 <= |rc|
    ensures Digest256(isa, rc, s) == s
  {
    var r := Rounds256(isa.aesenc, rc, 0, s, 5);
    Second(isa, r.s0, s.s0);
    Second(isa, r.s1, s.s1);
  }

  /** The words of the input that a truncated digest keeps. */
  function KeptWords(b: seq<Byte>): (r: seq<bv32>)
    requires |b| == 64
    ensures |r| == 8
  {
    [WordAt(b, 8), WordAt(b, 12), WordAt(b, 24), WordAt(b, 28),
     WordAt(b, 32), WordAt(b, 36), WordAt(b, 48), WordAt(b, 52)]
  }

  /** The fed-forward input alone is left of a digest. */
  lemma Digest512Keeps(isa: Isa, rc: seq<Vec>, at: nat, b: seq<Byte>)
    requires SecondOnly(isa) && at + 40 <= |rc| && |b| == 64
    ensures Digest512(isa, rc, at, b) == KeptWords(b)
  {
    var s := LoadState(b);
    var r := Rounds(isa.aesenc, rc, at, s, 5);
    Second(isa, r.s0, s.s0);
    Second(isa, r.s1, s.s1);
    Second(isa, r.s2, s.s2);
    Second(isa, r.s3, s.s3);
    Kept(b, s);
  }

  lemma Kept(b: seq<Byte>, s: State)
    requires |b| == 64 && s == LoadState(b)
    ensures Truncate(s) == KeptWords(b)
  {
  }

  lemma PairAt(b: seq<Byte>, off: nat)
    requires off + 8 <= |b|
    ensures WordBytes(WordAt(b, off)) + WordBytes(WordAt(b, off + 4)) == b[off..off + 8]
  {
    WordRoundTrip(b, off);
    WordRoundTrip(b, off + 4);
  }

  lemma BytesOfTwo(ws: seq<bv32>, p: seq<Byte>)
    requires |ws| >= 2 && WordBytes(ws[0]) + WordBytes(ws[1]) == p
    ensures BytesOfWords(ws) == p + BytesOfWords(ws[2..])
  {
    assert ws[1..][1..] == ws[2..] && ws[1..][0] == ws[1];
    Associate(WordBytes(ws[0]), WordBytes(ws[1]), BytesOfWords(ws[2..]));
  }

  lemma Associate(a: seq<Byte>, b: seq<Byte>, c: seq<Byte>)
    ensures a + (b + c) == (a + b) + c
  {
  }

  //
  // Absorbing
  //

  /** What a compression keeps of its 64 bytes. */
  function Half64(b: seq<Byte>): (r: Block)
    requires |b| == 64
  {
    b[8..16] + (b[24..32] + (b[32..40] + b[48..56]))
  }

  lemma BytesOfEight(ws: seq<bv32>, p0: seq<Byte>, p1: seq<Byte>, p2: seq<Byte>, p3: seq<Byte>)
    requires |ws| == 8 && WordBytes(ws[0]) + WordBytes(ws[1]) == p0 && WordBytes(ws[2]) + WordBytes(ws[3]) == p1
    requires WordBytes(ws[4]) + WordBytes(ws[5]) == p2 && WordBytes(ws[6]) + WordBytes(ws[7]) == p3
    ensures BytesOfWords(ws) == p0 + (p1 + (p2 + p3))
  {
    BytesOfTwo(ws, p0);
    BytesOfTwo(ws[2..], p1);
    assert ws[2..][2..] == ws[4..];
    BytesOfTwo(ws[4..], p2);
    assert ws[4..][2..] == ws[6..];
    BytesOfTwo(ws[6..], p3);
    assert ws[6..][2..] == [] && p3 + [] == p3;
  }

  lemma WordsKept(b: seq<Byte>, ws: seq<bv32>)
    requires |b| == 64 && ws == KeptWords(b)
    ensures BytesOfWords(ws) == Half64(b)
  {
    PairAt(b, 8);
    PairAt(b, 24);
    PairAt(b, 32);
    PairAt(b, 48);
    BytesOfEight(ws, b[8..16], b[24..32], b[32..40], b[48..56]);
  }

  lemma CompressKeeps(isa: Isa, rc: seq<Vec>, b: seq<Byte>)
    requires SecondOnly(isa) && |rc| == 40 && |b| == 64
    ensures Compress(isa, rc, b) == Half64(b)
  {
    Digest512Keeps(isa, rc, 0, b);
    WordsKept(b, Digest512(isa, rc, 0, b));
  }

  lemma HalfParts(state: Block, block: Block, r: Block)
    requires r == Half64(state + block)
    ensures r == state[8..16] + state[24..32] + block[..8] + block[16..24]
    ensures r[8..16] == state[24..32] && r[24..32] == block[16..24]
  {
    var b := state + block;
    assert b[8..16] == state[8..16] && b[24..32] == state[24..32];
    assert b[32..40] == block[..8] && b[48..56] == block[16..24];
  }

  /** Bytes 16 to 23 of a block reach the end of the state and move on from there. */
  lemma ThreeBlocks(s0: Block, s1: Block, s2: Block, s3: Block, b1: Block, b2: Block, b3: Block)
    requires s1 == Half64(s0 + b1) && s2 == Half64(s1 + b2) && s3 == Half64(s2 + b3)
    ensures s3 == b1[16..24] + b2[16..24] + b3[..8] + b3[16..24]
  {
    HalfParts(s0, b1, s1);
    HalfParts(s1, b2, s2);
    HalfParts(s2, b3, s3);
  }

  /** The compression keeps these bytes. */
  predicate Halves(algo: Algo, state: Block, block: Block) {
    algo.compress(state, block) == Half64(state + block)
  }

  lemma AbsorbThree(algo: Algo, data: seq<Byte>, n: nat, b1: Block, b2: Block, b3: Block)
    requires 3 <= n && 32 * n <= |data| && forall s: Block, b: Block :: Halves(algo, s, b)
    requires b1 == data[32 * (n - 3)..32 * (n - 2)] && b2 == data[32 * (n - 2)..32 * (n - 1)]
    requires b3 == data[32 * (n - 1)..32 * n]
    ensures Absorb(algo, data, n) == b1[16..24] + b2[16..24] + b3[..8] + b3[16..24]
  {
    var s0, s1 := Absorb(algo, data, n - 3), Absorb(algo, data, n - 2);
    var s2, s3 := Absorb(algo, data, n - 1), Absorb(algo, data, n);
    assert Halves(algo, s0, b1) && Halves(algo, s1, b2) && Halves(algo, s2, b3);
    ThreeBlocks(s0, s1, s2, s3, b1, b2, b3);
  }

  lemma BlockParts(data: seq<Byte>, at: nat, block: Block)
    requires at + 32 <= |data| && block == data[at..at + 32]
    ensures block[..8] == data[at..at + 8] && block[16..24] == data[at + 16..at + 24]
  {
    assert forall i :: 0 <= i < 32 ==> block[i] == data[at + i];
    assert block[..8] == data[at..at + 8];
    assert block[16..24] == data[at + 16..at + 24];
  }

  lemma LastBlocks(message: seq<Byte>, b1: Block, b2: Block, b3: Block)
    requires |message| == MESSAGE
    requires b1 == message[1376..1408] && b2 == message[1408..1440] && b3 == message[1440..1472]
    ensures b1[16..24] + b2[16..24] + b3[..8] + b3[16..24] ==
      message[1392..1400] + message[1424..1432] + message[1440..1448] + message[1456..1464]
  {
    BlockParts(message, 1376, b1);
    BlockParts(message, 1408, b2);
    BlockParts(message, 1440, b3);
  }

  lemma VerusHalves(isa: Isa, rc: seq<Vec>) returns (algo: Algo)
    requires SecondOnly(isa) && |rc| == 40
    ensures algo == Verus(isa, rc) && forall s: Block, b: Block :: Halves(algo, s, b)
  {
    algo := Verus(isa, rc);
    forall s: Block, b: Block ensures Halves(algo, s, b) {
      CompressKeeps(isa, rc, s + b);
    }
  }

  /** After 46 blocks the state holds eight bytes of each of the two blocks before the last
      and sixteen of the last. */
  lemma AbsorbKeeps(isa: Isa, rc: seq<Vec>, message: seq<Byte>)
    requires SecondOnly(isa) && |rc| == 40 && |message| == MESSAGE
    ensures Absorb(Verus(isa, rc), message, 46) ==
      message[1392..1400] + message[1424..1432] + message[1440..1448] + message[1456..1464]
  {
    var algo := VerusHalves(isa, rc);
    var b1: Block, b2: Block, b3: Block := message[1376..1408], message[1408..1440], message[1440..1472];
    AbsorbThree(algo, message, 46, b1, b2, b3);
    LastBlocks(message, b1, b2, b3);
  }

  //
  // The whole hash
  //

  lemma WordMoved(a: seq<Byte>, i: nat, b: seq<Byte>, j: nat)
    requires i + 4 <= |a| && j + 4 <= |b|
    requires a[i] == b[j] && a[i + 1] == b[j + 1] && a[i + 2] == b[j + 2] && a[i + 3] == b[j + 3]
    ensures WordAt(a, i) == WordAt(b, j)
  {
  }

  /** The final hash keeps words of the buffer and of the fill that the lane's hash makes. */
  lemma BufferHashKeeps(isa: Isa, key: seq<Vec>, buf: seq<Byte>, fill: seq<Byte>)
    requires SecondOnly(isa) && |key| >= KEY_REACH && |buf| == 64
    requires fill == Fill(Bytes64(isa.reduce64(Vec(0x10000, 0, 0, 0))))
    ensures BufferHash(isa, key, buf) ==
      [WordAt(buf, 8), WordAt(buf, 12), WordAt(buf, 24), WordAt(buf, 28), WordAt(buf, 32), WordAt(buf, 36),
       WordAt(fill, 1), WordAt(fill, 5)]
  {
    FinishKeeps(isa, key, buf);
    var lane := Finish(isa, key, buf);
    Digest512Keeps(isa, lane.key, KeyOffset(Result(isa, lane)), buf[..47] + fill);
    Behind(buf, fill, buf[..47] + fill);
  }

  lemma Behind(buf: seq<Byte>, fill: seq<Byte>, b: seq<Byte>)
    requires |buf| == 64 && |fill| == 17 && b == buf[..47] + fill
    ensures WordAt(b, 8) == WordAt(buf, 8) && WordAt(b, 12) == WordAt(buf, 12)
    ensures WordAt(b, 24) == WordAt(buf, 24) && WordAt(b, 28) == WordAt(buf, 28)
    ensures WordAt(b, 32) == WordAt(buf, 32) && WordAt(b, 36) == WordAt(buf, 36)
    ensures WordAt(b, 48) == WordAt(fill, 1) && WordAt(b, 52) == WordAt(fill, 5)
  {
    WordMoved(b, 8, buf, 8);
    WordMoved(b, 12, buf, 12);
    WordMoved(b, 24, buf, 24);
    WordMoved(b, 28, buf, 28);
    WordMoved(b, 32, buf, 32);
    WordMoved(b, 36, buf, 36);
    WordMoved(b, 48, fill, 1);
    WordMoved(b, 52, fill, 5);
  }

  /** Every message: six words of the hash are words of the message, the other two bytes 1
      to 7 and 0 of the reduced length hash. */
  lemma HashKeeps(isa: Isa, rc: seq<Vec>, m: seq<Byte>, x: seq<Byte>)
    requires SecondOnly(isa) && |rc| == 40 && |m| == MESSAGE
    requires x == Bytes64(isa.reduce64(Vec(0x10000, 0, 0, 0)))
    ensures Hash(Verus(isa, rc), m) ==
      [WordAt(m, 1424), WordAt(m, 1428), WordAt(m, 1456), WordAt(m, 1460), WordAt(m, 1472), WordAt(m, 1476),
       WordAt(x, 1), WordAt([x[5], x[6], x[7], x[0]], 0)]
  {
    AbsorbKeeps(isa, rc, m);
    var key, state, buf := TakeHash(isa, rc, m);
    BufferHashKeeps(isa, key, buf, Fill(x));
    BufferWords(m, state, buf);
    FillWords(x, Fill(x));
  }

  lemma TakeHash(isa: Isa, rc: seq<Vec>, m: seq<Byte>) returns (key: seq<Vec>, state: Block, buf: seq<Byte>)
    requires |rc| == 40 && |m| == MESSAGE
    ensures |key| == KEY_LENGTH && |buf| == 64 && Hash(Verus(isa, rc), m) == BufferHash(isa, key, buf)
    ensures state == Absorb(Verus(isa, rc), m, 46) && buf[..47] == state + m[1472..]
  {
    state := Absorb(Verus(isa, rc), m, 46);
    key, buf := Key(Verus(isa, rc), Seed(state)), Buffer(state, m[1472..]);
  }

  lemma FillWords(x: seq<Byte>, fill: seq<Byte>)
    requires |x| == 8 && fill == Fill(x)
    ensures WordAt(fill, 1) == WordAt(x, 1) && WordAt(fill, 5) == WordAt([x[5], x[6], x[7], x[0]], 0)
  {
    WordMoved(fill, 1, x, 1);
    WordMoved(fill, 5, [x[5], x[6], x[7], x[0]], 0);
  }

  lemma BufferWords(m: seq<Byte>, state: Block, buf: seq<Byte>)
    requires |m| == MESSAGE && |buf| == 64 && buf[..47] == state + m[1472..]
    requires state == m[1392..1400] + m[1424..1432] + m[1440..1448] + m[1456..1464]
    ensures WordAt(buf, 8) == WordAt(m, 1424) && WordAt(buf, 12) == WordAt(m, 1428)
    ensures WordAt(buf, 24) == WordAt(m, 1456) && WordAt(buf, 28) == WordAt(m, 1460)
    ensures WordAt(buf, 32) == WordAt(m, 1472) && WordAt(buf, 36) == WordAt(m, 1476)
  {
    assert forall i :: 0 <= i < 47 ==> buf[i] == buf[..47][i];
    WordMoved(buf, 8, m, 1424);
    WordMoved(buf, 12, m, 1428);
    WordMoved(buf, 24, m, 1456);
    WordMoved(buf, 28, m, 1460);
    WordMoved(buf, 32, m, 1472);
    WordMoved(buf, 36, m, 1476);
  }

  //
  // The key and the buffer words
  //

  lemma KeyPair(algo: Algo, seed: Pair, key: seq<Vec>, k: nat)
    requires key == Key(algo, seed) && 2 * k + 1 < KEY_LENGTH
    ensures Pair(key[2 * k], key[2 * k + 1]) == Chain(algo, seed, k)
  {
    assert (2 * k) / 2 == k && (2 * k + 1) / 2 == k;
  }

  lemma NextPair(algo: Algo, seed: Pair, key: seq<Vec>, k: nat) returns (before: Pair)
    requires key == Key(algo, seed) && 2 * k + 1 < KEY_LENGTH
    ensures before == if k == 0 then seed else Pair(key[2 * (k - 1)], key[2 * (k - 1) + 1])
    ensures Pair(key[2 * k], key[2 * k + 1]) == algo.next(before)
  {
    KeyPair(algo, seed, key, k);
    if k == 0 {
      before := seed;
    } else {
      KeyPair(algo, seed, key, k - 1);
      before := Chain(algo, seed, k - 1);
    }
  }

  lemma NextIs(isa: Isa, rc: seq<Vec>, p: Pair)
    requires |rc| == 40
    ensures Verus(isa, rc).next(p) == Digest256(isa, rc, p)
  {
  }

  /** Each pair of entries is the Haraka-256 digest of the pair before, the first that of
      the seed. */
  lemma KeyChain(isa: Isa, rc: seq<Vec>, seed: Pair, key: seq<Vec>, k: nat)
    requires |rc| == 40 && key == Key(Verus(isa, rc), seed) && 2 * k + 1 < KEY_LENGTH
    ensures Pair(key[2 * k], key[2 * k + 1]) ==
      Digest256(isa, rc, if k == 0 then seed else Pair(key[2 * (k - 1)], key[2 * (k - 1) + 1]))
  {
    var before := NextPair(Verus(isa, rc), seed, key, k);
    NextIs(isa, rc, before);
  }

  predicate Stays(algo: Algo, p: Pair) {
    algo.next(p) == p
  }

  lemma {:induction false} ChainStays(algo: Algo, seed: Pair, n: nat)
    requires Stays(algo, seed)
    ensures Chain(algo, seed, n) == seed
  {
    if n > 0 {
      ChainStays(algo, seed, n - 1);
    }
  }

  lemma KeyStays(isa: Isa, rc: seq<Vec>, seed: Pair, key: seq<Vec>)
    requires SecondOnly(isa) && |rc| == 40 && key == Key(Verus(isa, rc), seed)
    ensures key[513] == seed.s1
  {
    Digest256Keeps(isa, rc, seed);
    NextIs(isa, rc, seed);
    ChainStays(Verus(isa, rc), seed, 256);
    KeyPair(Verus(isa, rc), seed, key, 256);
  }

  /** The key is seeded with the state: bytes of the last block are where the run starts. */
  lemma SeedReached(isa: Isa, rc: seq<Vec>, m: seq<Byte>, seed: Pair, buf: seq<Byte>)
    requires SecondOnly(isa) && |rc| == 40 && |m| == MESSAGE && |buf| == 64
    requires seed == Seed(Absorb(Verus(isa, rc), m, 46))
    ensures Finish(isa, Key(Verus(isa, rc), seed), buf).acc == Load(m[1440..1448] + m[1456..1464], 0)
  {
    var key := Key(Verus(isa, rc), seed);
    AbsorbKeeps(isa, rc, m);
    KeyStays(isa, rc, seed, key);
    FinishKeeps(isa, key, buf);
    UpperHalf(m, Absorb(Verus(isa, rc), m, 46));
  }

  lemma UpperHalf(m: seq<Byte>, state: Block)
    requires |m| == MESSAGE
    requires state == m[1392..1400] + m[1424..1432] + m[1440..1448] + m[1456..1464]
    ensures Load(state, 16) == Load(m[1440..1448] + m[1456..1464], 0)
  {
    var b := m[1440..1448] + m[1456..1464];
    assert forall i :: 0 <= i < 16 ==> state[16 + i] == b[i];
    WordMoved(state, 16, b, 0);
    WordMoved(state, 20, b, 4);
    WordMoved(state, 24, b, 8);
    WordMoved(state, 28, b, 12);
  }

  /** The four buffer words of a lane hold the whole buffer: the second half as it is, and
      the first with the second added. */
  lemma PbufHoldsBuffer(isa: Isa, buf: seq<Byte>)
    requires Cancels(isa) && |buf| == 64
    ensures var p := Pbuf(isa, buf);
      && p[2] == Load(buf, 32) && p[3] == Load(buf, 48)
      && Xor(isa, p[0], p[2]) == Load(buf, 0) && Xor(isa, p[1], p[3]) == Load(buf, 16)
  {
    Takeaway(isa, Load(buf, 0), Load(buf, 32));
    Takeaway(isa, Load(buf, 16), Load(buf, 48));
  }

  lemma Takeaway(isa: Isa, x: Vec, y: Vec)
    requires Cancels(isa)
    ensures Xor(isa, Xor(isa, x, y), y) == x
  {
    Swap(isa, x, y);
    Swap(isa, Xor(isa, y, x), y);
    Cancel(isa, y, x);
  }
}
