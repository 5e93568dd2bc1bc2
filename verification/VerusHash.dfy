/** VerusHash 2.2 of a whole message, and the pieces the scanner uses to compute it
    incrementally (verus/verusscan.cpp). */
module VerusHash {
  import opened Simd
  import opened Selector
  import opened Fills
  import opened Layout
  import opened Clhash
  import opened Haraka

  type Block = b: seq<Byte> | |b| == 32 witness Zeros(32)

  type Digest = d: seq<bv32> | |d| == 8 witness [0, 0, 0, 0, 0, 0, 0, 0]

  //
  // Reference: the hash of a message, from scratch, over its three primitives
  //

  /** The primitives of the message hash: absorbing a block into the state, the next
      block of the key chain, the kernel run over a prepared 64-byte buffer under a
      fresh key, and the whole hash of such a buffer. */
  datatype Algo = Algo(
    compress: (Block, Block) -> Block,
    next: Pair -> Pair,
    run: (seq<Vec>, seq<Byte>) -> Lane,
    finish: (seq<Vec>, seq<Byte>) -> Digest)

  /** The state after the first n 32-byte blocks: a left fold of the compression. */
  function Absorb(algo: Algo, data: seq<Byte>, n: nat): Block
    requires 32 * n <= |data|
  {
    if n == 0 then Zeros(32)
    else algo.compress(Absorb(algo, data, n - 1), data[32 * (n - 1)..32 * n])
  }

  /** State, 15 unabsorbed bytes, filler. */
  function Buffer(state: Block, tail: seq<Byte>): (r: seq<Byte>)
    requires |tail| == 15
    ensures |r| == 64
  {
    state + tail + Fill(state[..16])
  }

  /** The key chain: each block is derived from the one before, the first from the seed. */
  function Chain(algo: Algo, seed: Pair, n: nat): Pair {
    algo.next(if n == 0 then seed else Chain(algo, seed, n - 1))
  }

  function Seed(state: Block): Pair {
    Pair(Load(state, 0), Load(state, 16))
  }

  function Key(algo: Algo, seed: Pair): (r: seq<Vec>)
    ensures |r| == KEY_LENGTH
  {
    seq(KEY_LENGTH, k requires 0 <= k < KEY_LENGTH =>
      if k % 2 == 0 then Chain(algo, seed, k / 2).s0 else Chain(algo, seed, k / 2).s1)
  }

  /** VerusHash 2.2 of a 1487-byte message: 46 absorbed blocks and 15 bytes of nonce space. */
  function Hash(algo: Algo, message: seq<Byte>): Digest
    requires |message| == MESSAGE
  {
    var state := Absorb(algo, message, 46);
    algo.finish(Key(algo, Seed(state)), Buffer(state, message[1472..]))
  }

  /** The state depends only on the absorbed bytes. */
  lemma {:induction false} AbsorbPrefix(algo: Algo, a: seq<Byte>, b: seq<Byte>, n: nat)
    requires 32 * n <= |a| && 32 * n <= |b| && a[..32 * n] == b[..32 * n]
    ensures Absorb(algo, a, n) == Absorb(algo, b, n)
  {
    if n > 0 {
      assert a[..32 * (n - 1)] == a[..32 * n][..32 * (n - 1)] == b[..32 * (n - 1)];
      assert a[32 * (n - 1)..32 * n] == a[..32 * n][32 * (n - 1)..] == b[32 * (n - 1)..32 * n];
      AbsorbPrefix(algo, a, b, n - 1);
    }
  }

  //
  // The primitives of VerusHash 2.2
  //

  function BytesOfWords(ws: seq<bv32>): (r: seq<Byte>)
    ensures |r| == 4 * |ws|
  {
    if ws == [] then [] else WordBytes(ws[0]) + BytesOfWords(ws[1..])
  }

  /** Haraka-512 under the global constants, 64 bytes to 32. */
  function Compress(isa: Isa, rc: seq<Vec>, b: seq<Byte>): (r: Block)
    requires |rc| == 40 && |b| == 64
  {
    BytesOfWords(Digest512(isa, rc, 0, b))
  }

  /** The final keyed Haraka-512, over the mutated key. */
  function Final(isa: Isa, key: seq<Vec>, buf: seq<Byte>, inter: bv64): Digest
    requires |key| >= KEY_REACH && |buf| == 64
  {
    Digest512(isa, key, KeyOffset(inter), buf[..47] + Fill(Bytes64(inter)))
  }

  /** The hash of a prepared buffer under a fresh key. */
  function BufferHash(isa: Isa, key: seq<Vec>, buf: seq<Byte>): Digest
    requires |key| >= KEY_REACH && |buf| == 64
  {
    var lane := Finish(isa, key, buf);
    Final(isa, lane.key, buf, Result(isa, lane))
  }

  function Verus(isa: Isa, rc: seq<Vec>): Algo
    requires |rc| == 40
  {
    Algo(
      (state: Block, block: Block) => Compress(isa, rc, state + block),
      (p: Pair) => Digest256(isa, rc, p),
      (key: seq<Vec>, buf: seq<Byte>) =>
        if |key| >= KEY_REACH && |buf| == 64 then Finish(isa, key, buf) else Lane(ZERO, [], []),
      (key: seq<Vec>, buf: seq<Byte>) =>
        if |key| >= KEY_REACH && |buf| == 64 then BufferHash(isa, key, buf) else [0, 0, 0, 0, 0, 0, 0, 0])
  }

  /** algo is VerusHash 2.2 over these instructions and constants. The proofs about
      whole scans use algo by name and look inside only where a primitive runs. */
  ghost predicate Implements(algo: Algo, isa: Isa, rc: seq<Vec>) {
    && |rc| == 40
    && (forall s: Block, b: Block {:trigger Compress(isa, rc, s + b)} ::
          algo.compress(s, b) == Compress(isa, rc, s + b))
    && (forall p {:trigger Digest256(isa, rc, p)} :: algo.next(p) == Digest256(isa, rc, p))
    && (forall key: seq<Vec>, buf: seq<Byte> {:trigger Finish(isa, key, buf)} ::
          |key| >= KEY_REACH && |buf| == 64 ==> algo.run(key, buf) == Finish(isa, key, buf))
    && (forall key: seq<Vec>, buf: seq<Byte> {:trigger BufferHash(isa, key, buf)} ::
          |key| >= KEY_REACH && |buf| == 64 ==> algo.finish(key, buf) == BufferHash(isa, key, buf))
  }

  lemma VerusImplements(isa: Isa, rc: seq<Vec>)
    requires |rc| == 40
    ensures Implements(Verus(isa, rc), isa, rc)
  {
  }

  //
  // VerusHashHalf
  //

  /** The upper half of the buffer that is current after n blocks. The two buffers
      are swapped after each block, so it holds the block before last, or, early on,
      the zeroed first buffer and the uninitialised second one. */
  function Stale(data: seq<Byte>, garbage: seq<Byte>, n: nat): (r: seq<Byte>)
    requires |garbage| == 64 && 32 * (n - 1) <= |data|
    ensures |r| == 32
  {
    if n == 0 then Zeros(32) else if n == 1 then garbage[32..] else data[32 * (n - 2)..32 * (n - 1)]
  }

  /** What `VerusHashHalf` leaves for data of any length. */
  function Half(algo: Algo, data: seq<Byte>, garbage: seq<Byte>): (r: seq<Byte>)
    requires |garbage| == 64
    ensures |r| == 64
  {
    var n := |data| / 32;
    var state := Absorb(algo, data, n);
    var upper := data[32 * n..] + Stale(data, garbage, n)[|data| % 32..];
    state + upper[..15] + Fill(state[..16])
  }

  /** A full block: copy it behind the state and compress into the other buffer. */
  method AbsorbBlock(isa: Isa, rc: seq<Vec>, curBuf: array<Byte>, result: array<Byte>, block: Block,
                     ghost state: Block, ghost algo: Algo)
    requires Implements(algo, isa, rc) && curBuf != result
    requires curBuf.Length == result.Length == 64 && curBuf[..32] == state
    modifies curBuf, result
    ensures curBuf[32..] == block
    ensures result[..32] == algo.compress(state, block) && result[32..] == old(result[32..])
  {
    CopyTo(curBuf, 32, block);
    assert curBuf[..] == state + block;
    var words := Haraka512Keyed(isa, curBuf[..], rc, 0);
    ghost var digest := Compress(isa, rc, state + block);
    CopyTo(result, 0, BytesOfWords(words));
    assert result[..32] == digest;
  }

  /** The filler: bytes 47..63 repeat the start of the state. */
  method AppendFill(curBuf: array<Byte>)
    requires curBuf.Length == 64
    modifies curBuf
    ensures curBuf[..] == old(curBuf[..47]) + Fill(old(curBuf[..16]))
  {
    ghost var first := curBuf[..16];
    CopyTo(curBuf, 47, curBuf[..16]);
    CopyTo(curBuf, 63, curBuf[..1]);
    assert curBuf[..] == old(curBuf[..47]) + first + first[..1];
    assert first + first[..1] == Fill(first);
  }

  /** The two buffers after n full blocks and curPos bytes of the last, partial one. */
  ghost predicate Absorbed(algo: Algo, data: seq<Byte>, garbage: seq<Byte>, n: nat, curPos: nat,
                           cur: seq<Byte>, other: seq<Byte>)
    requires |garbage| == 64
  {
    && 32 * n + curPos <= |data| && curPos < 32
    && |cur| == |other| == 64
    && cur[..32] == Absorb(algo, data, n)
    && (curPos == 0 ==> cur[32..] == Stale(data, garbage, n) && other[32..] == Stale(data, garbage, n + 1))
    && (curPos > 0 ==>
          32 * n + curPos == |data| && cur[32..] == data[32 * n..] + Stale(data, garbage, n)[curPos..])
  }

  lemma AbsorbedBlock(algo: Algo, data: seq<Byte>, garbage: seq<Byte>, n: nat, cur: seq<Byte>, other: seq<Byte>,
                      cur': seq<Byte>, other': seq<Byte>)
    requires |garbage| == 64 && Absorbed(algo, data, garbage, n, 0, cur, other) && 32 * (n + 1) <= |data|
    requires |cur'| == |other'| == 64 && cur'[32..] == data[32 * n..32 * (n + 1)] && other'[32..] == other[32..]
    requires other'[..32] == algo.compress(Absorb(algo, data, n), data[32 * n..32 * (n + 1)])
    ensures Absorbed(algo, data, garbage, n + 1, 0, other', cur')
  {
  }

  lemma AbsorbedTail(algo: Algo, data: seq<Byte>, garbage: seq<Byte>, n: nat, cur: seq<Byte>, other: seq<Byte>,
                     cur': seq<Byte>)
    requires |garbage| == 64 && Absorbed(algo, data, garbage, n, 0, cur, other)
    requires 32 * n < |data| < 32 * (n + 1)
    requires cur' == cur[..32] + data[32 * n..] + cur[32 + |data| - 32 * n..]
    ensures Absorbed(algo, data, garbage, n, |data| - 32 * n, cur', other)
  {
    var r := |data| - 32 * n;
    assert cur'[..32] == cur[..32];
    assert cur'[32..] == data[32 * n..] + cur[32..][r..];
  }

  lemma AbsorbedAll(algo: Algo, data: seq<Byte>, garbage: seq<Byte>, n: nat, curPos: nat,
                    cur: seq<Byte>, other: seq<Byte>)
    requires |garbage| == 64 && Absorbed(algo, data, garbage, n, curPos, cur, other)
    requires 32 * n + curPos == |data|
    ensures cur[..47] + Fill(cur[..16]) == Half(algo, data, garbage)
  {
    var state: Block := cur[..32];
    assert n == |data| / 32 && curPos == |data| % 32;
    var upper := data[32 * n..] + Stale(data, garbage, n)[curPos..];
    assert cur[32..] == upper;
    assert cur[..47] == state + upper[..15];
    assert cur[..16] == state[..16];
  }

  /** `VerusHashHalf`; `garbage` is the indeterminate content of the second buffer. */
  method VerusHashHalf(isa: Isa, rc: seq<Vec>, data: seq<Byte>, garbage: seq<Byte>, ghost algo: Algo)
    returns (result2: seq<Byte>)
    requires Implements(algo, isa, rc) && |garbage| == 64
    ensures result2 == Half(algo, data, garbage)
  {
    var curBuf := new Byte[64](_ => 0);
    var result := new Byte[64](k requires 0 <= k < 64 => garbage[k]);
    var curPos: nat, pos: nat := 0, 0;
    ghost var n: nat := 0;
    assert curBuf[..32] == Zeros(32) && curBuf[32..] == Zeros(32);
    assert result[32..] == garbage[32..];
    while pos < |data|
      invariant fresh(curBuf) && fresh(result) && curBuf != result && pos == 32 * n + curPos
      invariant Absorbed(algo, data, garbage, n, curPos, curBuf[..], result[..])
    {
      var room := 32 - curPos;
      ghost var cur, other := curBuf[..], result[..];
      if |data| - pos >= room {
        AbsorbBlock(isa, rc, curBuf, result, data[pos..pos + room], Absorb(algo, data, n), algo);
        AbsorbedBlock(algo, data, garbage, n, cur, other, curBuf[..], result[..]);
        curBuf, result := result, curBuf;
        pos := pos + room;
        curPos := 0;
        n := n + 1;
      } else {
        CopyTo(curBuf, 32 + curPos, data[pos..]);
        AbsorbedTail(algo, data, garbage, n, cur, other, curBuf[..]);
        curPos := curPos + (|data| - pos);
        pos := |data|;
      }
    }
    AbsorbedAll(algo, data, garbage, n, curPos, curBuf[..], result[..]);
    AppendFill(curBuf);
    result2 := curBuf[..];
  }

  /** The indeterminate bytes reach the result exactly for lengths 32 to 46; in
      particular never for the 1487 bytes the scanner hashes. */
  lemma HalfIsDeterminate(algo: Algo, data: seq<Byte>)
    ensures (forall g, h :: |g| == 64 && |h| == 64 ==> Half(algo, data, g) == Half(algo, data, h))
       <==> !(32 <= |data| < 47)
  {
    if 32 <= |data| < 47 {
      var g: seq<Byte>, h: seq<Byte> := Zeros(64), seq(64, _ => 1);
      var r := |data| - 32;
      assert Half(algo, data, g)[32 + r] == g[32 + r];
      assert Half(algo, data, h)[32 + r] == h[32 + r];
    } else {
      forall g, h | |g| == 64 && |h| == 64 ensures Half(algo, data, g) == Half(algo, data, h) {
        HalfIgnores(algo, data, g, h);
      }
    }
  }

  lemma HalfIgnores(algo: Algo, data: seq<Byte>, g: seq<Byte>, h: seq<Byte>)
    requires |g| == 64 && |h| == 64 && !(32 <= |data| < 47)
    ensures Half(algo, data, g) == Half(algo, data, h)
  {
    var n, r := |data| / 32, |data| % 32;
    if n == 1 {
      assert (data[32..] + g[32..][r..])[..15] == data[32..][..15] == (data[32..] + h[32..][r..])[..15];
    } else {
      assert Stale(data, g, n) == Stale(data, h, n);
    }
  }

  /** For a message of the scanner's shape the result is the prepared hash buffer. */
  lemma HalfIsBuffer(algo: Algo, data: seq<Byte>, garbage: seq<Byte>)
    requires |data| % 32 == 15 && |garbage| == 64
    ensures Half(algo, data, garbage) == Buffer(Absorb(algo, data, |data| / 32), data[|data| - 15..])
  {
    var n := |data| / 32;
    assert (data[32 * n..] + Stale(data, garbage, n)[15..])[..15] == data[32 * n..];
  }
}
