/** The share path (verus/stratum.cpp): the target received from the pool and the share
    sent back. */
module Stratum {
  import opened Simd
  import opened Layout
  import opened ShareText
  import opened Limbs
  import opened VerusHash
  import opened Candidate
  import opened ScanHash
  import opened Hex
  import opened Octets
  import opened Target

  //
  // The stored bytes as the words that fulltest compares
  //

  function WordsOf(b: seq<Byte>): (r: seq<bv32>)
    ensures |r| == |b| / 4
  {
    if |b| < 4 then [] else [WordAt(b, 0)] + WordsOf(b[4..])
  }

  lemma {:induction false} WordsValue(b: seq<Byte>)
    requires |b| % 4 == 0
    ensures Value(ToLimbs(WordsOf(b))) == StoredValue(b)
  {
    if b != [] {
      FourBytes(b);
      WordsValue(b[4..]);
      assert ToLimbs(WordsOf(b))[1..] == ToLimbs(WordsOf(b[4..]));
    }
  }

  /** A hash that passes against the stored target meets the pool's; one that meets the
      pool's and does not pass lies within one part in 2^56 below it. */
  lemma PoolTarget(bin: seq<Byte>, n: nat, stored: seq<Byte>, hash: Digest)
    requires |bin| == 32 && StopsAt(bin, n) && KeepsFirst(bin, n, stored)
    ensures Meets(hash, WordsOf(stored)) ==> Int256(hash) <= PoolValue(bin)
    ensures !Meets(hash, WordsOf(stored)) && Int256(hash) <= PoolValue(bin) ==> Close(Int256(hash), PoolValue(bin))
  {
    WordsValue(stored);
    StoredTarget(bin, n, stored);
    var p, s, h := PoolValue(bin), StoredValue(stored), Int256(hash);
    if !Meets(hash, WordsOf(stored)) && h <= p {
      CloserYet(s, h, p);
    }
  }

  //
  // verus_stratum_submit
  //

  /** After a scan that recorded a solution, the solution string of the share decodes to
      the three-byte length, the first 1329 bytes of the pool's solution and the 15 nonce
      bytes of the winning message ... */
  lemma ShareSolution(algo: Algo, solution: seq<Byte>, target: Digest, before: View, after: View,
                      stop: nat -> bool, nonce: Limb, vhash: seq<bv32>)
    requires ViewShape(before) && ViewShape(after) && |solution| == SOLUTION && before.valid < MAX_NONCES
    requires Recorded(algo, solution, target, before, after, stop, nonce, vhash)
    ensures Unhex(HexOf(Spliced(after.extra[..1347], solution)))
         == PREFIX + solution[..1329] + Space(before.data, solution) + NonceBytes(nonce)
  {
    SubmittedParts(after.data, after.extra, after.nonces[before.valid]);
    SpliceUndoesClearing(before.data, solution, nonce);
    UnhexHex(Spliced(after.extra[..1347], solution));
  }

  /** ... and, when the pool's prefix leaves room, its nonce string to the nonce field of
      that message's header. */
  lemma ShareNonce(algo: Algo, solution: seq<Byte>, target: Digest, before: View, after: View,
                   stop: nat -> bool, nonce: Limb, vhash: seq<bv32>, skip: nat, garbage: string, s: string)
    requires ViewShape(before) && ViewShape(after) && |solution| == SOLUTION && before.valid < MAX_NONCES
    requires Recorded(algo, solution, target, before, after, stop, nonce, vhash)
    requires skip < 32 && |garbage| == 2 * (32 - skip) + 1
    requires IsCString(NonceBuffer(after.data, after.nonces[before.valid], skip, garbage), s)
    ensures Unhex(s) == Message(before.data, solution, nonce)[108..HEADER][skip..]
  {
    var word := after.nonces[before.valid];
    SubmittedParts(after.data, after.extra, word);
    NonceString(after.data, word, skip, garbage, s);
    UnhexHex(NonceField(after.data, word)[skip..]);
  }

  /** From the pool and back: a share recorded against the stored target is a message
      whose hash, computed from scratch, meets the target the pool sent. */
  lemma ShareMeetsPool(algo: Algo, solution: seq<Byte>, bin: seq<Byte>, n: nat, stored: seq<Byte>,
                       before: View, after: View, stop: nat -> bool, nonce: Limb, vhash: seq<bv32>)
    requires |bin| == 32 && StopsAt(bin, n) && KeepsFirst(bin, n, stored)
    requires ViewShape(before) && ViewShape(after) && |solution| == SOLUTION && before.valid < MAX_NONCES
    requires Recorded(algo, solution, WordsOf(stored), before, after, stop, nonce, vhash)
    ensures Int256(Hash(algo, Submitted(after.data, after.extra, after.nonces[before.valid]))) <= PoolValue(bin)
  {
    PoolTarget(bin, n, stored, Hash(algo, Submitted(after.data, after.extra, after.nonces[before.valid])));
  }
}
