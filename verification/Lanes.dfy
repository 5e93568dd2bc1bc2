/** The working memory of one scan and the hashing of one candidate, or of two
    candidates at once, in it (verus/verusscan.cpp, bodies of the scan loops). */
module Lanes {
  import opened Simd
  import opened Layout
  import opened Clhash
  import opened KeyRestore
  import opened VerusHash
  import opened Candidate
  import opened Fills
  import opened Limbs

  /** What stays fixed during a scan: the absorbed state, the first 11 bytes of the
      nonce space, the pristine key, and the target. */
  datatype Job = Job(state: Block, space: seq<Byte>, key: seq<Vec>, target: Digest)

  predicate WellFormed(job: Job) {
    |job.space| == 11 && |job.key| == KEY_LENGTH
  }

  /** The hash of a candidate nonce. */
  function CandidateHash(algo: Algo, job: Job, nonce: Limb): Digest
    requires WellFormed(job)
  {
    algo.finish(job.key, Buffer(job.state, job.space + NonceBytes(nonce)))
  }

  ghost predicate Wins(algo: Algo, job: Job, nonce: Limb)
    requires WellFormed(job)
  {
    Meets(CandidateHash(algo, job, nonce), job.target)
  }

  /** The buffers of the ARM build: two lanes, the pristine key, two packed logs. */
  class DualScratch {
    const isa: Isa
    const buf0: array<Byte>
    const buf1: array<Byte>
    const key0: array<Vec>
    const key1: array<Vec>
    const pristine: array<Vec>
    const touched0: array<bv32>
    const touched1: array<bv32>
    const vhash: array<bv32>
    const candidate: array<bv32>

    ghost const bytes: set<object> := {buf0 as object, buf1}
    ghost const vecs: set<object> := {key0 as object, key1, pristine}
    ghost const words: set<object> := {touched0 as object, touched1, vhash, candidate}
    ghost const arrays: set<object> := bytes + vecs + words

    ghost predicate Shape() {
      && buf0.Length == buf1.Length == 64 && buf0 != buf1
      && key0.Length == key1.Length == pristine.Length == KEY_LENGTH
      && key0 != key1 && key0 != pristine && key1 != pristine
      && touched0.Length == touched1.Length == STEPS && vhash.Length == candidate.Length == 8
      && touched0 != touched1 && touched0 != vhash && touched0 != candidate
      && touched1 != vhash && touched1 != candidate && vhash != candidate
      && bytes !! vecs && bytes !! words && vecs !! words
    }

    /** Between candidates: all keys pristine, buffers good up to the nonce. */
    ghost predicate Ready(job: Job)
      reads arrays
    {
      && Shape() && WellFormed(job)
      && key0[..] == job.key && key1[..] == job.key && pristine[..] == job.key
      && buf0[..43] == job.state + job.space && buf1[..43] == job.state + job.space
    }

    /** Fresh memory, as `malloc` and the stack give it: any content. */
    constructor (isa: Isa)
      ensures Shape() && this.isa == isa && fresh(arrays)
    {
      this.isa := isa;
      var b0, b1 := new Byte[64], new Byte[64];
      var k0, k1 := new Vec[KEY_LENGTH], new Vec[KEY_LENGTH];
      var p := new Vec[KEY_LENGTH];
      var t0, t1 := new bv32[STEPS], new bv32[STEPS];
      var v, c := new bv32[8], new bv32[8];
      buf0, buf1, key0, key1, pristine := b0, b1, k0, k1, p;
      touched0, touched1, vhash, candidate := t0, t1, v, c;
    }

    /** The scalar tail: one candidate on lane 0. */
    method TestOne(fill1: seq<Byte>, firstByte: Byte, nonce: Limb, target: Digest, highTarget: bv32,
                   ghost job: Job, ghost algo: Algo, ghost rc: seq<Vec>)
      returns (valid: bool)
      requires Implements(algo, isa, rc) && Ready(job) && target == job.target && highTarget == target[7]
      requires fill1 == Rotated(job.state[..16]) && firstByte == job.state[0]
      modifies arrays
      ensures Ready(job)
      ensures valid <==> Wins(algo, job, nonce)
      ensures valid ==> vhash[..] == CandidateHash(algo, job, nonce)
    {
      PrepareHashInput(buf0, fill1, firstByte, nonce, job.state, job.space);
      ghost var buf := buf0[..];
      valid := Verus2HashPacked(isa, vhash, buf0, target, highTarget, key0, pristine, touched0, algo, rc);
      KeepsPrefix(job, nonce, buf, buf0[..]);
    }

    method PreparePair(fill1: seq<Byte>, firstByte: Byte, nonce: Limb, ghost job: Job)
      requires Ready(job) && nonce + 1 < BASE
      requires fill1 == Rotated(job.state[..16]) && firstByte == job.state[0]
      modifies buf0, buf1
      ensures key0[..] == job.key && key1[..] == job.key && pristine[..] == job.key
      ensures buf0[..] == Buffer(job.state, job.space + NonceBytes(nonce))
      ensures buf1[..] == Buffer(job.state, job.space + NonceBytes(nonce + 1))
    {
      PrepareHashInput(buf0, fill1, firstByte, nonce, job.state, job.space);
      assert buf1[..43] == job.state + job.space;
      ghost var b0 := buf0[..];
      PrepareHashInput(buf1, fill1, firstByte, nonce + 1, job.state, job.space);
      assert buf0[..] == b0;
      assert key0[..] == job.key && key1[..] == job.key && pristine[..] == job.key;
    }

    /** A lane has run its kernel on this buffer and holds a log that undoes it. */
    ghost predicate Ran(algo: Algo, key: seq<Vec>, buf: seq<Byte>, after: seq<Vec>, inter: bv64, packed: seq<bv32>) {
      var lane := algo.run(key, buf);
      after == lane.key && inter == Result(isa, lane) && Undoes(packed, after, key)
    }

    /** One round of the dual loop, up to the two kernel results. */
    method RunPair(ghost key: seq<Vec>, ghost algo: Algo, ghost rc: seq<Vec>) returns (inter0: bv64, inter1: bv64)
      requires Implements(algo, isa, rc) && Shape() && |key| == KEY_LENGTH
      requires key0[..] == key && key1[..] == key && pristine[..] == key
      modifies key0, key1, touched0, touched1
      ensures pristine[..] == key && buf0[..] == old(buf0[..]) && buf1[..] == old(buf1[..])
      ensures Ran(algo, key, buf0[..], key0[..], inter0, touched0[..])
      ensures Ran(algo, key, buf1[..], key1[..], inter1, touched1[..])
    {
      inter0, inter1 := ClhashDual(isa, key0, buf0[..], touched0, key1, buf1[..], touched1);
      PackedLogRestores(isa, key, buf0[..], touched0[..]);
      PackedLogRestores(isa, key, buf1[..], touched1[..]);
    }

    /** The final hash and test of one lane of a pair. */
    method FinalizeOne(curBuf: array<Byte>, key: array<Vec>, inter: bv64, nonce: Limb, target: Digest, highTarget: bv32,
                       ghost packed: seq<bv32>, ghost job: Job, ghost algo: Algo, ghost rc: seq<Vec>)
      returns (valid: bool)
      requires Implements(algo, isa, rc) && Shape() && WellFormed(job)
      requires target == job.target && highTarget == target[7]
      requires curBuf in bytes && key in vecs && curBuf.Length == 64 && key.Length == KEY_LENGTH
      requires curBuf[..] == Buffer(job.state, job.space + NonceBytes(nonce))
      requires Ran(algo, job.key, curBuf[..], key[..], inter, packed)
      modifies curBuf, candidate
      ensures curBuf[..43] == job.state + job.space
      ensures valid <==> Wins(algo, job, nonce)
      ensures valid ==> candidate[..] == CandidateHash(algo, job, nonce)
    {
      ghost var b := curBuf[..];
      valid := FinalizeLane(isa, true, candidate, curBuf, target, highTarget, key, inter, job.key, algo, rc);
      KeepsPrefix(job, nonce, b, curBuf[..]);
    }

    method FinalizePair(inter0: bv64, inter1: bv64, nonce: Limb, target: Digest, highTarget: bv32,
                        ghost job: Job, ghost algo: Algo, ghost rc: seq<Vec>)
      returns (found: bool, foundNonce: Limb)
      requires Implements(algo, isa, rc) && Shape() && WellFormed(job) && nonce + 1 < BASE
      requires target == job.target && highTarget == target[7]
      requires buf0[..] == Buffer(job.state, job.space + NonceBytes(nonce))
      requires buf1[..] == Buffer(job.state, job.space + NonceBytes(nonce + 1))
      requires Ran(algo, job.key, buf0[..], key0[..], inter0, touched0[..])
      requires Ran(algo, job.key, buf1[..], key1[..], inter1, touched1[..])
      modifies buf0, buf1, vhash, candidate
      ensures buf0[..43] == job.state + job.space && buf1[..43] == job.state + job.space
      ensures found <==> Wins(algo, job, nonce) || Wins(algo, job, nonce + 1)
      ensures found ==> foundNonce == if Wins(algo, job, nonce) then nonce else nonce + 1
      ensures found ==> vhash[..] == CandidateHash(algo, job, foundNonce)
    {
      ghost var b1 := buf1[..];
      found, foundNonce :=
        TakeLane(buf0, key0, inter0, nonce, target, highTarget, touched0[..], false, 0, job, algo, rc);
      assert buf1[..] == b1;
      found, foundNonce :=
        TakeLane(buf1, key1, inter1, nonce + 1, target, highTarget, touched1[..], found, foundNonce, job, algo, rc);
    }

    /** The body of the loop over the lanes: the first winner is kept. */
    method TakeLane(curBuf: array<Byte>, key: array<Vec>, inter: bv64, nonce: Limb, target: Digest, highTarget: bv32,
                    ghost packed: seq<bv32>, found0: bool, foundNonce0: Limb,
                    ghost job: Job, ghost algo: Algo, ghost rc: seq<Vec>)
      returns (found: bool, foundNonce: Limb)
      requires Implements(algo, isa, rc) && Shape() && WellFormed(job)
      requires target == job.target && highTarget == target[7]
      requires curBuf in bytes && key in vecs && curBuf.Length == 64 && key.Length == KEY_LENGTH
      requires curBuf[..] == Buffer(job.state, job.space + NonceBytes(nonce))
      requires Ran(algo, job.key, curBuf[..], key[..], inter, packed)
      requires found0 ==> vhash[..] == CandidateHash(algo, job, foundNonce0)
      modifies curBuf, vhash, candidate
      ensures curBuf[..43] == job.state + job.space
      ensures found <==> found0 || Wins(algo, job, nonce)
      ensures foundNonce == if !found0 && found then nonce else foundNonce0
      ensures found ==> vhash[..] == CandidateHash(algo, job, foundNonce)
    {
      found, foundNonce := found0, foundNonce0;
      ghost var kept := vhash[..];
      var laneFound := FinalizeOne(curBuf, key, inter, nonce, target, highTarget, packed, job, algo, rc);
      assert vhash[..] == kept;
      if laneFound && !found {
        CopyHash();
        found, foundNonce := true, nonce;
      }
    }

    method CopyHash()
      requires Shape()
      modifies vhash
      ensures vhash[..] == candidate[..]
    {
      forall k | 0 <= k < 8 {
        vhash[k] := candidate[k];
      }
    }

    method RestorePair(ghost key: seq<Vec>)
      requires Shape() && |key| == KEY_LENGTH && pristine[..] == key
      requires Undoes(touched0[..], key0[..], key) && Undoes(touched1[..], key1[..], key)
      modifies key0, key1
      ensures key0[..] == key && key1[..] == key && pristine[..] == key
    {
      ghost var t1, k1 := touched1[..], key1[..];
      RestoreKey(touched0, key0, pristine);
      assert touched1[..] == t1 && key1[..] == k1 && pristine[..] == key;
      RestoreKey(touched1, key1, pristine);
    }

    /** One round of the dual loop: two neighbouring nonces, the smaller winner first. */
    method TestPair(fill1: seq<Byte>, firstByte: Byte, nonce: Limb, target: Digest, highTarget: bv32,
                    ghost job: Job, ghost algo: Algo, ghost rc: seq<Vec>)
      returns (found: bool, foundNonce: Limb)
      requires Implements(algo, isa, rc) && Ready(job) && target == job.target && highTarget == target[7]
      requires fill1 == Rotated(job.state[..16]) && firstByte == job.state[0] && nonce + 1 < BASE
      modifies arrays
      ensures Ready(job)
      ensures found <==> Wins(algo, job, nonce) || Wins(algo, job, nonce + 1)
      ensures found ==> foundNonce == if Wins(algo, job, nonce) then nonce else nonce + 1
      ensures found ==> vhash[..] == CandidateHash(algo, job, foundNonce)
    {
      found, foundNonce := HashPair(fill1, firstByte, nonce, target, highTarget, job, algo, rc);
      RestorePair(job.key);
    }

    /** Two candidates, up to but not including the restoring of their keys. */
    method HashPair(fill1: seq<Byte>, firstByte: Byte, nonce: Limb, target: Digest, highTarget: bv32,
                    ghost job: Job, ghost algo: Algo, ghost rc: seq<Vec>)
      returns (found: bool, foundNonce: Limb)
      requires Implements(algo, isa, rc) && Ready(job) && target == job.target && highTarget == target[7]
      requires fill1 == Rotated(job.state[..16]) && firstByte == job.state[0] && nonce + 1 < BASE
      modifies arrays
      ensures pristine[..] == job.key
      ensures Undoes(touched0[..], key0[..], job.key) && Undoes(touched1[..], key1[..], job.key)
      ensures buf0[..43] == job.state + job.space && buf1[..43] == job.state + job.space
      ensures found <==> Wins(algo, job, nonce) || Wins(algo, job, nonce + 1)
      ensures found ==> foundNonce == if Wins(algo, job, nonce) then nonce else nonce + 1
      ensures found ==> vhash[..] == CandidateHash(algo, job, foundNonce)
    {
      PreparePair(fill1, firstByte, nonce, job);
      var inter0, inter1 := RunPair(job.key, algo, rc);
      ghost var k0, k1, t0, t1 := key0[..], key1[..], touched0[..], touched1[..];
      found, foundNonce := FinalizePair(inter0, inter1, nonce, target, highTarget, job, algo, rc);
      assert key0[..] == k0 && key1[..] == k1 && touched0[..] == t0 && touched1[..] == t1 && pristine[..] == job.key;
    }
  }

  /** The buffers of the other builds: one lane and the saved-value log. */
  class SavedScratch {
    const isa: Isa
    const buf: array<Byte>
    const key: array<Vec>
    const gPrand: array<Vec>
    const gPrandex: array<Vec>
    const fixrand: array<bv32>
    const fixrandex: array<bv32>
    const vhash: array<bv32>

    ghost const bytes: set<object> := {buf as object}
    ghost const vecs: set<object> := {key as object, gPrand, gPrandex}
    ghost const words: set<object> := {fixrand as object, fixrandex, vhash}
    ghost const arrays: set<object> := bytes + vecs + words

    ghost predicate Shape() {
      && buf.Length == 64 && key.Length == KEY_LENGTH && vhash.Length == 8
      && gPrand.Length == gPrandex.Length == fixrand.Length == fixrandex.Length == STEPS
      && key != gPrand && key != gPrandex && gPrand != gPrandex
      && fixrand != fixrandex && fixrand != vhash && fixrandex != vhash
      && bytes !! vecs && bytes !! words && vecs !! words
    }

    ghost predicate Ready(job: Job)
      reads arrays
    {
      && Shape() && WellFormed(job)
      && key[..] == job.key && buf[..43] == job.state + job.space
    }

    constructor (isa: Isa)
      ensures Shape() && this.isa == isa && fresh(arrays)
    {
      this.isa := isa;
      var b := new Byte[64];
      var k := new Vec[KEY_LENGTH];
      var g, h := new Vec[STEPS], new Vec[STEPS];
      var f, e := new bv32[STEPS], new bv32[STEPS];
      var v := new bv32[8];
      buf, key, gPrand, gPrandex, fixrand, fixrandex, vhash := b, k, g, h, f, e, v;
    }

    method TestOne(fill1: seq<Byte>, firstByte: Byte, nonce: Limb, target: Digest, highTarget: bv32,
                   ghost job: Job, ghost algo: Algo, ghost rc: seq<Vec>)
      returns (valid: bool)
      requires Implements(algo, isa, rc) && Ready(job) && target == job.target && highTarget == target[7]
      requires fill1 == Rotated(job.state[..16]) && firstByte == job.state[0]
      modifies arrays
      ensures Ready(job)
      ensures valid <==> Wins(algo, job, nonce)
      ensures valid ==> vhash[..] == CandidateHash(algo, job, nonce)
    {
      PrepareHashInput(buf, fill1, firstByte, nonce, job.state, job.space);
      assert key[..] == job.key;
      ghost var before := buf[..];
      valid :=
        Verus2HashSaved(isa, vhash, buf, target, highTarget, key, fixrand, fixrandex, gPrand, gPrandex, algo, rc);
      KeepsPrefix(job, nonce, before, buf[..]);
    }
  }

  /** A buffer that kept its first 47 bytes is ready for the next nonce. */
  lemma KeepsPrefix(job: Job, nonce: Limb, before: seq<Byte>, after: seq<Byte>)
    requires WellFormed(job) && |before| == |after| == 64
    requires before == Buffer(job.state, job.space + NonceBytes(nonce)) && after[..47] == before[..47]
    ensures after[..43] == job.state + job.space
  {
    assert before[..43] == job.state + job.space;
    assert after[..43] == after[..47][..43] == before[..47][..43];
  }
}
