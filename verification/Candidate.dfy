/** Hashing one candidate nonce (verus/verusscan.cpp): key generation, buffer
    preparation, the filtered final hash, and the target test of util.cpp. */
module Candidate {
  import opened Simd
  import opened Layout
  import opened Selector
  import opened Clhash
  import opened ClhashLane
  import opened KeyRestore
  import opened VerusHash
  import opened Limbs
  import opened Fills
  import Haraka

  //
  // fulltest
  //

  function ToLimb(w: bv32): Limb {
    w as nat
  }

  function ToLimbs(ws: seq<bv32>): (r: seq<Limb>)
    ensures |r| == |ws|
  {
    seq(|ws|, i requires 0 <= i < |ws| => ToLimb(ws[i]))
  }

  /** A digest or a target as a 256-bit integer. */
  function Int256(ws: Digest): nat {
    Value(ToLimbs(ws))
  }

  /** `fulltest`: does the hash, as a 256-bit integer, meet the target? */
  method FullTest(hash: seq<Limb>, target: seq<Limb>) returns (rc: bool)
    requires |hash| == |target| == 8
    ensures rc <==> Value(hash) <= Value(target)
  {
    var i := 7;
    while i >= 0
      invariant -1 <= i <= 7
      invariant hash[i + 1..] == target[i + 1..]
    {
      if hash[i] > target[i] {
        TopLimbDecides(target, hash, i);
        return false;
      }
      if hash[i] < target[i] {
        TopLimbDecides(hash, target, i);
        return true;
      }
      i := i - 1;
    }
    assert hash[i + 1..] == hash && target[i + 1..] == target;
    return true;
  }

  /** The one-word filter: a hash that meets the target has a high word that does. */
  lemma HighWordFilter(hash: Digest, target: Digest)
    requires Int256(hash) <= Int256(target)
    ensures ToLimb(hash[7]) <= ToLimb(target[7])
  {
    var h, t := ToLimbs(hash), ToLimbs(target);
    if h[7] > t[7] {
      TopLimbDecides(t, h, 7);
    }
  }

  //
  // GenNewCLKey
  //

  method GenNewCLKey(isa: Isa, rc: seq<Vec>, state: Block, key: array<Vec>, ghost algo: Algo)
    requires Implements(algo, isa, rc) && key.Length == KEY_LENGTH
    modifies key
    ensures key[..] == Key(algo, Seed(state))
  {
    ghost var seed := Seed(state);
    var src0, src1 := Load(state, 0), Load(state, 16);
    for i := 0 to KEY_LENGTH / 2
      invariant Haraka.Pair(src0, src1) == if i == 0 then seed else Chain(algo, seed, i - 1)
      invariant forall k :: 0 <= k < 2 * i ==>
                  key[k] == if k % 2 == 0 then Chain(algo, seed, k / 2).s0 else Chain(algo, seed, k / 2).s1
    {
      src0, src1 := NextKeyBlock(isa, rc, src0, src1, algo);
      key[2 * i] := src0;
      key[2 * i + 1] := src1;
    }
  }

  method NextKeyBlock(isa: Isa, rc: seq<Vec>, src0: Vec, src1: Vec, ghost algo: Algo) returns (out0: Vec, out1: Vec)
    requires Implements(algo, isa, rc)
    ensures Haraka.Pair(out0, out1) == algo.next(Haraka.Pair(src0, src1))
  {
    out0, out1 := Haraka.Haraka256(isa, rc, src0, src1);
    assert Haraka.Pair(out0, out1) == Haraka.Digest256(isa, rc, Haraka.Pair(src0, src1));
  }

  //
  // PrepareHashInput
  //

  /** `PrepareHashInput` rebuilds bytes 43 to 63, whatever the last candidate left there. */
  method PrepareHashInput(curBuf: array<Byte>, fill1: seq<Byte>, firstByte: Byte, nonce: Limb, ghost state: Block,
                          ghost space: seq<Byte>)
    requires curBuf.Length == 64 && |space| == 11 && curBuf[..43] == state + space
    requires fill1 == Rotated(state[..16]) && firstByte == state[0]
    modifies curBuf
    ensures curBuf[..] == Buffer(state, space + NonceBytes(nonce))
  {
    ghost var kept, fill := curBuf[..43], Fill(state[..16]);
    BlockFill(state[..16]);
    StoreFill(curBuf, firstByte, fill1);
    assert curBuf[..43] == kept && curBuf[47..] == fill;
    StoreNonce(curBuf, NonceBytes(nonce));
    assert state + space + NonceBytes(nonce) + fill == state + (space + NonceBytes(nonce)) + fill;
  }

  //
  // FinalizeHash
  //

  /** Does this digest, as a 256-bit integer, meet the target? */
  ghost predicate Meets(d: Digest, target: Digest) {
    Int256(d) <= Int256(target)
  }

  method StoreFinalFill(arm: bool, curBuf: array<Byte>, b: seq<Byte>)
    requires curBuf.Length == 64 && |b| == 8
    modifies curBuf
    ensures curBuf[..] == old(curBuf[..47]) + Fill(b)
  {
    Fill2Forms(arm, b);
    RepeatFill(b);
    StoreFill(curBuf, b[0], Fill2(arm, b));
  }

  /** The trimmed hash screens, the full hash decides: together they answer exactly
      whether the full hash meets the target. */
  method Screen(isa: Isa, hash: array<bv32>, buf: seq<Byte>, target: Digest, highTarget: bv32,
                key: seq<Vec>, at: nat)
    returns (valid: bool)
    requires hash.Length == 8 && |buf| == 64 && at + 40 <= |key| && highTarget == target[7]
    modifies hash
    ensures valid <==> Meets(Haraka.Digest512(isa, key, at, buf), target)
    ensures valid ==> hash[..] == Haraka.Digest512(isa, key, at, buf)
  {
    var highword := Haraka.Haraka512KeyedHighword(isa, buf, key, at);
    ghost var d := Haraka.Digest512(isa, key, at, buf);
    valid := false;
    if ToLimb(highword) <= ToLimb(highTarget) {
      var digest := Haraka.Haraka512Keyed(isa, buf, key, at);
      forall k | 0 <= k < 8 {
        hash[k] := digest[k];
      }
      assert hash[..] == digest;
      valid := FullTest(ToLimbs(digest), ToLimbs(target));
    } else {
      assert !Meets(d, target) by {
        if Meets(d, target) { HighWordFilter(d, target); }
      }
    }
  }

  /** `FinalizeHash`. */
  method FinalizeHash(isa: Isa, arm: bool, hash: array<bv32>, curBuf: array<Byte>, target: Digest, highTarget: bv32,
                      key: array<Vec>, intermediate: bv64)
    returns (valid: bool)
    requires hash.Length == 8 && curBuf.Length == 64 && key.Length >= KEY_REACH && highTarget == target[7]
    requires key as object != curBuf && key as object != hash && hash as object != curBuf
    modifies hash, curBuf
    ensures valid <==> Meets(Final(isa, old(key[..]), old(curBuf[..]), intermediate), target)
    ensures valid ==> hash[..] == Final(isa, old(key[..]), old(curBuf[..]), intermediate)
    ensures curBuf[..47] == old(curBuf[..47])
  {
    StoreFinalFill(arm, curBuf, Bytes64(intermediate));
    assert curBuf[..] == old(curBuf[..])[..47] + Fill(Bytes64(intermediate));
    valid := Screen(isa, hash, curBuf[..], target, highTarget, key[..], KeyOffset(intermediate));
  }

  //
  // verusclhashv2_2 and verusclhashv2_2_dual
  //

  /** The packed-log kernel of the ARM build. */
  method ClhashPacked(isa: Isa, key: array<Vec>, buf: seq<Byte>, touched: array<bv32>) returns (hash: bv64)
    requires |buf| == 64 && key.Length == KEY_LENGTH && touched.Length == STEPS && key as object != touched
    modifies key, touched
    ensures var lane := Finish(isa, old(key[..]), buf);
            key[..] == lane.key && hash == Result(isa, lane) && PackedAs(lane.log, touched[..])
  {
    var lane := new KernelLane(isa, true, key, buf, touched, null, null, null);
    RunLane(lane);
    hash := isa.reduce64(Xor(isa, lane.acc, LENGTH_HASH));
  }

  /** The saved-value kernel of the other builds. */
  method ClhashSaved(isa: Isa, key: array<Vec>, buf: seq<Byte>, fixrand: array<bv32>, fixrandex: array<bv32>,
                     gPrand: array<Vec>, gPrandex: array<Vec>)
    returns (hash: bv64)
    requires |buf| == 64 && key.Length == KEY_LENGTH
    requires fixrand.Length == fixrandex.Length == gPrand.Length == gPrandex.Length == STEPS
    requires fixrand != fixrandex && key != gPrand && key != gPrandex && gPrand != gPrandex
    requires key as object != fixrand && key as object != fixrandex
    requires fixrand as object != gPrand && fixrand as object != gPrandex
    requires fixrandex as object != gPrand && fixrandex as object != gPrandex
    modifies key, fixrand, fixrandex, gPrand, gPrandex
    ensures var lane := Finish(isa, old(key[..]), buf);
            && key[..] == lane.key && hash == Result(isa, lane)
            && SavedAs(lane.log, fixrand[..], fixrandex[..], gPrand[..], gPrandex[..])
  {
    var lane := new KernelLane(isa, false, key, buf, fixrand, fixrandex, gPrand, gPrandex);
    RunLane(lane);
    hash := isa.reduce64(Xor(isa, lane.acc, LENGTH_HASH));
  }

  /** `verusclhashv2_2_dual`: both results, both keys and both logs are those of two
      separate runs. */
  method ClhashDual(isa: Isa, key0: array<Vec>, buf0: seq<Byte>, touched0: array<bv32>,
                    key1: array<Vec>, buf1: seq<Byte>, touched1: array<bv32>)
    returns (hash0: bv64, hash1: bv64)
    requires |buf0| == |buf1| == 64 && key0.Length == key1.Length == KEY_LENGTH
    requires touched0.Length == touched1.Length == STEPS
    requires key0 != key1 && touched0 != touched1
    requires key0 as object != touched0 && key0 as object != touched1
    requires key1 as object != touched0 && key1 as object != touched1
    modifies key0, key1, touched0, touched1
    ensures var lane := Finish(isa, old(key0[..]), buf0);
            key0[..] == lane.key && hash0 == Result(isa, lane) && PackedAs(lane.log, touched0[..])
    ensures var lane := Finish(isa, old(key1[..]), buf1);
            key1[..] == lane.key && hash1 == Result(isa, lane) && PackedAs(lane.log, touched1[..])
  {
    var lane0 := new KernelLane(isa, true, key0, buf0, touched0, null, null, null);
    var lane1 := new KernelLane(isa, true, key1, buf1, touched1, null, null, null);
    RunDual(lane0, lane1);
    hash0 := isa.reduce64(Xor(isa, lane0.acc, LENGTH_HASH));
    hash1 := isa.reduce64(Xor(isa, lane1.acc, LENGTH_HASH));
  }

  //
  // Verus2hash
  //

  lemma PackedLogRestores(isa: Isa, key: seq<Vec>, buf: seq<Byte>, packed: seq<bv32>)
    requires |key| == KEY_LENGTH && |buf| == 64 && |packed| == STEPS
    requires PackedAs(Finish(isa, key, buf).log, packed)
    ensures Undoes(packed, Finish(isa, key, buf).key, key)
  {
    RestoreRun(VerusRule(isa, Pbuf(isa, buf)), Start(key), STEPS, packed);
  }

  lemma SavedLogRestores(isa: Isa, key: seq<Vec>, buf: seq<Byte>)
    requires |key| == KEY_LENGTH && |buf| == 64
    ensures |Finish(isa, key, buf).log| == STEPS
    ensures Undo(Finish(isa, key, buf).log, Finish(isa, key, buf).key) == key
  {
    var rule := VerusRule(isa, Pbuf(isa, buf));
    RunLog(rule, Start(key), STEPS);
    UndoRun(rule, Start(key), STEPS);
  }

  /** The outcome of hashing one candidate: the test is exact, a winner's hash is
      stored, and the prefix of the buffer survives. */
  ghost predicate Tested(algo: Algo, key: seq<Vec>, before: seq<Byte>, after: seq<Byte>, target: Digest,
                         valid: bool, hash: seq<bv32>)
    requires |before| == |after| == 64
  {
    var d := algo.finish(key, before);
    && (valid <==> Meets(d, target))
    && (valid ==> hash == d)
    && after[..47] == before[..47]
  }

  /** Copying the entries named by this packed log brings the key back. */
  ghost predicate Undoes(packed: seq<bv32>, after: seq<Vec>, key: seq<Vec>) {
    |after| == |key| && PackedInRange(packed, |key|) && Restore(packed, after, key, 0) == key
  }

  /** `FinalizeHash` on a lane that has run. */
  method FinalizeLane(isa: Isa, arm: bool, hash: array<bv32>, curBuf: array<Byte>, target: Digest, highTarget: bv32,
                      key: array<Vec>, intermediate: bv64,
                      ghost pristine: seq<Vec>, ghost algo: Algo, ghost rc: seq<Vec>)
    returns (valid: bool)
    requires Implements(algo, isa, rc) && |pristine| == KEY_LENGTH
    requires hash.Length == 8 && curBuf.Length == 64 && key.Length == KEY_LENGTH && highTarget == target[7]
    requires key as object != curBuf && key as object != hash && hash as object != curBuf
    requires var lane := algo.run(pristine, curBuf[..]);
             key[..] == lane.key && intermediate == Result(isa, lane)
    modifies hash, curBuf
    ensures Tested(algo, pristine, old(curBuf[..]), curBuf[..], target, valid, hash[..])
  {
    ghost var lane := Finish(isa, pristine, curBuf[..]);
    ghost var d := BufferHash(isa, pristine, curBuf[..]);
    valid := FinalizeHash(isa, arm, hash, curBuf, target, highTarget, key, intermediate);
    assert curBuf[..][..47] == old(curBuf[..])[..47];
  }

  /** `Verus2hash` of the ARM build. */
  method Verus2HashPacked(isa: Isa, hash: array<bv32>, curBuf: array<Byte>, target: Digest, highTarget: bv32,
                          key: array<Vec>, pristine: array<Vec>, touched: array<bv32>,
                          ghost algo: Algo, ghost rc: seq<Vec>)
    returns (valid: bool)
    requires Implements(algo, isa, rc)
    requires hash.Length == 8 && curBuf.Length == 64 && touched.Length == STEPS && highTarget == target[7]
    requires key.Length == pristine.Length == KEY_LENGTH && key != pristine && key[..] == pristine[..]
    requires key as object != curBuf && key as object != hash && key as object != touched
    requires pristine as object != touched && pristine as object != hash && pristine as object != curBuf
    requires hash != touched && hash as object != curBuf && touched as object != curBuf
    modifies hash, curBuf, key, touched
    ensures key[..] == pristine[..] == old(pristine[..])
    ensures Tested(algo, old(pristine[..]), old(curBuf[..]), curBuf[..], target, valid, hash[..])
  {
    ghost var buf, good := curBuf[..], pristine[..];
    var intermediate := ClhashPacked(isa, key, curBuf[..], touched);
    ghost var packed := touched[..];
    PackedLogRestores(isa, good, buf, packed);
    valid := FinalizeLane(isa, true, hash, curBuf, target, highTarget, key, intermediate, good, algo, rc);
    assert touched[..] == packed && key[..] == Finish(isa, good, buf).key && pristine[..] == good;
    RestoreKey(touched, key, pristine);
  }

  /** `Verus2hash` of the other builds. */
  method Verus2HashSaved(isa: Isa, hash: array<bv32>, curBuf: array<Byte>, target: Digest, highTarget: bv32,
                         key: array<Vec>, fixrand: array<bv32>, fixrandex: array<bv32>,
                         gPrand: array<Vec>, gPrandex: array<Vec>, ghost algo: Algo, ghost rc: seq<Vec>)
    returns (valid: bool)
    requires Implements(algo, isa, rc)
    requires hash.Length == 8 && curBuf.Length == 64 && key.Length == KEY_LENGTH && highTarget == target[7]
    requires fixrand.Length == fixrandex.Length == gPrand.Length == gPrandex.Length == STEPS
    requires fixrand != fixrandex && key != gPrand && key != gPrandex && gPrand != gPrandex
    requires hash != fixrand && hash != fixrandex
    requires key as object != fixrand && key as object != fixrandex && key as object != curBuf && key as object != hash
    requires fixrand as object != gPrand && fixrand as object != gPrandex && fixrand as object != curBuf
    requires fixrandex as object != gPrand && fixrandex as object != gPrandex && fixrandex as object != curBuf
    requires hash as object != curBuf && hash as object != gPrand && hash as object != gPrandex
    requires curBuf as object != gPrand && curBuf as object != gPrandex
    modifies hash, curBuf, key, fixrand, fixrandex, gPrand, gPrandex
    ensures key[..] == old(key[..])
    ensures Tested(algo, old(key[..]), old(curBuf[..]), curBuf[..], target, valid, hash[..])
  {
    ghost var buf, good := curBuf[..], key[..];
    var intermediate := ClhashSaved(isa, key, curBuf[..], fixrand, fixrandex, gPrand, gPrandex);
    ghost var log := Finish(isa, good, buf).log;
    ghost var a, b, c, d := fixrand[..], fixrandex[..], gPrand[..], gPrandex[..];
    SavedLogRestores(isa, good, buf);
    valid := FinalizeLane(isa, false, hash, curBuf, target, highTarget, key, intermediate, good, algo, rc);
    assert fixrand[..] == a && fixrandex[..] == b && gPrand[..] == c && gPrandex[..] == d;
    assert key[..] == Finish(isa, good, buf).key;
    FixKey(fixrand, fixrandex, key, gPrand, gPrandex, log);
  }
}
