/** Putting the mutated key back (verus/verusscan.cpp): the ARM build copies touched
    entries from a pristine key, the other builds replay the saved entries backwards. */
module KeyRestore {
  import opened Simd
  import opened Selector
  import opened Clhash

  /** The two indices of a packed log word: first in the low half, second in the high half. */
  function First(packed: bv32): nat {
    Index(packed & 0xffff)
  }

  function Second(packed: bv32): nat {
    Index(packed >> 16)
  }

  lemma PackRoundTrip(prand: bv32, prandex: bv32)
    requires prand <= 511 && prandex <= 511
    ensures First(prand | (prandex << 16)) == Index(prand)
    ensures Second(prand | (prandex << 16)) == Index(prandex)
  {
    assert (prand | (prandex << 16)) & 0xffff == prand;
    assert (prand | (prandex << 16)) >> 16 == prandex;
  }

  /** The packed words hold the indices of the log. */
  predicate PackedAs(log: seq<Entry>, packed: seq<bv32>) {
    && |log| <= |packed|
    && forall n :: 0 <= n < |log| ==> First(packed[n]) == log[n].prand && Second(packed[n]) == log[n].prandex
  }

  /** The four arrays of the saved-value log hold it. */
  predicate SavedAs(log: seq<Entry>, prand: seq<bv32>, prandex: seq<bv32>, oldPrand: seq<Vec>, oldPrandex: seq<Vec>) {
    && |prand| == |prandex| == |oldPrand| == |oldPrandex|
    && |log| <= |prand|
    && forall n :: 0 <= n < |log| ==>
         && Index(prand[n]) == log[n].prand && Index(prandex[n]) == log[n].prandex
         && oldPrand[n] == log[n].oldPrand && oldPrandex[n] == log[n].oldPrandex
  }

  //
  // Reverse replay of the saved entries
  //

  function Undo(log: seq<Entry>, key: seq<Vec>): (r: seq<Vec>)
    requires |key| >= MUTABLE
    ensures |r| == |key|
  {
    if log == [] then key
    else
      var e := log[|log| - 1];
      Undo(log[..|log| - 1], key[e.prandex := e.oldPrandex][e.prand := e.oldPrand])
  }

  /** Writing both old entries back undoes a step, also when both indices are equal. */
  lemma UndoApply(key: seq<Vec>, i: nat, j: nat, o: Outcome)
    requires i < |key| && j < |key|
    ensures Apply(key, i, j, o)[j := key[j]][i := key[i]] == key
  {
  }

  lemma {:induction false} RunLog(rule: Rule, s: Lane, n: nat)
    requires |s.key| >= MUTABLE
    ensures |Run(rule, s, n).log| == |s.log| + n
  {
    if n > 0 {
      RunLog(rule, s, n - 1);
    }
  }

  /** Replaying the saved entries of any run backwards gives back the starting key. */
  lemma {:induction false} UndoRun(rule: Rule, s: Lane, n: nat)
    requires |s.key| >= MUTABLE && s.log == []
    ensures var r := Run(rule, s, n); Undo(r.log, r.key) == s.key
  {
    if n > 0 {
      var t := Run(rule, s, n - 1);
      var r := Step(rule, t);
      UndoRun(rule, s, n - 1);
      UndoApply(t.key, rule.prand(t.acc), rule.prandex(t.acc), rule.effect(t.key, t.acc));
      assert r.log[..|r.log| - 1] == t.log;
    }
  }

  //
  // Forward restore from the pristine key
  //

  /** Position k is named by the log. */
  ghost predicate Touches(log: seq<Entry>, k: nat) {
    exists n :: 0 <= n < |log| && (log[n].prand == k || log[n].prandex == k)
  }

  lemma {:induction false} RunFrame(rule: Rule, s: Lane, n: nat, k: nat)
    requires |s.key| >= MUTABLE
    requires k < |s.key| && !Touches(Run(rule, s, n).log, k)
    ensures Run(rule, s, n).key[k] == s.key[k]
  {
    if n > 0 {
      var t := Run(rule, s, n - 1);
      var r := Step(rule, t);
      assert r.log == t.log + [r.log[|t.log|]];
      assert r.log[|t.log|].prand != k && r.log[|t.log|].prandex != k;
      assert !Touches(t.log, k) by {
        assert forall m :: 0 <= m < |t.log| ==> t.log[m] == r.log[m];
      }
      RunFrame(rule, s, n - 1, k);
    }
  }

  /** Entries 512 and up are never written. */
  lemma UpperKeyIsConstant(rule: Rule, s: Lane, n: nat)
    requires |s.key| >= MUTABLE
    ensures Run(rule, s, n).key[MUTABLE..] == s.key[MUTABLE..]
  {
    var r := Run(rule, s, n);
    forall k | MUTABLE <= k < |s.key| ensures r.key[k] == s.key[k] {
      RunFrame(rule, s, n, k);
    }
  }

  predicate PackedInRange(packed: seq<bv32>, length: nat) {
    forall m :: 0 <= m < |packed| ==> First(packed[m]) < length && Second(packed[m]) < length
  }

  /** The loop of `RestoreKey` over the packed log, from position n on. */
  function Restore(packed: seq<bv32>, key: seq<Vec>, pristine: seq<Vec>, n: nat): (r: seq<Vec>)
    requires n <= |packed| && |key| == |pristine|
    requires PackedInRange(packed, |key|)
    ensures |r| == |key|
    decreases |packed| - n
  {
    if n == |packed| then key
    else
      var i, j := First(packed[n]), Second(packed[n]);
      Restore(packed, key[i := pristine[i]][j := pristine[j]], pristine, n + 1)
  }

  /** Once every position is either already pristine or still to be named by the
      log, the rest of the loop makes the whole key pristine. */
  lemma {:induction false} RestoreIsPristine(packed: seq<bv32>, key: seq<Vec>, pristine: seq<Vec>, n: nat)
    requires n <= |packed| && |key| == |pristine| && PackedInRange(packed, |key|)
    requires forall k :: 0 <= k < |key| && key[k] != pristine[k] ==>
               exists m :: n <= m < |packed| && (First(packed[m]) == k || Second(packed[m]) == k)
    ensures Restore(packed, key, pristine, n) == pristine
    decreases |packed| - n
  {
    if n < |packed| {
      var i, j := First(packed[n]), Second(packed[n]);
      RestoreIsPristine(packed, key[i := pristine[i]][j := pristine[j]], pristine, n + 1);
    }
  }

  /** Copying the touched entries from the starting key gives back the starting key. */
  lemma RestoreRun(rule: Rule, s: Lane, n: nat, packed: seq<bv32>)
    requires |s.key| >= MUTABLE && s.log == []
    requires |packed| == n && PackedAs(Run(rule, s, n).log, packed)
    ensures PackedInRange(packed, |s.key|)
    ensures Restore(packed, Run(rule, s, n).key, s.key, 0) == s.key
  {
    var r := Run(rule, s, n);
    RunLog(rule, s, n);
    forall m | 0 <= m < |packed| ensures First(packed[m]) < |s.key| && Second(packed[m]) < |s.key| {
      assert First(packed[m]) == r.log[m].prand && Second(packed[m]) == r.log[m].prandex;
    }
    forall k | 0 <= k < |s.key| && r.key[k] != s.key[k]
      ensures exists m :: 0 <= m < |packed| && (First(packed[m]) == k || Second(packed[m]) == k)
    {
      assert Touches(r.log, k) by {
        if !Touches(r.log, k) { RunFrame(rule, s, n, k); }
      }
      var m :| 0 <= m < |r.log| && (r.log[m].prand == k || r.log[m].prandex == k);
      assert First(packed[m]) == r.log[m].prand && Second(packed[m]) == r.log[m].prandex;
    }
    RestoreIsPristine(packed, r.key, s.key, 0);
  }

  //
  // The restore loops themselves
  //

  /** `RestoreKey`. */
  method RestoreKey(touched: array<bv32>, key: array<Vec>, pristine: array<Vec>)
    requires touched.Length == STEPS && key.Length == pristine.Length
    requires key != pristine && key as object != touched
    requires PackedInRange(touched[..], key.Length)
    modifies key
    ensures key[..] == Restore(old(touched[..]), old(key[..]), old(pristine[..]), 0)
  {
    ghost var packed, good := touched[..], pristine[..];
    for i := 0 to STEPS
      invariant touched[..] == packed && pristine[..] == good
      invariant Restore(packed, key[..], good, i) == Restore(packed, old(key[..]), good, 0)
    {
      var word := touched[i];
      assert word == touched[..][i];
      var first := First(word);
      var second := Second(word);
      ghost var before := key[..];
      key[first] := pristine[first];
      key[second] := pristine[second];
      assert key[..] == before[first := pristine[first]][second := pristine[second]];
    }
  }

  /** `FixKey`. */
  method FixKey(fixrand: array<bv32>, fixrandex: array<bv32>, key: array<Vec>,
                gPrand: array<Vec>, gPrandex: array<Vec>, ghost log: seq<Entry>)
    requires |log| == STEPS && key.Length >= MUTABLE
    requires fixrand.Length == fixrandex.Length == gPrand.Length == gPrandex.Length == STEPS
    requires SavedAs(log, fixrand[..], fixrandex[..], gPrand[..], gPrandex[..])
    requires key != gPrand && key != gPrandex && key as object != fixrand && key as object != fixrandex
    modifies key
    ensures key[..] == Undo(log, old(key[..]))
  {
    assert log[..STEPS] == log;
    for i := STEPS downto 0
      invariant Undo(log[..i], key[..]) == Undo(log, old(key[..]))
    {
      var first, second := Index(fixrand[i]), Index(fixrandex[i]);
      assert first == log[i].prand && second == log[i].prandex by {
        assert Index(fixrand[..][i]) == log[i].prand && Index(fixrandex[..][i]) == log[i].prandex;
      }
      assert gPrand[..][i] == log[i].oldPrand && gPrandex[..][i] == log[i].oldPrandex;
      assert log[..i + 1][..i] == log[..i];
      ghost var before := key[..];
      key[second] := gPrandex[i];
      key[first] := gPrand[i];
      assert key[..] == before[second := log[i].oldPrandex][first := log[i].oldPrand];
    }
  }
}
