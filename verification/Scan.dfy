/** `scanhash_verus` (verus/verusscan.cpp): which nonces it tries, which solution it
    records, and what that solution is worth to a verifier who hashes from scratch. */
module Scan {
  import opened Simd
  import opened VerusHash
  import opened Fills
  import opened Lanes
  import opened Limbs

  //
  // The one-at-a-time scan
  //

  /** How a scan ends: a winning nonce, or no winner among the first `done` nonces. */
  datatype Outcome = Solution(nonce: nat) | Exhausted(done: nat)

  /** Whether the scan gives up after k candidates: restart or abort (`stop`) is
      consulted only at multiples of 512. */
  function Halting(stop: nat -> bool): nat -> bool {
    (k: nat) => k % 512 == 0 && stop(k)
  }

  /** Try nonces one by one from n on. */
  ghost function OneByOne(wins: nat -> bool, limit: nat, halt: nat -> bool, n: nat): Outcome
    requires n <= limit
    decreases limit - n
  {
    if n == limit then Exhausted(n)
    else if wins(n) then Solution(n)
    else if halt(n + 1) then Exhausted(n + 1)
    else OneByOne(wins, limit, halt, n + 1)
  }

  /** What an outcome promises: the smallest winner, or no winner at all; a scan that
      ends early without one was told to give up, and no earlier order was missed. */
  lemma {:induction false} OneByOneIsExact(wins: nat -> bool, limit: nat, halt: nat -> bool, n: nat)
    requires n <= limit && forall m :: 0 <= m < n ==> !wins(m)
    ensures match OneByOne(wins, limit, halt, n)
            case Solution(w) =>
              && n <= w < limit && wins(w) && (forall m :: 0 <= m < w ==> !wins(m))
              && (forall j :: n < j <= w ==> !halt(j))
            case Exhausted(k) =>
              && n <= k <= limit && (forall m :: 0 <= m < k ==> !wins(m))
              && (forall j :: n < j < k ==> !halt(j))
              && (k < limit ==> n < k && halt(k))
    decreases limit - n
  {
    if n < limit && !wins(n) && !halt(n + 1) {
      OneByOneIsExact(wins, limit, halt, n + 1);
    }
  }

  /** halt is `Halting(stop)`, by name. */
  ghost predicate HaltsOn(halt: nat -> bool, stop: nat -> bool) {
    forall k: nat {:trigger stop(k)} :: halt(k) == (k % 512 == 0 && stop(k))
  }

  method GiveUp(completed: nat, stop: nat -> bool, ghost halt: nat -> bool) returns (b: bool)
    requires HaltsOn(halt, stop)
    ensures b == halt(completed)
  {
    b := completed % 512 == 0 && stop(completed);
    assert b == (completed % 512 == 0 && stop(completed));
  }

  /** wins says of each 32-bit nonce whether it wins this job. */
  ghost predicate Judges(wins: nat -> bool, algo: Algo, job: Job)
    requires WellFormed(job)
  {
    forall n: Limb {:trigger Wins(algo, job, n)} :: wins(n) == Wins(algo, job, n)
  }

  ghost function JudgeOf(algo: Algo, job: Job): (wins: nat -> bool)
    requires WellFormed(job)
    ensures Judges(wins, algo, job)
  {
    (n: nat) => n < BASE && Wins(algo, job, n)
  }

  lemma HaltingHalts(stop: nat -> bool)
    ensures HaltsOn(Halting(stop), stop)
  {
  }

  /** Two steps of the one-by-one scan from an even position: only the second may give up. */
  lemma TwoSteps(wins: nat -> bool, limit: nat, stop: nat -> bool, halt: nat -> bool, pairs: nat)
    requires 2 * pairs + 2 <= limit && HaltsOn(halt, stop)
    ensures var n := 2 * pairs;
            OneByOne(wins, limit, halt, n) ==
            if wins(n) then Solution(n)
            else if wins(n + 1) then Solution(n + 1)
            else if halt(n + 2) then Exhausted(n + 2)
            else OneByOne(wins, limit, halt, n + 2)
  {
    var n := 2 * pairs;
    assert !halt(n + 1) by {
      assert (n + 1) % 512 != 0;
      var b := stop(n + 1);
    }
    if !wins(n) {
      assert OneByOne(wins, limit, halt, n) == OneByOne(wins, limit, halt, n + 1);
    }
  }

  /** One round of the dual-lane loop is two steps of the one-by-one scan. */
  method PairRound(s: DualScratch, limit: nat, nonceBuf: Limb, fill1: seq<Byte>, firstByte: Byte, target: Digest,
                   stop: nat -> bool, ghost pairs: nat, ghost job: Job, ghost algo: Algo, ghost rc: seq<Vec>,
                   ghost wins: nat -> bool, ghost halt: nat -> bool)
    returns (found: bool, stopped: bool, nonce: Limb)
    requires Implements(algo, s.isa, rc) && s.Ready(job) && target == job.target && Judges(wins, algo, job)
    requires fill1 == Rotated(job.state[..16]) && firstByte == job.state[0]
    requires nonceBuf == 2 * pairs && nonceBuf + 2 <= limit < BASE && HaltsOn(halt, stop)
    modifies s.arrays
    ensures s.Ready(job)
    ensures OneByOne(wins, limit, halt, nonceBuf) ==
            if found then Solution(nonce) else if stopped then Exhausted(nonceBuf + 2)
            else OneByOne(wins, limit, halt, nonceBuf + 2)
    ensures found ==> s.vhash[..] == CandidateHash(algo, job, nonce) && nonceBuf <= nonce <= nonceBuf + 1
  {
    TwoSteps(wins, limit, stop, halt, pairs);
    found, nonce := s.TestPair(fill1, firstByte, nonceBuf, target, target[7], job, algo, rc);
    stopped := false;
    if !found {
      stopped := GiveUp(nonceBuf + 2, stop, halt);
    }
  }

  /** What the dual build has counted when it finds `nonce`: both lanes of its pair, or,
      when the limit leaves no whole pair, the nonce itself. */
  ghost predicate CountedTo(limit: nat, nonce: nat, done: nat) {
    exists pairs: nat :: InPair(nonce, pairs) && done == if 2 * pairs + 2 <= limit then 2 * pairs + 2 else nonce + 1
  }

  predicate InPair(nonce: nat, pairs: nat) {
    nonce == 2 * pairs || nonce == 2 * pairs + 1
  }

  /** The count is a function of limit and nonce. */
  lemma CountedToIs(limit: nat, nonce: nat, done: nat)
    ensures CountedTo(limit, nonce, done)
       <==> done == if nonce / 2 * 2 + 2 <= limit then nonce / 2 * 2 + 2 else nonce + 1
  {
    assert InPair(nonce, nonce / 2);
    forall pairs: nat | InPair(nonce, pairs) ensures pairs == nonce / 2 {
    }
  }

  /** The dual-lane loop. It leaves either finished, or with at most one nonce to go. */
  method PairLoop(s: DualScratch, limit: nat, fill1: seq<Byte>, firstByte: Byte, target: Digest, stop: nat -> bool,
                  ghost job: Job, ghost algo: Algo, ghost rc: seq<Vec>,
                  ghost wins: nat -> bool, ghost halt: nat -> bool)
    returns (found: bool, stopped: bool, nonce: Limb, completed: nat)
    requires Implements(algo, s.isa, rc) && s.Ready(job) && target == job.target && Judges(wins, algo, job)
    requires fill1 == Rotated(job.state[..16]) && firstByte == job.state[0]
    requires limit < BASE && HaltsOn(halt, stop)
    modifies s.arrays
    ensures s.Ready(job) && completed <= limit
    ensures OneByOne(wins, limit, halt, 0) ==
            if found then Solution(nonce) else if stopped then Exhausted(completed)
            else OneByOne(wins, limit, halt, completed)
    ensures found ==> s.vhash[..] == CandidateHash(algo, job, nonce) && CountedTo(limit, nonce, completed)
    ensures !found && !stopped ==>
              limit < completed + 2 && exists pairs: nat :: InPair(completed, pairs) && completed == 2 * pairs
  {
    completed, nonce, found, stopped := 0, 0, false, false;
    var nonceBuf := 0;
    ghost var want, pairs := OneByOne(wins, limit, halt, 0), 0;
    while completed + 2 <= limit
      invariant s.Ready(job) && !found && !stopped
      invariant nonceBuf == completed && completed == 2 * pairs && completed <= limit
      invariant OneByOne(wins, limit, halt, completed) == want
    {
      found, stopped, nonce :=
        PairRound(s, limit, nonceBuf, fill1, firstByte, target, stop, pairs, job, algo, rc, wins, halt);
      completed := completed + 2;
      nonceBuf := nonceBuf + 2;
      pairs := pairs + 1;
      if found || stopped {
        assert found ==> InPair(nonce, pairs - 1);
        return;
      }
    }
    assert InPair(completed, pairs);
  }

  /** The scalar tail of the ARM build, from `start` on. */
  method TailLoop(s: DualScratch, limit: nat, start: nat, fill1: seq<Byte>, firstByte: Byte, target: Digest,
                  stop: nat -> bool, ghost job: Job, ghost algo: Algo, ghost rc: seq<Vec>,
                  ghost wins: nat -> bool, ghost halt: nat -> bool)
    returns (found: bool, nonce: Limb, completed: nat)
    requires Implements(algo, s.isa, rc) && s.Ready(job) && target == job.target && Judges(wins, algo, job)
    requires fill1 == Rotated(job.state[..16]) && firstByte == job.state[0]
    requires start <= limit < BASE && HaltsOn(halt, stop)
    modifies s.arrays
    ensures OneByOne(wins, limit, halt, start) == if found then Solution(nonce) else Exhausted(completed)
    ensures found ==> s.vhash.Length == 8 && s.vhash[..] == CandidateHash(algo, job, nonce)
    ensures found ==> start <= nonce && completed == nonce + 1
    ensures completed <= limit
  {
    var highTarget := target[7];
    completed, nonce, found := start, 0, false;
    var nonceBuf := start;
    ghost var want := OneByOne(wins, limit, halt, start);
    while completed < limit
      invariant s.Ready(job) && nonceBuf == completed && start <= completed <= limit && !found
      invariant OneByOne(wins, limit, halt, completed) == want
    {
      var valid := s.TestOne(fill1, firstByte, nonceBuf, target, highTarget, job, algo, rc);
      completed := completed + 1;
      if valid {
        return true, nonceBuf, completed;
      }
      nonceBuf := nonceBuf + 1;
      var giveUp := GiveUp(completed, stop, halt);
      if giveUp {
        break;
      }
    }
  }

  /** The dual-lane loop and the scalar tail of the ARM build end exactly as the
      one-by-one scan does. A winner found by lane 0 counts lane 1 as done too. */
  method ScanDual(s: DualScratch, limit: nat, fill1: seq<Byte>, firstByte: Byte, target: Digest, stop: nat -> bool,
                  ghost job: Job, ghost algo: Algo, ghost rc: seq<Vec>,
                  ghost wins: nat -> bool, ghost halt: nat -> bool)
    returns (found: bool, nonce: Limb, completed: nat)
    requires Implements(algo, s.isa, rc) && s.Ready(job) && target == job.target && Judges(wins, algo, job)
    requires fill1 == Rotated(job.state[..16]) && firstByte == job.state[0]
    requires limit < BASE && HaltsOn(halt, stop)
    modifies s.arrays
    ensures OneByOne(wins, limit, halt, 0) == if found then Solution(nonce) else Exhausted(completed)
    ensures found ==> s.vhash.Length == 8 && s.vhash[..] == CandidateHash(algo, job, nonce)
    ensures found ==> CountedTo(limit, nonce, completed)
    ensures completed <= limit
  {
    var stopped;
    found, stopped, nonce, completed := PairLoop(s, limit, fill1, firstByte, target, stop, job, algo, rc, wins, halt);
    if found || stopped {
      return;
    }
    ghost var pairs: nat :| InPair(completed, pairs) && completed == 2 * pairs;
    found, nonce, completed := TailLoop(s, limit, completed, fill1, firstByte, target, stop, job, algo, rc, wins, halt);
    assert found ==> InPair(nonce, pairs);
  }

  /** The single loop of the other builds. */
  method ScanSingle(s: SavedScratch, limit: nat, fill1: seq<Byte>, firstByte: Byte, target: Digest, stop: nat -> bool,
                    ghost job: Job, ghost algo: Algo, ghost rc: seq<Vec>,
                    ghost wins: nat -> bool, ghost halt: nat -> bool)
    returns (found: bool, nonce: Limb, completed: nat)
    requires Implements(algo, s.isa, rc) && s.Ready(job) && target == job.target && Judges(wins, algo, job)
    requires fill1 == Rotated(job.state[..16]) && firstByte == job.state[0]
    requires limit < BASE && HaltsOn(halt, stop)
    modifies s.arrays
    ensures OneByOne(wins, limit, halt, 0) == if found then Solution(nonce) else Exhausted(completed)
    ensures found ==> s.vhash.Length == 8 && s.vhash[..] == CandidateHash(algo, job, nonce)
    ensures found ==> completed == nonce + 1
    ensures completed <= limit
  {
    var highTarget := target[7];
    completed, nonce, found := 0, 0, false;
    var nonceBuf := 0;
    ghost var want := OneByOne(wins, limit, halt, 0);
    while completed < limit
      invariant s.Ready(job) && nonceBuf == completed && completed <= limit && !found
      invariant OneByOne(wins, limit, halt, completed) == want
    {
      var valid := s.TestOne(fill1, firstByte, nonceBuf, target, highTarget, job, algo, rc);
      completed := completed + 1;
      if valid {
        return true, nonceBuf, completed;
      }
      nonceBuf := nonceBuf + 1;
      var giveUp := GiveUp(completed, stop, halt);
      if giveUp {
        break;
      }
    }
  }
}
