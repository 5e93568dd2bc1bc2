/** `scanhash_verus` as a whole (verus/verusscan.cpp): from the work received, through
    the scan, to the solution left in the work for submission. */
module ScanHash {
  import opened Simd
  import opened Layout
  import opened Clhash
  import opened VerusHash
  import opened Candidate
  import opened Fills
  import opened Lanes
  import opened Limbs
  import opened Scan

  const MAX_NONCES := 2

  //
  // The message
  //

  function JobOf(algo: Algo, data: seq<Byte>, solution: seq<Byte>, target: Digest): (job: Job)
    requires |data| == 192 && |solution| == SOLUTION
    ensures WellFormed(job)
  {
    var state := Absorb(algo, Canonical(data, solution), 46);
    Job(state, Space(data, solution), Key(algo, Seed(state)), target)
  }

  /** The prefix is absorbed once and serves every nonce: a candidate's hash is the
      hash of its whole message from scratch. */
  lemma CandidateIsMessage(algo: Algo, data: seq<Byte>, solution: seq<Byte>, target: Digest, nonce: Limb)
    requires |data| == 192 && |solution| == SOLUTION
    ensures CandidateHash(algo, JobOf(algo, data, solution, target), nonce)
         == Hash(algo, Message(data, solution, nonce))
  {
    var c, m := Canonical(data, solution), Message(data, solution, nonce);
    assert m[..1472] == c[..1472];
    AbsorbPrefix(algo, c, m, 46);
    assert m[1472..] == Space(data, solution) + NonceBytes(nonce);
  }

  //
  // The work
  //

  /** The fields of `struct work` that the scan reads or writes. `data` is the header
      as bytes of its 48 little-endian words. */
  class Work {
    const data: array<Byte>
    const target: Digest
    const solution: seq<Byte>
    const extra: array<Byte>
    const nonces: array<bv32>
    var validNonces: nat

    ghost predicate Shape() {
      && data.Length == 192 && |solution| == SOLUTION && extra.Length == 1388 && nonces.Length == MAX_NONCES
      && data != extra && data as object != nonces && extra as object != nonces
      && data as object != this && extra as object != this && nonces as object != this
    }

    constructor (data: array<Byte>, target: Digest, solution: seq<Byte>, extra: array<Byte>, nonces: array<bv32>)
      requires data.Length == 192 && |solution| == SOLUTION && extra.Length == 1388 && nonces.Length == MAX_NONCES
      requires data != extra && data as object != nonces && extra as object != nonces
      ensures Shape() && validNonces == 0
      ensures this.data == data && this.target == target && this.solution == solution
      ensures this.extra == extra && this.nonces == nonces
    {
      this.data, this.target, this.solution := data, target, solution;
      this.extra, this.nonces := extra, nonces;
      validNonces := 0;
    }
  }

  //
  // Building the message
  //

  /** The first part of `scanhash_verus`: the canonical copy and the nonce space. */
  method BuildMessage(work: Work) returns (full: array<Byte>, space: array<Byte>)
    requires work.Shape()
    ensures fresh(full) && fresh(space) && full != space && full.Length == MESSAGE && space.Length == 15
    ensures full[..] == Canonical(work.data[..], work.solution)
    ensures space[..11] == Space(work.data[..], work.solution)
  {
    full := new Byte[MESSAGE](_ => 0);
    space := new Byte[15](_ => 0);
    ghost var d := work.data[..];
    CopyTo(full, 0, work.data[..HEADER]);
    CopyTo(full, HEADER, PREFIX);
    CopyTo(full, HEADER + 3, work.solution);
    assert work.data[..] == d;
    assert full[..] == d[..HEADER] + PREFIX + work.solution;
    var version := work.solution[0];
    if version >= 7 && work.solution[5] > 0 {
      ClearMerged(full, d, work.solution);
      CopyTo(space, 0, work.data[108..115]);
      CopyTo(space, 7, work.data[128..132]);
      assert work.data[..] == d;
      assert space[..11] == d[108..115] + d[128..132];
    } else {
      assert space[..11] == Zeros(11);
    }
  }

  method ClearMerged(full: array<Byte>, ghost d: seq<Byte>, ghost solution: seq<Byte>)
    requires |d| == 192 && |solution| == SOLUTION && Merged(solution) && full.Length == MESSAGE
    requires full[..] == d[..HEADER] + PREFIX + solution
    modifies full
    ensures full[..] == Canonical(d, solution)
  {
    ghost var p, q := d[..4], d[100..HEADER] + PREFIX + solution;
    assert d[..HEADER] + PREFIX + solution == p + d[4..100] + q;
    Overwrite(full, 4, Zeros(96), p, d[4..100], q);
    p, q := p + Zeros(96) + d[100..104], d[108..HEADER] + PREFIX + solution;
    assert full[..] == p + d[104..108] + q;
    Overwrite(full, 4 + 32 + 32 + 32 + 4, Zeros(4), p, d[104..108], q);
    p, q := p + Zeros(4), PREFIX + solution;
    assert full[..] == p + d[108..HEADER] + q;
    Overwrite(full, 4 + 32 + 32 + 32 + 4 + 4, Zeros(32), p, d[108..HEADER], q);
    ghost var roots := p + Zeros(32);
    assert roots == d[..4] + Zeros(96) + d[100..104] + Zeros(36);
    assert full[..] == roots + PREFIX + solution;
    p, q := roots + PREFIX + solution[..8], solution[72..];
    assert full[..] == p + solution[8..72] + q;
    Overwrite(full, HEADER + 3 + 8, Zeros(64), p, solution[8..72], q);
  }

  /** `memset` of the bytes m that stand between p and q. */
  method Overwrite(full: array<Byte>, at: nat, z: seq<Byte>, ghost p: seq<Byte>, ghost m: seq<Byte>, ghost q: seq<Byte>)
    requires full[..] == p + m + q && |p| == at && |m| == |z|
    modifies full
    ensures full[..] == p + z + q
  {
    assert full.Length == |p| + |m| + |q|;
    assert full[..][..at] == p && full[..][at + |z|..] == q;
    CopyTo(full, at, z);
  }

  //
  // Setting up, recording, finishing
  //

  method SetupDual(isa: Isa, rc: seq<Vec>, half: seq<Byte>, space: seq<Byte>, s: DualScratch,
                   ghost job: Job, ghost algo: Algo)
    requires Implements(algo, isa, rc) && s.Shape() && WellFormed(job)
    requires |half| == 64 && half[..32] == job.state && |space| == 11 && space == job.space
    requires job.key == Key(algo, Seed(job.state))
    modifies s.arrays
    ensures s.Ready(job)
  {
    SetupKeys(isa, rc, half, s, job, algo);
    SetupBuffers(half, space, s, job);
  }

  method SetupKeys(isa: Isa, rc: seq<Vec>, half: seq<Byte>, s: DualScratch, ghost job: Job, ghost algo: Algo)
    requires Implements(algo, isa, rc) && s.Shape() && |half| == 64 && half[..32] == job.state && |job.state| == 32
    requires job.key == Key(algo, Seed(job.state))
    modifies s.vecs
    ensures s.key0[..] == job.key && s.key1[..] == job.key && s.pristine[..] == job.key
  {
    GenNewCLKey(isa, rc, half[..32], s.key0, algo);
    forall k | 0 <= k < KEY_LENGTH { s.pristine[k] := s.key0[k]; }
    assert s.pristine[..] == job.key && s.key0[..] == job.key;
    forall k | 0 <= k < KEY_LENGTH { s.key1[k] := s.pristine[k]; }
  }

  method SetupBuffers(half: seq<Byte>, space: seq<Byte>, s: DualScratch, ghost job: Job)
    requires s.Shape() && |half| == 64 && half[..32] == job.state && |space| == 11 && space == job.space
    modifies s.bytes
    ensures s.buf0[..43] == job.state + job.space && s.buf1[..43] == job.state + job.space
  {
    CopyTo(s.buf0, 0, half);
    CopyTo(s.buf1, 0, half);
    CopyTo(s.buf0, 32, space);
    CopyTo(s.buf1, 32, space);
  }

  method SetupSaved(isa: Isa, rc: seq<Vec>, half: seq<Byte>, space: seq<Byte>, s: SavedScratch,
                    ghost job: Job, ghost algo: Algo)
    requires Implements(algo, isa, rc) && s.Shape() && WellFormed(job)
    requires |half| == 64 && half[..32] == job.state && |space| == 11 && space == job.space
    requires job.key == Key(algo, Seed(job.state))
    modifies s.arrays
    ensures s.Ready(job)
  {
    CopyTo(s.buf, 0, half);
    GenNewCLKey(isa, rc, half[..32], s.key, algo);
    CopyTo(s.buf, 32, space);
    assert s.buf[..43] == job.state + job.space && s.key[..] == job.key;
  }

  /** `record_solution`. */
  method RecordSolution(work: Work, full: array<Byte>, space: array<Byte>, nonce: Limb)
    requires work.Shape() && work.validNonces < MAX_NONCES && full.Length == MESSAGE && space.Length == 15
    requires full != work.data && full != work.extra && full as object != work.nonces && full as object != work
    requires space != work.data && space != work.extra && space as object != work.nonces && space as object != work
    requires full != space
    modifies work, work.data, work.extra, work.nonces, space
    ensures work.validNonces == old(work.validNonces) + 1
    ensures work.data[..] == full[..HEADER] + old(work.data[HEADER..]) && full[..] == old(full[..])
    ensures work.extra[..] == full[HEADER..1472] + old(space[..11]) + NonceBytes(nonce) + old(work.extra[1347..])
    ensures work.nonces[..] == old(work.nonces[..])[old(work.validNonces) := WordAt(full[..], NONCE_WORD)]
  {
    ghost var f := full[..];
    CopyTo(space, 11, NonceBytes(nonce));
    work.validNonces := work.validNonces + 1;
    CopyTo(work.data, 0, full[..HEADER]);
    var id := work.validNonces - 1;
    CopyTo(work.extra, 0, full[HEADER..]);
    CopyTo(work.extra, 1332, space[..]);
    assert full[..] == f;
    work.nonces[id] := WordAt(full[..], NONCE_WORD);
  }

  //
  // What a scan promises
  //

  /** The mutable part of the work as a value. */
  datatype View = View(data: seq<Byte>, extra: seq<Byte>, nonces: seq<bv32>, valid: nat)

  predicate ViewShape(v: View) {
    |v.data| == 192 && |v.extra| == 1388 && |v.nonces| == MAX_NONCES
  }

  /** This nonce's message, hashed from scratch, meets the target. */
  ghost predicate WinningMessage(algo: Algo, data: seq<Byte>, solution: seq<Byte>, target: Digest, nonce: Limb)
    requires |data| == 192 && |solution| == SOLUTION
  {
    Meets(Hash(algo, Message(data, solution, nonce)), target)
  }

  /** Restart and abort were not signalled at any check before `k`. */
  ghost predicate NotTold(stop: nat -> bool, k: nat) {
    forall j: nat :: 0 < j < k && j % 512 == 0 ==> !stop(j)
  }

  /** The header, `extra` and nonces that recording a solution leaves. */
  ghost predicate Written(solution: seq<Byte>, before: View, after: View, nonce: Limb)
    requires ViewShape(before) && ViewShape(after) && |solution| == SOLUTION && before.valid < MAX_NONCES
  {
    var full := Canonical(before.data, solution);
    && after.valid == before.valid + 1
    && after.data
       == full[..NONCE_WORD] + NextWord(before.data, solution) + full[NONCE_WORD + 4..HEADER] + before.data[HEADER..]
    && after.extra == full[HEADER..1472] + Space(before.data, solution) + NonceBytes(nonce) + before.extra[1347..]
    && after.nonces == before.nonces[before.valid := WordAt(full, NONCE_WORD)]
  }

  /** Only the nonce word of the header has moved on. */
  ghost predicate Passed(solution: seq<Byte>, before: View, after: View)
    requires ViewShape(before) && |solution| == SOLUTION
  {
    after == MovedOn(before, Canonical(before.data, solution))
  }

  /** The recorded share: what is submitted is the message of the smallest winning
      nonce, its hash from scratch is vhash, and it meets the target. */
  ghost predicate Recorded(algo: Algo, solution: seq<Byte>, target: Digest, before: View, after: View,
                           stop: nat -> bool, nonce: Limb, vhash: seq<bv32>)
    requires ViewShape(before) && ViewShape(after) && |solution| == SOLUTION && before.valid < MAX_NONCES
  {
    var message := Submitted(after.data, after.extra, after.nonces[before.valid]);
    && Written(solution, before, after, nonce) && message == Message(before.data, solution, nonce)
    && vhash == Hash(algo, message) && Meets(Hash(algo, message), target)
    && (forall m: Limb :: m < nonce ==> !WinningMessage(algo, before.data, solution, target, m))
    && NotTold(stop, nonce + 1)
  }

  /** A scan without a solution: no nonce it counts as done wins, it ended at the limit
      or because it was told to at a multiple of 512, and the nonce word alone moved on. */
  ghost predicate NothingFound(algo: Algo, solution: seq<Byte>, target: Digest, before: View, after: View,
                               limit: nat, stop: nat -> bool, done: nat)
    requires ViewShape(before) && ViewShape(after) && |solution| == SOLUTION
  {
    && (forall m: Limb :: m < done ==> !WinningMessage(algo, before.data, solution, target, m))
    && (done == limit || (0 < done < limit && done % 512 == 0 && stop(done))) && NotTold(stop, done)
    && Passed(solution, before, after)
  }

  /** The judge of a job is the judge of its messages. */
  lemma WinsIsWinningMessage(algo: Algo, data: seq<Byte>, solution: seq<Byte>, target: Digest, nonce: Limb)
    requires |data| == 192 && |solution| == SOLUTION
    ensures Wins(algo, JobOf(algo, data, solution, target), nonce)
       <==> WinningMessage(algo, data, solution, target, nonce)
  {
    CandidateIsMessage(algo, data, solution, target, nonce);
  }

  lemma NoEarlierWinner(algo: Algo, data: seq<Byte>, solution: seq<Byte>, target: Digest, wins: nat -> bool, k: nat)
    requires |data| == 192 && |solution| == SOLUTION && k <= BASE
    requires Judges(wins, algo, JobOf(algo, data, solution, target)) && forall m :: 0 <= m < k ==> !wins(m)
    ensures forall m: Limb :: m < k ==> !WinningMessage(algo, data, solution, target, m)
  {
    forall m: Limb | m < k ensures !WinningMessage(algo, data, solution, target, m) {
      WinsIsWinningMessage(algo, data, solution, target, m);
    }
  }

  /** After recording, the submitted bytes are the message of the recorded nonce, even
      though the nonce word of the header has moved on. */
  lemma SubmittedIsMessage(before: View, after: View, solution: seq<Byte>, nonce: Limb)
    requires ViewShape(before) && ViewShape(after) && |solution| == SOLUTION && before.valid < MAX_NONCES
    requires Written(solution, before, after, nonce)
    ensures Submitted(after.data, after.extra, after.nonces[before.valid]) == Message(before.data, solution, nonce)
  {
    var full := Canonical(before.data, solution);
    WordRoundTrip(full, NONCE_WORD);
    assert after.data[..NONCE_WORD] == full[..NONCE_WORD];
    assert after.data[NONCE_WORD + 4..HEADER] == full[NONCE_WORD + 4..HEADER];
    assert after.extra[..1347] == full[HEADER..1472] + Space(before.data, solution) + NonceBytes(nonce);
    assert full[..NONCE_WORD] + full[NONCE_WORD..NONCE_WORD + 4] + full[NONCE_WORD + 4..HEADER] + full[HEADER..1472]
        == full[..1472];
  }

  ghost function ViewOf(work: Work): View
    reads work, work.data, work.extra, work.nonces
  {
    View(work.data[..], work.extra[..], work.nonces[..], work.validNonces)
  }

  /** The end of `scanhash_verus`: record a solution, then advance the nonce word. */
  method Conclude(work: Work, full: array<Byte>, space: array<Byte>, found: bool, nonce: Limb)
    requires work.Shape() && work.validNonces < MAX_NONCES && full.Length == MESSAGE && space.Length == 15
    requires full != work.data && full != work.extra && full as object != work.nonces && full as object != work
    requires space != work.data && space != work.extra && space as object != work.nonces && space as object != work
    requires full != space
    requires full[..] == Canonical(work.data[..], work.solution) && space[..11] == Space(work.data[..], work.solution)
    modifies work, work.data, work.extra, work.nonces, space
    ensures var before, after := old(ViewOf(work)), ViewOf(work);
            if found then Written(work.solution, before, after, nonce) else Passed(work.solution, before, after)
  {
    if found {
      ConcludeFound(work, full, space, nonce);
    } else {
      MoveOn(work, full[..]);
    }
  }

  method ConcludeFound(work: Work, full: array<Byte>, space: array<Byte>, nonce: Limb)
    requires work.Shape() && work.validNonces < MAX_NONCES && full.Length == MESSAGE && space.Length == 15
    requires full != work.data && full != work.extra && full as object != work.nonces && full as object != work
    requires space != work.data && space != work.extra && space as object != work.nonces && space as object != work
    requires full != space
    requires full[..] == Canonical(work.data[..], work.solution) && space[..11] == Space(work.data[..], work.solution)
    modifies work, work.data, work.extra, work.nonces, space
    ensures Written(work.solution, old(ViewOf(work)), ViewOf(work), nonce)
  {
    ghost var before := ViewOf(work);
    RecordSolution(work, full, space, nonce);
    ghost var recorded := ViewOf(work);
    MoveOn(work, full[..]);
    WrittenParts(full[..], before, recorded, ViewOf(work), work.solution, nonce);
  }

  lemma WrittenParts(f: seq<Byte>, before: View, recorded: View, after: View, solution: seq<Byte>, nonce: Limb)
    requires ViewShape(before) && ViewShape(recorded) && ViewShape(after) && |solution| == SOLUTION
    requires before.valid < MAX_NONCES && f == Canonical(before.data, solution)
    requires recorded.data == f[..HEADER] + before.data[HEADER..]
    requires recorded.extra == f[HEADER..1472] + Space(before.data, solution) + NonceBytes(nonce) + before.extra[1347..]
    requires recorded.nonces == before.nonces[before.valid := WordAt(f, NONCE_WORD)]
    requires recorded.valid == before.valid + 1
    requires after == MovedOn(recorded, f)
    ensures Written(solution, before, after, nonce)
  {
    HeaderWritten(f, before.data[HEADER..], NextWord(before.data, solution));
  }

  /** The last assignment to the header. */
  method MoveOn(work: Work, full: seq<Byte>)
    requires work.Shape() && |full| == MESSAGE
    modifies work.data
    ensures ViewOf(work) == MovedOn(old(ViewOf(work)), full)
  {
    ghost var extra, nonces := work.extra[..], work.nonces[..];
    CopyTo(work.data, NONCE_WORD, WordBytes(WordAt(full, NONCE_WORD) + 1));
    assert work.extra[..] == extra && work.nonces[..] == nonces;
  }

  ghost function MovedOn(v: View, full: seq<Byte>): View
    requires |v.data| == 192 && |full| == MESSAGE
  {
    v.(data := MovedData(v.data, full))
  }

  lemma HaltingNotTold(stop: nat -> bool, k: nat)
    requires forall j :: 0 < j < k ==> !Halting(stop)(j)
    ensures NotTold(stop, k)
  {
    forall j: nat | 0 < j < k && j % 512 == 0 ensures !stop(j) {
      assert !Halting(stop)(j);
    }
  }

  /** What a finished one-by-one scan means for the messages. */
  lemma ScanMeaning(algo: Algo, before: View, after: View, solution: seq<Byte>, target: Digest, limit: nat,
                    stop: nat -> bool, wins: nat -> bool, found: bool, nonce: Limb, done: nat, vhash: seq<bv32>)
    requires ViewShape(before) && ViewShape(after) && |solution| == SOLUTION && before.valid < MAX_NONCES
    requires 0 < limit < BASE && Judges(wins, algo, JobOf(algo, before.data, solution, target))
    requires OneByOne(wins, limit, Halting(stop), 0) == if found then Solution(nonce) else Exhausted(done)
    requires if found then
               && Written(solution, before, after, nonce)
               && vhash == CandidateHash(algo, JobOf(algo, before.data, solution, target), nonce)
             else
               Passed(solution, before, after)
    ensures found ==> Recorded(algo, solution, target, before, after, stop, nonce, vhash)
    ensures !found ==> NothingFound(algo, solution, target, before, after, limit, stop, done)
  {
    OneByOneIsExact(wins, limit, Halting(stop), 0);
    if found {
      NoEarlierWinner(algo, before.data, solution, target, wins, nonce);
      WinsIsWinningMessage(algo, before.data, solution, target, nonce);
      CandidateIsMessage(algo, before.data, solution, target, nonce);
      SubmittedIsMessage(before, after, solution, nonce);
      HaltingNotTold(stop, nonce + 1);
    } else {
      NoEarlierWinner(algo, before.data, solution, target, wins, done);
      HaltingNotTold(stop, done);
      assert done < limit ==> Halting(stop)(done);
    }
  }

  /** The end of a scan, told as what it means for the messages. */
  method Report(work: Work, full: array<Byte>, space: array<Byte>, limit: nat, found: bool, nonce: Limb, done: nat,
                vhash: seq<bv32>, ghost algo: Algo, ghost stop: nat -> bool, ghost wins: nat -> bool)
    requires work.Shape() && work.validNonces < MAX_NONCES && full.Length == MESSAGE && space.Length == 15
    requires full != work.data && full != work.extra && full as object != work.nonces && full as object != work
    requires space != work.data && space != work.extra && space as object != work.nonces && space as object != work
    requires full != space
    requires full[..] == Canonical(work.data[..], work.solution) && space[..11] == Space(work.data[..], work.solution)
    requires var job := JobOf(algo, work.data[..], work.solution, work.target);
             && 0 < limit < BASE && Judges(wins, algo, job)
             && OneByOne(wins, limit, Halting(stop), 0) == (if found then Solution(nonce) else Exhausted(done))
             && (found ==> vhash == CandidateHash(algo, job, nonce))
    modifies work, work.data, work.extra, work.nonces, space
    ensures found ==> Recorded(algo, work.solution, work.target, old(ViewOf(work)), ViewOf(work), stop, nonce, vhash)
    ensures !found ==>
              NothingFound(algo, work.solution, work.target, old(ViewOf(work)), ViewOf(work), limit, stop, done)
  {
    ghost var before := ViewOf(work);
    Conclude(work, full, space, found, nonce);
    ScanMeaning(algo, before, ViewOf(work), work.solution, work.target, limit, stop, wins, found, nonce, done, vhash);
  }

  /** A scan that could not allocate its keys does nothing. */
  ghost predicate Untouched(before: View, after: View, found: bool, done: nat) {
    after == before && !found && done == 0
  }

  /** The message and the state its first 46 blocks leave. */
  method Prepare(isa: Isa, rc: seq<Vec>, work: Work, garbage: seq<Byte>, ghost algo: Algo)
    returns (full: array<Byte>, space: array<Byte>, half: seq<Byte>)
    requires Implements(algo, isa, rc) && work.Shape() && |garbage| == 64
    ensures fresh(full) && fresh(space) && full != space && full.Length == MESSAGE && space.Length == 15
    ensures full[..] == Canonical(work.data[..], work.solution)
    ensures space[..11] == Space(work.data[..], work.solution)
    ensures |half| == 64 && half[..32] == JobOf(algo, work.data[..], work.solution, work.target).state
  {
    full, space := BuildMessage(work);
    half := VerusHashHalf(isa, rc, full[..], garbage, algo);
    HalfIsBuffer(algo, full[..], garbage);
  }

  /** Everything `scanhash_verus` does before its loops, on ARM. */
  method OpenDual(isa: Isa, rc: seq<Vec>, work: Work, garbage: seq<Byte>, ghost algo: Algo)
    returns (full: array<Byte>, space: array<Byte>, s: DualScratch, fill1: seq<Byte>, firstByte: Byte)
    requires Implements(algo, isa, rc) && work.Shape() && |garbage| == 64
    ensures fresh(full) && fresh(space) && fresh(s) && fresh(s.arrays)
    ensures full !in s.arrays && space !in s.arrays
    ensures full != space && full.Length == MESSAGE && space.Length == 15
    ensures full[..] == Canonical(work.data[..], work.solution)
    ensures space[..11] == Space(work.data[..], work.solution)
    ensures var job := JobOf(algo, work.data[..], work.solution, work.target);
            && s.isa == isa && s.Ready(job)
            && fill1 == Rotated(job.state[..16]) && firstByte == job.state[0]
  {
    var half;
    full, space, half := Prepare(isa, rc, work, garbage, algo);
    ghost var data, f, n := work.data[..], full[..], space[..];
    ghost var job := JobOf(algo, data, work.solution, work.target);
    s := new DualScratch(isa);
    SetupDual(isa, rc, half, space[..11], s, job, algo);
    assert full[..] == f && space[..] == n && work.data[..] == data;
    assert half[..16] == job.state[..16];
    Fill1Forms(true, half[..16]);
    fill1, firstByte := Fill1(true, half[..16]), half[0];
  }

  /** Everything `scanhash_verus` does before its loop, on the other builds. */
  method OpenSaved(isa: Isa, rc: seq<Vec>, work: Work, garbage: seq<Byte>, ghost algo: Algo)
    returns (full: array<Byte>, space: array<Byte>, s: SavedScratch, fill1: seq<Byte>, firstByte: Byte)
    requires Implements(algo, isa, rc) && work.Shape() && |garbage| == 64
    ensures fresh(full) && fresh(space) && fresh(s) && fresh(s.arrays)
    ensures full !in s.arrays && space !in s.arrays
    ensures full != space && full.Length == MESSAGE && space.Length == 15
    ensures full[..] == Canonical(work.data[..], work.solution)
    ensures space[..11] == Space(work.data[..], work.solution)
    ensures var job := JobOf(algo, work.data[..], work.solution, work.target);
            && s.isa == isa && s.Ready(job)
            && fill1 == Rotated(job.state[..16]) && firstByte == job.state[0]
  {
    var half;
    full, space, half := Prepare(isa, rc, work, garbage, algo);
    ghost var data, f, n := work.data[..], full[..], space[..];
    ghost var job := JobOf(algo, data, work.solution, work.target);
    s := new SavedScratch(isa);
    SetupSaved(isa, rc, half, space[..11], s, job, algo);
    assert full[..] == f && space[..] == n && work.data[..] == data;
    assert half[..16] == job.state[..16];
    Fill1Forms(false, half[..16]);
    fill1, firstByte := Fill1(false, half[..16]), half[0];
  }

  /** Setting up and scanning, before anything is written to the work. */
  method SearchDual(isa: Isa, rc: seq<Vec>, work: Work, limit: nat, stop: nat -> bool, garbage: seq<Byte>,
                    ghost algo: Algo)
    returns (full: array<Byte>, space: array<Byte>, found: bool, nonce: Limb, done: nat, vhash: seq<bv32>)
    requires Implements(algo, isa, rc) && work.Shape() && |garbage| == 64 && limit < BASE
    ensures fresh(full) && fresh(space) && full != space && full.Length == MESSAGE && space.Length == 15
    ensures full[..] == Canonical(work.data[..], work.solution) && space[..11] == Space(work.data[..], work.solution)
    ensures var job := JobOf(algo, work.data[..], work.solution, work.target);
            && OneByOne(JudgeOf(algo, job), limit, Halting(stop), 0)
               == (if found then Solution(nonce) else Exhausted(done))
            && (found ==> vhash == CandidateHash(algo, job, nonce))
    ensures done <= limit && (found ==> CountedTo(limit, nonce, done))
  {
    var s, fill1, firstByte;
    full, space, s, fill1, firstByte := OpenDual(isa, rc, work, garbage, algo);
    ghost var data, f, n := work.data[..], full[..], space[..];
    ghost var job := JobOf(algo, data, work.solution, work.target);
    HaltingHalts(stop);
    found, nonce, done :=
      ScanDual(s, limit, fill1, firstByte, work.target, stop, job, algo, rc, JudgeOf(algo, job), Halting(stop));
    vhash := if found then s.vhash[..] else [];
    assert work.data[..] == data && full[..] == f && space[..] == n;
  }

  /** `scanhash_verus` of the ARM build. `stop(k)` is what the restart and abort flags
      read as after k hashes, `garbage` the indeterminate stack bytes, `haveKeys`
      whether `malloc` succeeded. */
  method ScanHashDual(isa: Isa, rc: seq<Vec>, work: Work, maxNonce: Limb, stop: nat -> bool,
                      garbage: seq<Byte>, haveKeys: bool, ghost algo: Algo)
    returns (validNonces: nat, hashesDone: nat, found: bool, nonce: Limb, vhash: seq<bv32>)
    requires Implements(algo, isa, rc) && work.Shape() && work.validNonces < MAX_NONCES && |garbage| == 64
    modifies work, work.data, work.extra, work.nonces
    ensures validNonces == if haveKeys then work.validNonces else 0
    ensures !haveKeys ==> Untouched(old(ViewOf(work)), ViewOf(work), found, hashesDone)
    ensures haveKeys && found ==>
              && Recorded(algo, work.solution, work.target, old(ViewOf(work)), ViewOf(work), stop, nonce, vhash)
              && CountedTo(if maxNonce == 0 then 1 else maxNonce, nonce, hashesDone)
              && nonce < hashesDone <= (if maxNonce == 0 then 1 else maxNonce)
    ensures haveKeys && !found ==>
              NothingFound(algo, work.solution, work.target, old(ViewOf(work)), ViewOf(work),
                           if maxNonce == 0 then 1 else maxNonce, stop, hashesDone)
  {
    hashesDone, found, nonce, vhash := 0, false, 0, [];
    if !haveKeys {
      return 0, 0, false, 0, [];
    }
    var hashLimit := if maxNonce != 0 then maxNonce else 1;
    var full, space;
    full, space, found, nonce, hashesDone, vhash := SearchDual(isa, rc, work, hashLimit, stop, garbage, algo);
    Report(work, full, space, hashLimit, found, nonce, hashesDone, vhash, algo, stop,
           JudgeOf(algo, JobOf(algo, work.data[..], work.solution, work.target)));
    validNonces := work.validNonces;
  }

  /** Setting up and scanning, before anything is written to the work. */
  method SearchSaved(isa: Isa, rc: seq<Vec>, work: Work, limit: nat, stop: nat -> bool, garbage: seq<Byte>,
                     ghost algo: Algo)
    returns (full: array<Byte>, space: array<Byte>, found: bool, nonce: Limb, done: nat, vhash: seq<bv32>)
    requires Implements(algo, isa, rc) && work.Shape() && |garbage| == 64 && limit < BASE
    ensures fresh(full) && fresh(space) && full != space && full.Length == MESSAGE && space.Length == 15
    ensures full[..] == Canonical(work.data[..], work.solution) && space[..11] == Space(work.data[..], work.solution)
    ensures var job := JobOf(algo, work.data[..], work.solution, work.target);
            && OneByOne(JudgeOf(algo, job), limit, Halting(stop), 0)
               == (if found then Solution(nonce) else Exhausted(done))
            && (found ==> vhash == CandidateHash(algo, job, nonce))
    ensures done <= limit && (found ==> done == nonce + 1)
  {
    var s, fill1, firstByte;
    full, space, s, fill1, firstByte := OpenSaved(isa, rc, work, garbage, algo);
    ghost var data, f, n := work.data[..], full[..], space[..];
    ghost var job := JobOf(algo, data, work.solution, work.target);
    HaltingHalts(stop);
    found, nonce, done :=
      ScanSingle(s, limit, fill1, firstByte, work.target, stop, job, algo, rc, JudgeOf(algo, job), Halting(stop));
    vhash := if found then s.vhash[..] else [];
    assert work.data[..] == data && full[..] == f && space[..] == n;
  }

  /** `scanhash_verus` of the other builds. */
  method ScanHashSaved(isa: Isa, rc: seq<Vec>, work: Work, maxNonce: Limb, stop: nat -> bool,
                       garbage: seq<Byte>, haveKeys: bool, ghost algo: Algo)
    returns (validNonces: nat, hashesDone: nat, found: bool, nonce: Limb, vhash: seq<bv32>)
    requires Implements(algo, isa, rc) && work.Shape() && work.validNonces < MAX_NONCES && |garbage| == 64
    modifies work, work.data, work.extra, work.nonces
    ensures validNonces == if haveKeys then work.validNonces else 0
    ensures !haveKeys ==> Untouched(old(ViewOf(work)), ViewOf(work), found, hashesDone)
    ensures haveKeys && found ==>
              && Recorded(algo, work.solution, work.target, old(ViewOf(work)), ViewOf(work), stop, nonce, vhash)
              && hashesDone == nonce + 1 && hashesDone <= (if maxNonce == 0 then 1 else maxNonce)
    ensures haveKeys && !found ==>
              NothingFound(algo, work.solution, work.target, old(ViewOf(work)), ViewOf(work),
                           if maxNonce == 0 then 1 else maxNonce, stop, hashesDone)
  {
    hashesDone, found, nonce, vhash := 0, false, 0, [];
    if !haveKeys {
      return 0, 0, false, 0, [];
    }
    var hashLimit := if maxNonce != 0 then maxNonce else 1;
    var full, space;
    full, space, found, nonce, hashesDone, vhash := SearchSaved(isa, rc, work, hashLimit, stop, garbage, algo);
    Report(work, full, space, hashLimit, found, nonce, hashesDone, vhash, algo, stop,
           JudgeOf(algo, JobOf(algo, work.data[..], work.solution, work.target)));
    validNonces := work.validNonces;
  }

  /** Whatever build ran, the promise fixes the share: two scans of the same work that
      see the same flags both find nothing, or record the same nonce and hash, and they
      leave the work in the same state. */
  lemma BuildsAgree(algo: Algo, solution: seq<Byte>, target: Digest, limit: nat, stop: nat -> bool, before: View,
                    after1: View, found1: bool, nonce1: Limb, vhash1: seq<bv32>, done1: nat,
                    after2: View, found2: bool, nonce2: Limb, vhash2: seq<bv32>, done2: nat)
    requires ViewShape(before) && ViewShape(after1) && ViewShape(after2)
    requires |solution| == SOLUTION && before.valid < MAX_NONCES
    requires if found1 then Recorded(algo, solution, target, before, after1, stop, nonce1, vhash1) && nonce1 < limit
             else NothingFound(algo, solution, target, before, after1, limit, stop, done1)
    requires if found2 then Recorded(algo, solution, target, before, after2, stop, nonce2, vhash2) && nonce2 < limit
             else NothingFound(algo, solution, target, before, after2, limit, stop, done2)
    ensures found1 == found2
    ensures found1 ==> nonce1 == nonce2 && vhash1 == vhash2
    ensures after1 == after2
    ensures !found1 ==> done1 == done2
  {
    if found1 {
      assert WinningMessage(algo, before.data, solution, target, nonce1);
    }
    if found2 {
      assert WinningMessage(algo, before.data, solution, target, nonce2);
    }
  }
}
