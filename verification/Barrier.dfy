/** The barrier that stands in for `pthread_barrier_t` on macOS
    (pthread_barrier_apple.hpp), as a transition system over single statements.

    A thread moves by one statement at a time; the mutex, the condition variable with
    spurious wakeups, and the 32-bit generation counter are explicit. */
module Barrier {

  const WRAP: nat := 0x1_0000_0000

  /** Where a thread is. g is the value it read into its local `generation`. */
  datatype Pc =
    | Outside
    | Entering            // blocked in or about to take the mutex
    | Capture             // const generation = barrier->generation
    | Arrive(g: nat)      // if (++arrived == required)
    | Reset               // arrived = 0
    | Advance             // ++generation
    | Broadcast           // pthread_cond_broadcast
    | LeaveSerial         // unlock; return 1
    | Check(g: nat)       // while (generation == barrier->generation)
    | Asleep(g: nat)      // inside pthread_cond_wait
    | Awake(g: nat)       // woken, waiting for the mutex
    | LeaveWaiter         // unlock; return 0

  /** The barrier fields, the mutex owner, the threads, and what has happened so far:
      how often each thread has arrived, what its waits returned, how many rounds were
      completed and by which thread. */
  datatype State = State(
    required: nat, arrived: nat, generation: nat, locked: bool, owner: nat, pc: seq<Pc>,
    entered: seq<nat>, results: seq<seq<nat>>, round: nat, serial: seq<nat>)

  predicate Init(s: State) {
    && 0 < s.required < WRAP && |s.pc| == |s.entered| == |s.results| == s.required
    && s.arrived == 0 && s.generation == 0 && !s.locked && s.round == 0 && s.serial == []
    && forall t :: 0 <= t < s.required ==> s.pc[t] == Outside && s.entered[t] == 0 && s.results[t] == []
  }

  //
  // The steps
  //

  function Move(s: State, t: nat, p: Pc): State
    requires t < |s.pc|
  {
    s.(pc := s.pc[t := p])
  }

  /** Returning gives back the mutex and the result. */
  function Return(s: State, t: nat, result: nat): State
    requires t < |s.pc| && t < |s.results|
  {
    s.(pc := s.pc[t := Outside], results := s.results[t := s.results[t] + [result]], locked := false)
  }

  function WakeAll(pc: seq<Pc>): (r: seq<Pc>)
    ensures |r| == |pc|
  {
    seq(|pc|, t requires 0 <= t < |pc| => if pc[t].Asleep? then Awake(pc[t].g) else pc[t])
  }

  predicate HasLock(p: Pc) {
    p.Capture? || p.Arrive? || p.Reset? || p.Advance? || p.Broadcast? || p.LeaveSerial? || p.Check? || p.LeaveWaiter?
  }

  /** One statement of thread t, or a spurious wakeup of t when `spurious`. */
  ghost predicate Step(s: State, s': State, t: nat, spurious: bool)
    requires |s.pc| == |s.entered| == |s.results|
  {
    && t < |s.pc|
    && match s.pc[t]
       case Outside => !spurious && s' == Move(s, t, Entering)
       case Entering => !spurious && !s.locked && s' == Move(s, t, Capture).(locked := true, owner := t)
       case Capture => !spurious && s' == Move(s, t, Arrive(s.generation))
       case Arrive(g) =>
         var n := (s.arrived + 1) % WRAP;
         && !spurious
         && s' == Move(s, t, if n == s.required then Reset else Check(g))
                  .(arrived := n, entered := s.entered[t := s.entered[t] + 1])
       case Reset => !spurious && s' == Move(s, t, Advance).(arrived := 0)
       case Advance =>
         && !spurious
         && s' == Move(s, t, Broadcast)
                  .(generation := (s.generation + 1) % WRAP, round := s.round + 1, serial := s.serial + [t])
       case Broadcast => !spurious && s' == s.(pc := WakeAll(s.pc)[t := LeaveSerial])
       case LeaveSerial => !spurious && s' == Return(s, t, 1)
       case Check(g) =>
         && !spurious
         && s' == if g == s.generation then Move(s, t, Asleep(g)).(locked := false) else Move(s, t, LeaveWaiter)
       case Asleep(g) => spurious && s' == Move(s, t, Awake(g))
       case Awake(g) => !spurious && !s.locked && s' == Move(s, t, Check(g)).(locked := true, owner := t)
       case LeaveWaiter => !spurious && s' == Return(s, t, 0)
  }

  //
  // The invariant
  //

  function Count(s: seq<nat>, v: nat): (n: nat)
    ensures n <= |s|
  {
    if s == [] then 0 else Count(s[1..], v) + (if s[0] == v then 1 else 0)
  }

  /** Some thread is between completing the count and advancing the generation. */
  predicate Completing(s: State) {
    s.locked && s.owner < |s.pc| && (s.pc[s.owner].Reset? || s.pc[s.owner].Advance?)
  }

  predicate Announcing(s: State) {
    s.locked && s.owner < |s.pc| && s.pc[s.owner].Broadcast?
  }

  /** Thread t: how its arrivals, results and captured generation relate to the round. */
  predicate ThreadOk(s: State, t: nat)
    requires |s.pc| == |s.entered| == |s.results| == s.required && t < s.required && |s.serial| == s.round
  {
    var e, p := s.entered[t], s.pc[t];
    && (HasLock(p) ==> s.locked && s.owner == t)
    && match p
       case Outside => e == s.round && |s.results[t]| == e
       case Entering => e == s.round && |s.results[t]| == e
       case Capture => e == s.round && |s.results[t]| == e
       case Arrive(g) => e == s.round && |s.results[t]| == e && g == s.generation
       case Reset => e == s.round + 1 && |s.results[t]| == s.round
       case Advance => e == s.round + 1 && |s.results[t]| == s.round
       case Broadcast => e == s.round > 0 && |s.results[t]| == s.round - 1 && s.serial[s.round - 1] == t
       case LeaveSerial => e == s.round > 0 && |s.results[t]| == s.round - 1 && s.serial[s.round - 1] == t
       case Check(g) => WaiterOk(s, t, g)
       case Asleep(g) => WaiterOk(s, t, g) && (e == s.round ==> Announcing(s))
       case Awake(g) => WaiterOk(s, t, g)
       case LeaveWaiter => e == s.round > 0 && |s.results[t]| == s.round - 1 && s.serial[s.round - 1] != t
  }

  /** A waiter belongs to the current round or the one just completed, never an older one. */
  predicate WaiterOk(s: State, t: nat, g: nat)
    requires |s.entered| == |s.results| == s.required && t < s.required && |s.serial| == s.round
  {
    var e := s.entered[t];
    && (e == s.round + 1 || (e == s.round > 0 && s.serial[s.round - 1] != t))
    && g == (e - 1) % WRAP && |s.results[t]| == e - 1
  }

  /** A recorded result is 1 exactly for the thread that completed that round. */
  predicate ResultsOk(s: State, t: nat)
    requires |s.results| == s.required && t < s.required
  {
    && |s.results[t]| <= |s.serial|
    && forall k :: 0 <= k < |s.results[t]| ==> s.results[t][k] == if s.serial[k] == t then 1 else 0
  }

  predicate Shape(s: State) {
    && 0 < s.required < WRAP && |s.pc| == |s.entered| == |s.results| == s.required
    && |s.serial| == s.round && s.generation == s.round % WRAP
    && (s.locked ==> s.owner < s.required && HasLock(s.pc[s.owner]))
    && forall k :: 0 <= k < s.round ==> s.serial[k] < s.required
  }

  predicate CountOk(s: State) {
    var n := Count(s.entered, s.round + 1);
    if Completing(s) then
      n == s.required == |s.entered| && s.arrived == if s.owner < |s.pc| && s.pc[s.owner].Advance? then 0 else n
    else
      s.arrived == n < s.required && (Announcing(s) ==> n == 0)
  }

  predicate Inv(s: State) {
    && Shape(s) && CountOk(s)
    && (forall t :: 0 <= t < s.required ==> ThreadOk(s, t))
    && (forall t :: 0 <= t < s.required ==> ResultsOk(s, t))
  }

  lemma {:induction false} CountUpdate(s: seq<nat>, t: nat, v: nat, x: nat)
    requires t < |s|
    ensures Count(s[t := x], v) == Count(s, v) - (if s[t] == v then 1 else 0) + (if x == v then 1 else 0)
  {
    if t > 0 {
      CountUpdate(s[1..], t - 1, v, x);
      assert s[t := x][1..] == s[1..][t - 1 := x];
    } else {
      assert s[t := x][1..] == s[1..];
    }
  }

  lemma {:induction false} CountAll(s: seq<nat>, v: nat)
    ensures Count(s, v) == |s| <==> forall t :: 0 <= t < |s| ==> s[t] == v
  {
    if s != [] {
      CountAll(s[1..], v);
      assert (forall t :: 0 <= t < |s| ==> s[t] == v)
        <==> s[0] == v && forall t :: 0 <= t < |s[1..]| ==> s[1..][t] == v by {
        assert forall t :: 0 <= t < |s[1..]| ==> s[1..][t] == s[t + 1];
        if s[0] == v && forall t :: 0 <= t < |s[1..]| ==> s[1..][t] == v {
          forall t | 0 <= t < |s| ensures s[t] == v {
            assert t > 0 ==> s[1..][t - 1] == s[t];
          }
        }
      }
    }
  }

  lemma {:induction false} CountNone(s: seq<nat>, v: nat)
    requires forall t :: 0 <= t < |s| ==> s[t] != v
    ensures Count(s, v) == 0
  {
    if s != [] {
      CountNone(s[1..], v);
    }
  }

  lemma InitInv(s: State)
    requires Init(s)
    ensures Inv(s)
  {
    CountNone(s.entered, 1);
  }

  /** Every statement of every thread, and every spurious wakeup, keeps the invariant. */
  lemma StepInv(s: State, s': State, t: nat, spurious: bool)
    requires Inv(s) && Step(s, s', t, spurious)
    ensures Inv(s')
  {
    assert ThreadOk(s, t);
    match s.pc[t] {
      case Outside => MovesInv(s, s', t);
      case Entering => LockInv(s, s', t);
      case Capture => MovesInv(s, s', t);
      case Arrive(g) => ArriveInv(s, s', t);
      case Reset => ResetInv(s, s', t);
      case Advance => AdvanceInv(s, s', t);
      case Broadcast => BroadcastInv(s, s', t);
      case LeaveSerial => ReturnInv(s, s', t);
      case Check(g) => CheckInv(s, s', t);
      case Asleep(g) => SpuriousInv(s, s', t);
      case Awake(g) => LockInv(s, s', t);
      case LeaveWaiter => ReturnInv(s, s', t);
    }
  }

  /** A step of thread t that touches neither the round nor thread u leaves u in order. */
  lemma Unaffected(s: State, s': State, t: nat, u: nat)
    requires Shape(s) && t < s.required && u < s.required && t != u
    requires ThreadOk(s, t) && ThreadOk(s, u) && ResultsOk(s, u)
    requires |s'.pc| == |s'.entered| == |s'.results| == s'.required == s.required
    requires s'.round == s.round && s'.generation == s.generation && s'.serial == s.serial
    requires s'.pc[u] == s.pc[u] && s'.entered[u] == s.entered[u] && s'.results[u] == s.results[u]
    requires HasLock(s.pc[t]) || !s.locked || (s'.locked && s'.owner == s.owner && s.owner != t)
    requires Announcing(s) ==> s'.locked && s'.owner == s.owner && s'.pc[s.owner] == s.pc[s.owner]
    ensures ThreadOk(s', u) && ResultsOk(s', u)
  {
  }

  lemma MovesInv(s: State, s': State, t: nat)
    requires Inv(s) && Step(s, s', t, false) && (s.pc[t].Outside? || s.pc[t].Capture?)
    ensures Inv(s')
  {
    assert ThreadOk(s, t);
    forall u | 0 <= u < s'.required ensures ThreadOk(s', u) && ResultsOk(s', u) {
      assert ThreadOk(s, u) && ResultsOk(s, u);
    }
  }

  lemma LockInv(s: State, s': State, t: nat)
    requires Inv(s) && Step(s, s', t, false) && (s.pc[t].Entering? || s.pc[t].Awake?)
    ensures Inv(s')
  {
    assert ThreadOk(s, t);
    forall u | 0 <= u < s'.required ensures ThreadOk(s', u) && ResultsOk(s', u) {
      assert ThreadOk(s, u) && ResultsOk(s, u);
    }
  }

  lemma SpuriousInv(s: State, s': State, t: nat)
    requires Inv(s) && Step(s, s', t, true)
    ensures Inv(s')
  {
    assert ThreadOk(s, t);
    forall u | 0 <= u < s'.required ensures ThreadOk(s', u) && ResultsOk(s', u) {
      assert ThreadOk(s, u) && ResultsOk(s, u);
    }
  }

  lemma ArriveInv(s: State, s': State, t: nat)
    requires Inv(s) && Step(s, s', t, false) && s.pc[t].Arrive?
    ensures Inv(s')
  {
    assert ThreadOk(s, t) && ResultsOk(s, t);
    ArriveShape(s, s', t);
    forall u | 0 <= u < s'.required && u != t ensures ThreadOk(s', u) && ResultsOk(s', u) {
      Unaffected(s, s', t, u);
    }
  }

  lemma ArriveShape(s: State, s': State, t: nat)
    requires Shape(s) && CountOk(s) && t < s.required && s.pc[t].Arrive? && ThreadOk(s, t) && ResultsOk(s, t)
    requires Step(s, s', t, false)
    ensures Shape(s') && CountOk(s') && ThreadOk(s', t) && ResultsOk(s', t)
  {
    CountUpdate(s.entered, t, s.round + 1, s.round + 1);
    WrapSmall(s.arrived + 1);
  }

  lemma ResetInv(s: State, s': State, t: nat)
    requires Inv(s) && Step(s, s', t, false) && s.pc[t].Reset?
    ensures Inv(s')
  {
    assert ThreadOk(s, t);
    forall u | 0 <= u < s'.required ensures ThreadOk(s', u) && ResultsOk(s', u) {
      assert ThreadOk(s, u) && ResultsOk(s, u);
    }
  }

  lemma AdvanceInv(s: State, s': State, t: nat)
    requires Inv(s) && Step(s, s', t, false) && s.pc[t].Advance?
    ensures Inv(s')
  {
    assert ThreadOk(s, t);
    CountAll(s.entered, s.round + 1);
    AdvanceShape(s, s', t);
    forall u | 0 <= u < s'.required ensures ThreadOk(s', u) && ResultsOk(s', u) {
      NextRound(s, s', t, u);
    }
  }

  lemma AdvanceShape(s: State, s': State, t: nat)
    requires Shape(s) && t < s.required && s.pc[t].Advance? && ThreadOk(s, t) && s.arrived == 0
    requires forall u :: 0 <= u < s.required ==> s.entered[u] == s.round + 1
    requires s' == Move(s, t, Broadcast)
                   .(generation := (s.generation + 1) % WRAP, round := s.round + 1, serial := s.serial + [t])
    ensures Shape(s') && CountOk(s')
  {
    WrapSucc(s.round);
    CountNone(s'.entered, s'.round + 1);
  }

  lemma WrapSucc(n: nat)
    ensures (n % WRAP + 1) % WRAP == (n + 1) % WRAP
  {
  }

  lemma WrapSmall(n: nat)
    requires n < WRAP
    ensures n % WRAP == n
  {
  }

  /** A thread that has arrived is in order when the round it arrived in is complete. */
  lemma NextRound(s: State, s': State, t: nat, u: nat)
    requires Shape(s) && t < s.required && u < s.required && s.pc[t].Advance?
    requires ThreadOk(s, t) && ThreadOk(s, u) && ResultsOk(s, u) && s.entered[u] == s.round + 1
    requires s' == Move(s, t, Broadcast)
                   .(generation := (s.generation + 1) % WRAP, round := s.round + 1, serial := s.serial + [t])
    ensures ThreadOk(s', u) && ResultsOk(s', u)
  {
  }

  lemma BroadcastInv(s: State, s': State, t: nat)
    requires Inv(s) && Step(s, s', t, false) && s.pc[t].Broadcast?
    ensures Inv(s')
  {
    assert ThreadOk(s, t);
    forall u | 0 <= u < s'.required ensures ThreadOk(s', u) && ResultsOk(s', u) {
      assert ThreadOk(s, u) && ResultsOk(s, u);
    }
  }

  lemma ReturnInv(s: State, s': State, t: nat)
    requires Inv(s) && Step(s, s', t, false) && (s.pc[t].LeaveSerial? || s.pc[t].LeaveWaiter?)
    ensures Inv(s')
  {
    assert ThreadOk(s, t);
    forall u | 0 <= u < s'.required ensures ThreadOk(s', u) && ResultsOk(s', u) {
      assert ThreadOk(s, u) && ResultsOk(s, u);
    }
  }

  lemma CheckInv(s: State, s': State, t: nat)
    requires Inv(s) && Step(s, s', t, false) && s.pc[t].Check?
    ensures Inv(s')
  {
    assert ThreadOk(s, t);
    forall u | 0 <= u < s'.required ensures ThreadOk(s', u) && ResultsOk(s', u) {
      assert ThreadOk(s, u) && ResultsOk(s, u);
    }
  }

  //
  // What holds in every interleaving
  //

  /** A run: from an initial state, any thread at a time, spurious wakeups included. */
  ghost predicate IsRun(run: seq<State>) {
    && |run| > 0 && Init(run[0])
    && forall i :: 0 <= i < |run| - 1 ==> Steps(run[i], run[i + 1])
  }

  ghost predicate Steps(s: State, s': State) {
    |s.pc| == |s.entered| == |s.results| && exists t, spurious :: Step(s, s', t, spurious)
  }

  lemma {:induction false} RunInv(run: seq<State>, i: nat)
    requires IsRun(run) && i < |run|
    ensures Inv(run[i])
  {
    if i == 0 {
      InitInv(run[0]);
    } else {
      RunInv(run, i - 1);
      assert Steps(run[i - 1], run[i - 1 + 1]);
      var t, spurious :| Step(run[i - 1], run[i], t, spurious);
      StepInv(run[i - 1], run[i], t, spurious);
    }
  }

  /** The barrier: when thread t has returned from its k-th wait, every thread has
      arrived at its k-th wait. */
  lemma NoneLeavesEarly(run: seq<State>, i: nat, t: nat, u: nat, k: nat)
    requires IsRun(run) && i < |run|
    requires t < |run[i].results| && u < |run[i].entered| && |run[i].results[t]| >= k
    ensures run[i].entered[u] >= k
  {
    RunInv(run, i);
    assert ThreadOk(run[i], t) && ThreadOk(run[i], u);
  }

  /** Once all threads have returned from a wait, exactly one of them got 1. */
  lemma ExactlyOneSerial(run: seq<State>, i: nat, k: nat) returns (w: nat)
    requires IsRun(run) && i < |run|
    requires forall t :: 0 <= t < |run[i].results| ==> |run[i].results[t]| > k
    ensures w < |run[i].results| && run[i].results[w][k] == 1
    ensures forall t :: 0 <= t < |run[i].results| && t != w ==> run[i].results[t][k] == 0
  {
    RunInv(run, i);
    var s := run[i];
    assert ResultsOk(s, 0);
    w := s.serial[k];
    forall t | 0 <= t < |s.results| ensures s.results[t][k] == if t == w then 1 else 0 {
      assert ResultsOk(s, t);
    }
  }

  /** Even before all have returned, no wait gives 1 to two threads. */
  lemma AtMostOneSerial(run: seq<State>, i: nat, k: nat, t: nat, u: nat)
    requires IsRun(run) && i < |run| && t < |run[i].results| && u < |run[i].results|
    requires |run[i].results[t]| > k && |run[i].results[u]| > k
    requires run[i].results[t][k] == 1 && run[i].results[u][k] == 1
    ensures t == u
  {
    RunInv(run, i);
    assert ResultsOk(run[i], t) && ResultsOk(run[i], u);
  }

  /** Wrap-around of the 32-bit generation is harmless: a waiter's saved generation
      equals the current one exactly while its own round is still open. */
  lemma WrapIsHarmless(run: seq<State>, i: nat, t: nat)
    requires IsRun(run) && i < |run| && t < |run[i].pc| && t < |run[i].entered|
    requires run[i].pc[t].Check? || run[i].pc[t].Asleep? || run[i].pc[t].Awake?
    ensures run[i].round <= run[i].entered[t] <= run[i].round + 1
    ensures run[i].pc[t].g == run[i].generation <==> run[i].entered[t] == run[i].round + 1
  {
    RunInv(run, i);
    assert ThreadOk(run[i], t);
  }

  /** No lost wakeup: a thread sleeps only while its own round is open, or in the moment
      before the broadcast that ends it. */
  lemma SleepsOnlyWhileOpen(run: seq<State>, i: nat, t: nat)
    requires IsRun(run) && i < |run| && t < |run[i].pc| && t < |run[i].entered| && run[i].pc[t].Asleep?
    ensures run[i].entered[t] == run[i].round + 1 || Announcing(run[i])
  {
    RunInv(run, i);
    assert ThreadOk(run[i], t);
  }

  /** In every reachable state some thread can move without the help of a spurious
      wakeup; in particular the threads are never all asleep. */
  lemma NeverStuck(run: seq<State>, i: nat) returns (t: nat, s': State)
    requires IsRun(run) && i < |run|
    ensures |run[i].pc| == |run[i].entered| == |run[i].results| && Step(run[i], s', t, false)
  {
    RunInv(run, i);
    var s := run[i];
    if s.locked {
      t := s.owner;
      s' := Successor(s, t);
    } else {
      SomeoneAwake(s);
      t :| 0 <= t < s.required && !s.pc[t].Asleep?;
      assert ThreadOk(s, t);
      s' := Successor(s, t);
    }
  }

  /** The state after thread t executes its statement. */
  function Successor(s: State, t: nat): (s': State)
    requires |s.pc| == |s.entered| == |s.results| && t < |s.pc|
    requires !s.pc[t].Asleep? && (s.pc[t].Entering? || s.pc[t].Awake? ==> !s.locked)
    ensures Step(s, s', t, false)
  {
    match s.pc[t]
    case Outside => Move(s, t, Entering)
    case Entering => Move(s, t, Capture).(locked := true, owner := t)
    case Capture => Move(s, t, Arrive(s.generation))
    case Arrive(g) =>
      var n := (s.arrived + 1) % WRAP;
      Move(s, t, if n == s.required then Reset else Check(g))
        .(arrived := n, entered := s.entered[t := s.entered[t] + 1])
    case Reset => Move(s, t, Advance).(arrived := 0)
    case Advance =>
      Move(s, t, Broadcast).(generation := (s.generation + 1) % WRAP, round := s.round + 1, serial := s.serial + [t])
    case Broadcast => s.(pc := WakeAll(s.pc)[t := LeaveSerial])
    case LeaveSerial => Return(s, t, 1)
    case Check(g) => if g == s.generation then Move(s, t, Asleep(g)).(locked := false) else Move(s, t, LeaveWaiter)
    case Awake(g) => Move(s, t, Check(g)).(locked := true, owner := t)
    case LeaveWaiter => Return(s, t, 0)
  }

  lemma SomeoneAwake(s: State)
    requires Inv(s) && !s.locked
    ensures exists u :: 0 <= u < s.required && !s.pc[u].Asleep?
  {
    if forall u :: 0 <= u < s.required ==> s.pc[u].Asleep? {
      forall u | 0 <= u < |s.entered| ensures s.entered[u] == s.round + 1 {
        assert ThreadOk(s, u);
      }
      CountAll(s.entered, s.round + 1);
      assert false;
    }
  }

  //
  // Progress
  //

  /** How many steps a thread can still take before the round must advance; `complete`
      says that the round it arrived in is. */
  function Rank(p: Pc, complete: bool): (r: nat)
    ensures r <= 12
  {
    match p
    case Outside => 8
    case Entering => 7
    case Capture => 6
    case Arrive(_) => 5
    case Reset => 4
    case Advance => 3
    case Broadcast => 10
    case LeaveSerial => 9
    case Check(_) => if complete then 10 else 3
    case Asleep(_) => if complete then 12 else 2
    case Awake(_) => if complete then 11 else 4
    case LeaveWaiter => 9
  }

  function Sum(a: seq<nat>): nat {
    if a == [] then 0 else a[0] + Sum(a[1..])
  }

  function Ranks(s: State): (r: seq<nat>)
    requires |s.pc| == |s.entered|
    ensures |r| == |s.pc|
  {
    seq(|s.pc|, t requires 0 <= t < |s.pc| => Rank(s.pc[t], s.entered[t] == s.round))
  }

  function Measure(s: State): nat
    requires |s.pc| == |s.entered|
  {
    Sum(Ranks(s))
  }

  lemma {:induction false} SumUpdate(a: seq<nat>, t: nat, x: nat)
    requires t < |a|
    ensures Sum(a[t := x]) == Sum(a) - a[t] + x
  {
    if t > 0 {
      SumUpdate(a[1..], t - 1, x);
      assert a[t := x][1..] == a[1..][t - 1 := x];
    } else {
      assert a[t := x][1..] == a[1..];
    }
  }

  lemma {:induction false} SumBelow(a: seq<nat>, b: seq<nat>)
    requires |a| == |b| && forall t :: 0 <= t < |a| ==> a[t] <= b[t]
    ensures Sum(a) <= Sum(b)
  {
    if a != [] {
      SumBelow(a[1..], b[1..]);
    }
  }

  lemma {:induction false} SumConstant(a: seq<nat>, x: nat)
    requires forall t :: 0 <= t < |a| ==> a[t] <= x
    ensures Sum(a) <= |a| * x
  {
    if a != [] {
      SumConstant(a[1..], x);
      assert |a| * x == x + (|a| - 1) * x;
    }
  }

  lemma MeasureBound(s: State)
    requires |s.pc| == |s.entered|
    ensures Measure(s) <= 12 * |s.pc|
  {
    SumConstant(Ranks(s), 12);
  }

  /** A step of one thread alone. */
  lemma OneMoved(s: State, s': State, t: nat)
    requires |s.pc| == |s.entered| == |s'.pc| == |s'.entered| && t < |s.pc| && s'.round == s.round
    requires forall u :: 0 <= u < |s.pc| && u != t ==> s'.pc[u] == s.pc[u] && s'.entered[u] == s.entered[u]
    ensures Measure(s') == Measure(s) - Ranks(s)[t] + Ranks(s')[t]
  {
    assert Ranks(s') == Ranks(s)[t := Ranks(s')[t]];
    SumUpdate(Ranks(s), t, Ranks(s')[t]);
  }

  predicate AllReturned(s: State) {
    forall t :: 0 <= t < |s.results| ==> |s.results[t]| == s.round
  }

  /** Every statement of every thread brings the end of the round nearer, and the step that
      ends it is taken only when all have returned from the one before. */
  lemma StepProgress(s: State, s': State, t: nat)
    requires Inv(s) && Step(s, s', t, false)
    ensures |s'.pc| == |s'.entered|
    ensures if s.pc[t].Advance? then s'.round == s.round + 1 && AllReturned(s)
            else s'.round == s.round && Measure(s') < Measure(s)
  {
    assert ThreadOk(s, t);
    match s.pc[t] {
      case Advance => AdvanceWhenReturned(s, t);
      case Broadcast => BroadcastProgress(s, s', t);
      case Arrive(g) => OneMoved(s, s', t);
      case Outside => OneMoved(s, s', t);
      case Entering => OneMoved(s, s', t);
      case Capture => OneMoved(s, s', t);
      case Reset => OneMoved(s, s', t);
      case LeaveSerial => OneMoved(s, s', t);
      case Check(g) => OneMoved(s, s', t);
      case Awake(g) => OneMoved(s, s', t);
      case LeaveWaiter => OneMoved(s, s', t);
    }
  }

  lemma AdvanceWhenReturned(s: State, t: nat)
    requires Inv(s) && t < |s.pc| && s.pc[t].Advance?
    ensures AllReturned(s)
  {
    assert ThreadOk(s, t);
    CountAll(s.entered, s.round + 1);
    forall u | 0 <= u < |s.results| ensures |s.results[u]| == s.round {
      assert ThreadOk(s, u);
    }
  }

  lemma BroadcastProgress(s: State, s': State, t: nat)
    requires Inv(s) && Step(s, s', t, false) && s.pc[t].Broadcast?
    ensures Measure(s') < Measure(s)
  {
    assert ThreadOk(s, t);
    var a, b := Ranks(s), Ranks(s');
    forall u | 0 <= u < |a| ensures b[u] <= a[t := 9][u] {
      assert ThreadOk(s, u);
      if s.entered[u] == s.round + 1 {
        CountSome(s.entered, s.round + 1, u);
        assert false;
      }
    }
    SumBelow(b, a[t := 9]);
    SumUpdate(a, t, 9);
  }

  lemma {:induction false} CountSome(s: seq<nat>, v: nat, t: nat)
    requires t < |s| && s[t] == v
    ensures Count(s, v) > 0
  {
    if t > 0 {
      CountSome(s[1..], v, t - 1);
    }
  }

  lemma SpuriousCost(s: State, s': State, t: nat)
    requires Inv(s) && Step(s, s', t, true)
    ensures |s'.pc| == |s'.entered| && s'.round == s.round && Measure(s') <= Measure(s) + 2
  {
    OneMoved(s, s', t);
  }

  /** Who moved, and whether it was a spurious wakeup. */
  datatype Choice = Choice(thread: nat, spurious: bool)

  ghost predicate Chosen(s: State, s': State, c: Choice) {
    |s.pc| == |s.entered| == |s.results| && Step(s, s', c.thread, c.spurious)
  }

  ghost predicate IsScheduled(run: seq<State>, sched: seq<Choice>) {
    && |run| == |sched| + 1 && Init(run[0])
    && forall i :: 0 <= i < |sched| ==> Chosen(run[i], run[i + 1], sched[i])
  }

  function Spurious(sched: seq<Choice>): (n: nat)
    ensures n <= |sched|
  {
    if sched == [] then 0 else Spurious(sched[..|sched| - 1]) + if sched[|sched| - 1].spurious then 1 else 0
  }

  lemma ScheduledIsRun(run: seq<State>, sched: seq<Choice>)
    requires IsScheduled(run, sched)
    ensures IsRun(run)
  {
    forall i | 0 <= i < |run| - 1 ensures Steps(run[i], run[i + 1]) {
      assert Chosen(run[i], run[i + 1], sched[i]);
    }
  }

  lemma ShorterSchedule(run: seq<State>, sched: seq<Choice>)
    requires IsScheduled(run, sched) && sched != []
    ensures var k := |sched|;
      && IsScheduled(run[..k], sched[..k - 1]) && run[..k][k - 1] == run[k - 1] && run[..k][0] == run[0]
      && Chosen(run[k - 1], run[k], sched[k - 1])
  {
    var k := |sched|;
    assert Chosen(run[k - 1], run[k - 1 + 1], sched[k - 1]);
    forall i | 0 <= i < k - 1 ensures Chosen(run[..k][i], run[..k][i + 1], sched[..k - 1][i]) {
      assert Chosen(run[i], run[i + 1], sched[i]);
    }
  }

  /** The statements executed so far are paid for by completed rounds, up to two for each
      spurious wakeup. */
  ghost predicate PaidFor(n: nat, s: State, steps: nat, spurious: nat)
    requires |s.pc| == |s.entered|
  {
    steps + Measure(s) <= Paid(n, s.round) + 8 * n + 3 * spurious
  }

  lemma {:induction false} StepsArePaid(run: seq<State>, sched: seq<Choice>)
    requires IsScheduled(run, sched)
    ensures var n, s := run[0].required, run[|sched|];
      Inv(s) && s.required == n && PaidFor(n, s, |sched|, Spurious(sched))
  {
    var k := |sched|;
    if k == 0 {
      InitInv(run[0]);
      SumConstant(Ranks(run[0]), 8);
    } else {
      ShorterSchedule(run, sched);
      StepsArePaid(run[..k], sched[..k - 1]);
      StepPaid(run[0].required, run[k - 1], run[k], sched[k - 1], k - 1, Spurious(sched[..k - 1]));
    }
  }

  lemma StepPaid(n: nat, s: State, s': State, c: Choice, steps: nat, spurious: nat)
    requires Inv(s) && s.required == n && Chosen(s, s', c) && PaidFor(n, s, steps, spurious)
    ensures Inv(s') && s'.required == n && PaidFor(n, s', steps + 1, spurious + if c.spurious then 1 else 0)
  {
    StepInv(s, s', c.thread, c.spurious);
    KeepsRequired(s, s', c);
    if c.spurious {
      SpuriousCost(s, s', c.thread);
    } else {
      StepProgress(s, s', c.thread);
      MeasureBound(s');
    }
  }

  lemma KeepsRequired(s: State, s': State, c: Choice)
    requires Chosen(s, s', c)
    ensures s'.required == s.required
  {
  }

  /** What a number of rounds can pay for. */
  function Paid(n: nat, rounds: nat): nat {
    if rounds == 0 then 0 else 12 * n + 1 + Paid(n, rounds - 1)
  }

  lemma PaidGrows(n: nat, j: nat, k: nat)
    requires j <= k
    ensures Paid(n, j) <= Paid(n, k)
  {
    if j < k {
      PaidGrows(n, j, k - 1);
    }
  }

  /** Progress, whoever is scheduled: after more than (12 * required + 1) * k + 8 * required
      steps, and three more for each spurious wakeup, every thread has returned from its
      k-th wait. */
  lemma EveryoneReturns(run: seq<State>, sched: seq<Choice>, k: nat, t: nat)
    requires IsScheduled(run, sched) && t < |run[|sched|].results|
    requires |sched| > Paid(run[0].required, k) + 8 * run[0].required + 3 * Spurious(sched)
    ensures |run[|sched|].results[t]| >= k
  {
    StepsArePaid(run, sched);
    var s := run[|sched|];
    if s.round <= k {
      PaidGrows(s.required, s.round, k);
      assert false;
    }
    assert ThreadOk(s, t);
  }

  /** The barrier works: after so many steps every thread has returned from wait number k
      (counting from 0), exactly one of them with 1, and none of them had returned from it
      at a time when some thread had not arrived there. */
  lemma BarrierWorks(run: seq<State>, sched: seq<Choice>, k: nat) returns (w: nat)
    requires IsScheduled(run, sched)
    requires |sched| > Paid(run[0].required, k + 1) + 8 * run[0].required + 3 * Spurious(sched)
    ensures var s := run[|sched|];
      && (forall t :: 0 <= t < |s.results| ==> |s.results[t]| > k)
      && w < |s.results| && s.results[w][k] == 1
      && (forall t :: 0 <= t < |s.results| && t != w ==> s.results[t][k] == 0)
    ensures forall i, t, u ::
      0 <= i < |run| && 0 <= t < |run[i].results| && 0 <= u < |run[i].entered| && |run[i].results[t]| > k
      ==> run[i].entered[u] > k
  {
    ScheduledIsRun(run, sched);
    var last := |sched|;
    forall t | 0 <= t < |run[last].results| ensures |run[last].results[t]| > k {
      EveryoneReturns(run, sched, k + 1, t);
    }
    w := ExactlyOneSerial(run, last, k);
    forall i, t, u |
      0 <= i < |run| && 0 <= t < |run[i].results| && 0 <= u < |run[i].entered| && |run[i].results[t]| > k
      ensures run[i].entered[u] > k
    {
      NoneLeavesEarly(run, i, t, u, k + 1);
    }
  }
}
