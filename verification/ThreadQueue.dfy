/** The thread queue of util.cpp on the intrusive list of elist.h. */
module ThreadQueue {
  import opened Wrappers
  import opened RingList

  //
  // What the queue's critical sections do, as values
  //

  /** One critical section.  `tq_pop` has two when it has to wait: the second starts when
      the condition wait returns `rc`, with or without a signal. */
  datatype Op<T> =
    | Push(data: T, memory: bool)
    | Pop
    | Resume(rc: int)
    | SetFrozen(frozen: bool)

  datatype Reply<T> = Pushed(ok: bool) | Returned(value: Option<T>) | Waits | Done

  datatype State<T> = State(items: seq<T>, frozen: bool)

  function Taken<T>(items: seq<T>): Option<T> {
    if items == [] then None else Some(items[0])
  }

  function Rest<T>(items: seq<T>): seq<T> {
    if items == [] then [] else items[1..]
  }

  function Apply<T>(s: State<T>, op: Op<T>): State<T> {
    match op
    case Push(data, memory) => if memory && !s.frozen then s.(items := s.items + [data]) else s
    case Pop => s.(items := Rest(s.items))
    case Resume(rc) => if rc != 0 then s else s.(items := Rest(s.items))
    case SetFrozen(frozen) => s.(frozen := frozen)
  }

  function Answer<T>(s: State<T>, op: Op<T>): Reply<T> {
    match op
    case Push(_, memory) => Pushed(memory && !s.frozen)
    case Pop => if s.items == [] then Waits else Returned(Taken(s.items))
    case Resume(rc) => Returned(if rc != 0 then None else Taken(s.items))
    case SetFrozen(_) => Done
  }

  function Exec<T>(s: State<T>, ops: seq<Op<T>>): State<T> {
    if ops == [] then s else Apply(Exec(s, ops[..|ops| - 1]), ops[|ops| - 1])
  }

  function Replies<T>(s: State<T>, ops: seq<Op<T>>): (r: seq<Reply<T>>)
    ensures |r| == |ops|
  {
    if ops == [] then [] else Replies(s, ops[..|ops| - 1]) + [Answer(Exec(s, ops[..|ops| - 1]), ops[|ops| - 1])]
  }

  /** The items whose push was answered with true, in order. */
  function Accepted<T>(ops: seq<Op<T>>, replies: seq<Reply<T>>): seq<T>
    requires |ops| == |replies|
  {
    if ops == [] then [] else
      var n := |ops| - 1;
      Accepted(ops[..n], replies[..n])
      + if ops[n].Push? && replies[n] == Pushed(true) then [ops[n].data] else []
  }

  /** The items handed out by pops, in order. */
  function Delivered<T>(replies: seq<Reply<T>>): seq<T> {
    if replies == [] then [] else
      var n := |replies| - 1;
      Delivered(replies[..n])
      + if replies[n].Returned? && replies[n].value.Some? then [replies[n].value.value] else []
  }

  /** The flag as the last freeze or thaw left it. */
  function FrozenBy<T>(frozen: bool, ops: seq<Op<T>>): bool {
    if ops == [] then frozen
    else if ops[|ops| - 1].SetFrozen? then ops[|ops| - 1].frozen
    else FrozenBy(frozen, ops[..|ops| - 1])
  }

  lemma GrowBoth<T>(i: seq<T>, a: seq<T>, d: seq<T>, q: seq<T>, x: T)
    requires i + a == d + q
    ensures i + (a + [x]) == d + (q + [x])
  {
    assert i + (a + [x]) == i + a + [x];
  }

  lemma HandOver<T>(d: seq<T>, q: seq<T>)
    requires q != []
    ensures d + q == d + [q[0]] + q[1..]
  {
    assert q == [q[0]] + q[1..];
  }

  /** In every interleaving of critical sections the items accepted so far, in order, are
      those handed out so far followed by those in the queue. */
  lemma {:induction false} Fifo<T>(s: State<T>, ops: seq<Op<T>>)
    ensures s.items + Accepted(ops, Replies(s, ops)) == Delivered(Replies(s, ops)) + Exec(s, ops).items
  {
    if ops != [] {
      var n := |ops| - 1;
      Fifo(s, ops[..n]);
      var before, r := Exec(s, ops[..n]), Replies(s, ops);
      assert r[n] == Answer(before, ops[n]) && Exec(s, ops) == Apply(before, ops[n]);
      assert r[..n] == Replies(s, ops[..n]);
      var a, d := Accepted(ops[..n], r[..n]), Delivered(r[..n]);
      assert Accepted(ops, r) == a + (if ops[n].Push? && r[n] == Pushed(true) then [ops[n].data] else []);
      assert a + [] == a && d + [] == d;
      if r[n] == Pushed(true) {
        GrowBoth(s.items, a, d, before.items, ops[n].data);
      } else if r[n].Returned? && r[n].value.Some? {
        HandOver(d, before.items);
      }
    }
  }

  lemma {:induction false} FrozenIs<T>(s: State<T>, ops: seq<Op<T>>)
    ensures Exec(s, ops).frozen == FrozenBy(s.frozen, ops)
  {
    if ops != [] {
      FrozenIs(s, ops[..|ops| - 1]);
    }
  }

  lemma {:induction false} ReplyAt<T>(s: State<T>, ops: seq<Op<T>>, i: nat)
    requires i < |ops|
    ensures Replies(s, ops)[i] == Answer(Exec(s, ops[..i]), ops[i])
    ensures Replies(s, ops)[..i] == Replies(s, ops[..i])
    ensures Exec(s, ops[..i + 1]) == Apply(Exec(s, ops[..i]), ops[i])
  {
    assert ops[..i + 1][..i] == ops[..i];
    if i < |ops| - 1 {
      var shorter := ops[..|ops| - 1];
      ReplyAt(s, shorter, i);
      assert shorter[..i] == ops[..i];
      assert Replies(s, ops)[..i] == Replies(s, shorter)[..i];
    } else {
      assert ops[..i + 1] == ops;
    }
  }

  /** A push is accepted exactly when its entry was allocated and the last freeze or thaw
      before it left the queue open; a refused push changes nothing. */
  lemma {:induction false} PushRefused<T>(s: State<T>, ops: seq<Op<T>>, i: nat)
    requires i < |ops| && ops[i].Push?
    ensures Replies(s, ops)[i] == Pushed(ops[i].memory && !FrozenBy(s.frozen, ops[..i]))
    ensures Replies(s, ops)[i] == Pushed(false) ==> Exec(s, ops[..i + 1]) == Exec(s, ops[..i])
  {
    ReplyAt(s, ops, i);
    FrozenIs(s, ops[..i]);
  }

  /** A pop that does return comes back empty-handed exactly when its wait failed or
      everything accepted before it has been handed out already; one that finds an item
      at once never waits.  Frozen or not makes no difference to it. */
  lemma {:induction false} PopEmptyHanded<T>(s: State<T>, ops: seq<Op<T>>, i: nat)
    requires i < |ops| && (ops[i].Pop? || ops[i].Resume?)
    ensures var r := Replies(s, ops);
      var left := |s.items| + |Accepted(ops[..i], r[..i])| - |Delivered(r[..i])|;
      && (r[i] == Waits <==> ops[i].Pop? && left == 0)
      && (r[i] == Returned(None) <==> ops[i].Resume? && (ops[i].rc != 0 || left == 0))
      && (r[i].Returned? && r[i].value.Some? ==>
            && left > 0
            && r[i].value.value == (s.items + Accepted(ops[..i], r[..i]))[|Delivered(r[..i])|])
  {
    ReplyAt(s, ops, i);
    Fifo(s, ops[..i]);
    var r := Replies(s, ops);
    assert |s.items + Accepted(ops[..i], r[..i])| == |Delivered(r[..i]) + Exec(s, ops[..i]).items|;
  }

  //
  // thread_q
  //

  class ThreadQ<T(0)> {
    const head: Node<T>
    var frozen: bool
    ghost var nodes: seq<Node<T>>

    ghost predicate Valid()
      reads this, head, nodes
    {
      Ring([head] + nodes)
    }

    ghost function Items(): seq<T>
      reads this, nodes
    {
      seq(|nodes|, i requires 0 <= i < |nodes| reads this, nodes => nodes[i].data)
    }

    ghost function Now(): State<T>
      reads this, nodes
    {
      State(Items(), frozen)
    }

    /** The queue that `tq_new` sets up; calloc clears the frozen flag. */
    constructor ()
      ensures Valid() && Now() == State([], false) && fresh(head) && nodes == []
    {
      var unused: T := *;
      head := new Node(unused);
      frozen := false;
      nodes := [];
    }

    /** `tq_push`; `memory` says whether calloc gave an entry. */
    method Push(data: T, memory: bool) returns (rc: bool)
      requires Valid()
      modifies this`nodes, head, nodes
      ensures Valid() && forall x :: x in nodes ==> x in old(nodes) || fresh(x)
      ensures Now() == Apply(old(Now()), Op.Push(data, memory))
      ensures Pushed(rc) == Answer(old(Now()), Op.Push(data, memory))
      ensures !rc ==> nodes == old(nodes) && unchanged(head) && unchanged(nodes)
    {
      if !memory {
        return false;
      }
      var ent := new Node(data);
      rc := true;
      if !frozen {
        Append(ent);
      } else {
        rc := false;
      }
    }

    /** `list_add_tail` of a new entry. */
    method Append(ent: Node<T>)
      requires Valid() && ent != head && ent !in nodes
      modifies this`nodes, head, nodes, ent
      ensures Valid() && nodes == old(nodes) + [ent] && Items() == old(Items()) + [old(ent.data)]
    {
      ListAddTail(ent, head, [head] + nodes);
      assert [head] + nodes + [ent] == [head] + (nodes + [ent]);
      assert forall i :: 0 <= i < |nodes| ==> nodes[i] in [head] + nodes;
      nodes := nodes + [ent];
    }

    /** The part of `tq_pop` that takes the first entry off. */
    method TakeFirst() returns (value: T)
      requires Valid() && nodes != []
      modifies this`nodes, head, nodes
      ensures Valid() && nodes == old(nodes[1..])
      ensures old(Items()) == [value] + Items()
    {
      ghost var c := [head] + nodes;
      assert c[0].next == c[After(|c|, 0)] && c[1] == nodes[0];
      var ent := head.next;
      value := ent.data;
      ListDel(ent, c, 1);
      assert Without(c, 1) == [head] + nodes[1..];
      assert forall i :: 0 <= i < |nodes| ==> nodes[i] in c;
      nodes := nodes[1..];
    }

    /** `tq_pop` up to the condition wait. */
    method Pop() returns (reply: Reply<T>)
      requires Valid()
      modifies this`nodes, head, nodes
      ensures Valid() && forall x :: x in nodes ==> x in old(nodes)
      ensures Now() == Apply(old(Now()), Op.Pop) && reply == Answer(old(Now()), Op.Pop)
    {
      var empty := ListEmpty(head, [head] + nodes);
      if empty {
        return Waits;
      }
      var value := TakeFirst();
      reply := Returned(Some(value));
    }

    /** `tq_pop` from the return of the condition wait. */
    method Resume(rc: int) returns (reply: Reply<T>)
      requires Valid()
      modifies this`nodes, head, nodes
      ensures Valid() && forall x :: x in nodes ==> x in old(nodes)
      ensures Now() == Apply(old(Now()), Op.Resume(rc)) && reply == Answer(old(Now()), Op.Resume(rc))
    {
      if rc != 0 {
        return Returned(None);
      }
      var empty := ListEmpty(head, [head] + nodes);
      if empty {
        return Returned(None);
      }
      var value := TakeFirst();
      reply := Returned(Some(value));
    }

    /** `tq_freezethaw`. */
    method FreezeThaw(frozen: bool)
      requires Valid()
      modifies this`frozen
      ensures Valid() && Now() == Apply(old(Now()), SetFrozen(frozen))
    {
      this.frozen := frozen;
    }
  }

  /** `tq_new`: no queue exactly when there is no memory for one. */
  method TqNew<T(0)>(memory: bool) returns (q: ThreadQ?<T>)
    ensures q == null <==> !memory
    ensures q != null ==> fresh(q) && fresh(q.head) && q.Valid() && q.nodes == [] && q.Now() == State([], false)
  {
    if !memory {
      return null;
    }
    q := new ThreadQ();
  }

  method Execute<T(0)>(q: ThreadQ<T>, op: Op<T>) returns (reply: Reply<T>)
    requires q.Valid()
    modifies q, q.head, q.nodes
    ensures q.Valid() && forall x :: x in q.nodes ==> x in old(q.nodes) || fresh(x)
    ensures q.Now() == Apply(old(q.Now()), op) && reply == Answer(old(q.Now()), op)
  {
    match op
    case Push(data, memory) =>
      var rc := q.Push(data, memory);
      reply := Pushed(rc);
    case Pop => reply := q.Pop();
    case Resume(rc) => reply := q.Resume(rc);
    case SetFrozen(frozen) =>
      q.FreezeThaw(frozen);
      reply := Done;
  }

  lemma ShorterRun<T>(s: State<T>, ops: seq<Op<T>>, k: nat)
    requires k < |ops|
    ensures Exec(s, ops[..k + 1]) == Apply(Exec(s, ops[..k]), ops[k])
    ensures Replies(s, ops[..k + 1]) == Replies(s, ops[..k]) + [Answer(Exec(s, ops[..k]), ops[k])]
  {
    assert ops[..k + 1][..k] == ops[..k];
  }

  /** Any sequence of critical sections on one new queue: what the callers saw, and the
      ring that is left. */
  method RunAll<T(0)>(ops: seq<Op<T>>) returns (q: ThreadQ<T>, replies: seq<Reply<T>>)
    ensures fresh(q) && q.Valid() && |replies| == |ops|
    ensures Accepted(ops, replies) == Delivered(replies) + q.Items()
    ensures q.frozen == FrozenBy(false, ops)
    ensures replies == Replies(State([], false), ops)
  {
    q := new ThreadQ();
    replies := [];
    ghost var start: State<T> := State([], false);
    for k := 0 to |ops|
      invariant q.Valid() && fresh(q) && fresh(q.head) && forall x :: x in q.nodes ==> fresh(x)
      invariant |replies| == k && replies == Replies(start, ops[..k]) && q.Now() == Exec(start, ops[..k])
    {
      forall i | 0 <= i < |q.nodes| ensures fresh(q.nodes[i]) {
        assert q.nodes[i] in q.nodes;
      }
      ShorterRun(start, ops, k);
      var reply := Execute(q, ops[k]);
      replies := replies + [reply];
    }
    assert ops[..|ops|] == ops;
    Fifo(start, ops);
    FrozenIs(start, ops);
    assert start.items + Accepted(ops, replies) == Accepted(ops, replies);
  }
}
