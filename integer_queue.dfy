/*
  The singly linked FIFO of ints: `first` and `last` point into a chain of nodes joined
  by `next`, and `size` counts them.

  The queue's abstract state is the ghost sequence `Contents`, front first, and the ghost
  sequence `nodes` of the chain that holds it. `Valid` says the chain starts at `first`,
  follows `next` from each node to the one after it, ends at `last` whose `next` is null,
  holds `Contents` in order, and has `size` nodes. Once the queue has been emptied by
  `dequeue`, `first` is null while `last` still points at the old node; nothing reads it.
*/
module Fifo {

  class Node {
    var next: Node?
    const index: int

    constructor (index: int)
      ensures this.index == index && next == null
    {
      this.index := index;
      next := null;
    }
  }

  class IntegerQueue {
    var first: Node?
    var last: Node?
    var size: int

    ghost var Contents: seq<int>
    ghost var nodes: seq<Node>
    ghost var Repr: set<object>

    ghost predicate Valid()
      reads this, Repr
    {
      && this in Repr
      && |nodes| == |Contents| == size
      && (forall i :: 0 <= i < |nodes| ==> nodes[i] in Repr && nodes[i].index == Contents[i])
      && (forall i, j :: 0 <= i < j < |nodes| ==> nodes[i] != nodes[j])
      && (forall i :: 0 <= i < |nodes| - 1 ==> nodes[i].next == nodes[i + 1])
      && (if nodes == [] then first == null
          else first == nodes[0] && last == nodes[|nodes| - 1] && last.next == null)
    }

    /** A new queue: no nodes and `size == 0`. */
    constructor ()
      ensures Valid() && fresh(Repr) && Contents == []
    {
      first, last, size := null, null, 0;
      Contents, nodes, Repr := [], [], {this};
    }

    /** `isEmpty`: whether `size` is zero, which is whether the queue holds nothing. */
    method IsEmpty() returns (empty: bool)
      requires Valid()
      ensures empty <==> Contents == []
      ensures empty <==> first == null
    {
      return size == 0;
    }

    /** `enqueue(index)`: `index` goes to the back, behind everything already queued. */
    method Enqueue(index: int)
      requires Valid()
      modifies this, Repr
      ensures Valid() && fresh(Repr - old(Repr))
      ensures Contents == old(Contents) + [index]
    {
      var n := new Node(index);
      if size == 0 {
        first, last := n, n;
      } else {
        last.next := n;
        last := last.next;
      }
      size := size + 1;
      Contents, nodes, Repr := Contents + [index], nodes + [n], Repr + {n};
    }

    /** `dequeue`: the front value, which leaves the queue. The queue must not be empty. */
    method Dequeue() returns (i: int)
      requires Valid() && Contents != []
      modifies this
      ensures Valid() && Repr == old(Repr)
      ensures i == old(Contents)[0] && Contents == old(Contents)[1..]
    {
      i := first.index;
      first := first.next;
      size := size - 1;
      Contents, nodes := Contents[1..], nodes[1..];
    }
  }

  // ---------------------------------------------------------------------------
  // First in, first out

  /** A call on a queue: `enqueue(value)` or `dequeue()`. */
  datatype Call = Enq(value: int) | Deq

  datatype Option<T> = None | Some(value: T)

  /** What a run of calls leaves behind: the queue's contents and the values dequeued, in order. */
  datatype Trace = Trace(queue: seq<int>, out: seq<int>)

  /**
    The calls `calls` made in turn on a new queue, each acting on the contents as
    `IntegerQueue.Enqueue` and `IntegerQueue.Dequeue` promise; `None` when some
    `dequeue` meets an empty queue, where the Java code dereferences null.
   */
  function Run(calls: seq<Call>): Option<Trace>
  {
    if calls == [] then Some(Trace([], []))
    else
      match Run(calls[..|calls| - 1])
      case None => None
      case Some(t) =>
        match calls[|calls| - 1]
        case Enq(x) => Some(Trace(t.queue + [x], t.out))
        case Deq => if t.queue == [] then None else Some(Trace(t.queue[1..], t.out + [t.queue[0]]))
  }

  /** The values enqueued by `calls`, in call order. */
  function Enqueued(calls: seq<Call>): seq<int>
  {
    if calls == [] then []
    else Enqueued(calls[..|calls| - 1]) + (match calls[|calls| - 1] case Enq(x) => [x] case Deq => [])
  }

  /**
    FIFO: after any run of calls, the values dequeued followed by the values still queued
    are exactly the values enqueued, in the order they were enqueued. So every value comes
    out after all values enqueued before it and before all values enqueued after it.
   */
  lemma {:induction false} FirstInFirstOut(calls: seq<Call>)
    ensures Run(calls).Some? ==> Run(calls).value.out + Run(calls).value.queue == Enqueued(calls)
  {
    if calls != [] {
      var prefix := calls[..|calls| - 1];
      FirstInFirstOut(prefix);
      match Run(prefix)
      case None =>
      case Some(t) =>
        match calls[|calls| - 1]
        case Enq(x) =>
          assert t.out + (t.queue + [x]) == (t.out + t.queue) + [x];
        case Deq =>
          if t.queue != [] {
            assert (t.out + [t.queue[0]]) + t.queue[1..] == t.out + t.queue;
          }
    }
  }

  /** The dequeued values are a prefix of the enqueued ones. */
  lemma DequeuedPrefix(calls: seq<Call>)
    requires Run(calls).Some?
    ensures var out := Run(calls).value.out;
      |out| <= |Enqueued(calls)| && out == Enqueued(calls)[..|out|]
  {
    FirstInFirstOut(calls);
  }
}
