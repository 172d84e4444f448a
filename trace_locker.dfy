/** The bounded trace of shared locks held on the nodes of a path while it is
    walked. Holding a lock on a node is modelled as the node's presence in the
    trace; every lock the trace gives up is appended to `released`, in the order
    it is given up. */
module Tracing {
  import opened Common

  /** The entries of `s`, last first. */
  function Reversed<E>(s: seq<E>): (r: seq<E>)
    ensures |r| == |s|
    ensures forall i :: 0 <= i < |s| ==> r[i] == s[|s| - 1 - i]
  {
    if s == [] then [] else [s[|s| - 1]] + Reversed(s[..|s| - 1])
  }

  /** Draining `front + [e]` releases `e` first, then drains `front`. */
  lemma ReversedSnoc<E>(front: seq<E>, e: E)
    ensures Reversed(front + [e]) == [e] + Reversed(front)
  {
    assert (front + [e])[..|front|] == front;
  }

  class TraceLocker<E> {
    /** The locks held, oldest first. */
    var trace: seq<E>
    /** The capacity fixed at construction. */
    var depth: nat
    /** Every lock this trace has given up, in release order. */
    var released: seq<E>

    predicate Valid()
      reads this
    {
      |trace| <= depth
    }

    /** `TraceLocker(depth)`: an empty trace of the given capacity. */
    constructor(depth: nat)
      ensures Valid()
      ensures this.depth == depth && trace == [] && released == []
    {
      this.depth := depth;
      trace := [];
      released := [];
    }

    /** The move constructor: the new trace takes over the locks of `other`
        without releasing any of them, and `other` is left empty. */
    constructor Move(other: TraceLocker<E>)
      requires other.Valid()
      modifies other
      ensures Valid()
      ensures depth == old(other.depth) && trace == old(other.trace) && released == []
      ensures other.trace == [] && other.depth == old(other.depth)
      ensures other.released == old(other.released)
    {
      depth := other.depth;
      trace := other.trace;
      released := [];
      other.trace := [];
    }

    /** `Push`: take the lock on `e`; at full capacity throw `out_of_range` and
        leave the trace as it was. */
    method Push(e: E) returns (r: Outcome<()>)
      requires Valid()
      modifies this
      ensures Valid()
      ensures depth == old(depth) && released == old(released)
      ensures r.Thrown? <==> |old(trace)| == depth
      ensures r.Thrown? ==> r.error == OutOfRange && trace == old(trace)
      ensures r.Done? ==> trace == old(trace) + [e]
    {
      if |trace| == depth {
        return Thrown(OutOfRange);
      }
      trace := trace + [e];
      return Done(());
    }

    /** `Pop`: release the most recently taken lock; on an empty trace throw
        `out_of_range`. */
    method Pop() returns (r: Outcome<()>)
      requires Valid()
      modifies this
      ensures Valid()
      ensures depth == old(depth)
      ensures r.Thrown? <==> old(trace) == []
      ensures r.Thrown? ==> r.error == OutOfRange && trace == old(trace) && released == old(released)
      ensures r.Done? ==> trace == old(trace)[..|old(trace)| - 1]
      ensures r.Done? ==> released == old(released) + [old(trace)[|old(trace)| - 1]]
    {
      if trace == [] {
        return Thrown(OutOfRange);
      }
      released := released + [trace[|trace| - 1]];
      trace := trace[..|trace| - 1];
      return Done(());
    }

    /** The destructor: release every lock still held, newest first. */
    method Destroy()
      requires Valid()
      modifies this
      ensures Valid()
      ensures depth == old(depth) && trace == []
      ensures released == old(released) + Reversed(old(trace))
    {
      while trace != []
        invariant Valid() && depth == old(depth)
        invariant released + Reversed(trace) == old(released) + Reversed(old(trace))
        decreases |trace|
      {
        var front := trace[..|trace| - 1];
        var last := trace[|trace| - 1];
        assert trace == front + [last];
        ReversedSnoc(front, last);
        released := released + [last];
        trace := front;
      }
    }
  }
}
