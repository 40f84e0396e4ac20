/** The singly linked callback queues of async.c. */
module CallbackQueues {
  import opened Bytes

  /** A registered callback; `fn` is None for a null function. */
  datatype Callback = Callback(fn: Option<nat>)

  class Node {
    const cb: Callback
    var next: Node?

    constructor (c: Callback)
      ensures cb == c && next == null
    {
      cb, next := c, null;
    }
  }

  /** The callbacks of some nodes, in order. */
  ghost function CallbacksOf(nodes: seq<Node>): (cs: seq<Callback>)
    ensures |cs| == |nodes| && forall i :: 0 <= i < |cs| ==> cs[i] == nodes[i].cb
  {
    seq(|nodes|, i requires 0 <= i < |nodes| => nodes[i].cb)
  }

  class CallbackList {
    var head: Node?
    var tail: Node?
    ghost var nodes: seq<Node>
    ghost var Repr: set<object>

    ghost predicate Valid()
      reads this, Repr
      ensures Valid() ==> this in Repr
    {
      && this in Repr && (forall n <- nodes :: n in Repr)
      && (nodes == [] ==> head == null && tail == null)
      && (nodes != [] ==> head == nodes[0] && tail == nodes[|nodes| - 1] && tail.next == null)
      && (forall i :: 0 <= i < |nodes| - 1 ==> nodes[i].next == nodes[i + 1])
      && (forall i, j :: 0 <= i < j < |nodes| ==> nodes[i] != nodes[j])
    }

    ghost function Items(): seq<Callback>
      reads `nodes
    {
      CallbacksOf(nodes)
    }

    constructor ()
      ensures Valid() && fresh(Repr) && Items() == []
    {
      head, tail := null, null;
      nodes := [];
      Repr := {this};
    }

    /** `__redisPushCallback` */
    method Push(c: Callback)
      requires Valid()
      modifies this, Repr
      ensures Valid() && fresh(Repr - old(Repr)) && Items() == old(Items()) + [c]
    {
      var cb := new Node(c);
      if head == null {
        head := cb;
      }
      if tail != null {
        tail.next := cb;
      }
      tail := cb;
      nodes := nodes + [cb];
      Repr := Repr + {cb};
    }

    /** `__redisShiftCallback`; None when the list is empty. */
    method Shift() returns (c: Option<Callback>)
      requires Valid()
      modifies this
      ensures Valid() && Repr == old(Repr)
      ensures old(Items()) == [] ==> c == None && Items() == []
      ensures old(Items()) != [] ==> c == Some(old(Items())[0]) && Items() == old(Items())[1..]
    {
      var cb := head;
      if cb == null {
        return None;
      }
      head := cb.next;
      if cb == tail {
        tail := null;
      }
      nodes := nodes[1..];
      c := Some(cb.cb);
    }
  }
}
