/** The mutex-protected deque of messages, and the payloads behind the messages. */
module Queues {
  import opened Media
  import LockOrder

  /** What a thread has done to the mutexes. */
  class CTrace {
    ghost var ops: seq<LockOrder.Op>

    constructor ()
      ensures ops == []
    {
      ops := [];
    }
  }

  class CQueue {
    const name: LockOrder.Lock
    var items: Queue
    var locked: bool

    constructor (name: LockOrder.Lock)
      ensures this.name == name && items == [] && !locked
    {
      this.name, items, locked := name, [], false;
    }

    method Acquire(ghost trace: CTrace)
      requires !locked
      modifies `locked, trace
      ensures locked && trace.ops == old(trace.ops) + [LockOrder.Acquire(name)]
    {
      locked := true;
      trace.ops := trace.ops + [LockOrder.Acquire(name)];
    }

    method Release(ghost trace: CTrace)
      requires locked
      modifies `locked, trace
      ensures !locked && trace.ops == old(trace.ops) + [LockOrder.Release(name)]
    {
      locked := false;
      trace.ops := trace.ops + [LockOrder.Release(name)];
    }

    method PushBack(m: Message)
      requires locked
      modifies `items
      ensures items == old(items) + [m]
    {
      items := items + [m];
    }

    method PopFront() returns (m: Message)
      requires locked && items != []
      modifies `items
      ensures old(items) == [m] + items
    {
      m := items[0];
      items := items[1..];
    }

    method PopBack() returns (m: Message)
      requires locked && items != []
      modifies `items
      ensures old(items) == items + [m]
    {
      m := items[|items| - 1];
      items := items[..|items| - 1];
    }
  }

  /** CThread: the cancel flag and the mutex around it. */
  class CThread {
    const name: LockOrder.Thread
    var cancel: bool
    var locked: bool

    constructor (name: LockOrder.Thread)
      ensures this.name == name && !cancel && !locked
    {
      this.name, cancel, locked := name, false, false;
    }

    method Start()
      modifies `cancel
      ensures !cancel
    {
      cancel := false;
    }

    /** The part of stop() before it waits for the thread. */
    method Stop(ghost trace: CTrace)
      requires !locked
      modifies this, trace
      ensures cancel && !locked && trace.ops == old(trace.ops) + LockOrder.Alone(LockOrder.CancelOf(name))
    {
      locked := true;
      trace.ops := trace.ops + [LockOrder.Acquire(LockOrder.CancelOf(name))];
      cancel := true;
      locked := false;
      trace.ops := trace.ops + [LockOrder.Release(LockOrder.CancelOf(name))];
    }

    method IsCancel(ghost trace: CTrace) returns (c: bool)
      requires !locked
      modifies `locked, trace
      ensures c == cancel && !locked && trace.ops == old(trace.ops) + LockOrder.Alone(LockOrder.CancelOf(name))
    {
      locked := true;
      trace.ops := trace.ops + [LockOrder.Acquire(LockOrder.CancelOf(name))];
      c := cancel;
      locked := false;
      trace.ops := trace.ops + [LockOrder.Release(LockOrder.CancelOf(name))];
    }
  }

  /** Payloads are numbered as they are allocated; released and leaked are the histories of their ends. */
  class CHeap {
    var next: nat
    ghost var released: seq<nat>
    ghost var leaked: seq<nat>

    constructor ()
      ensures next == 0 && released == [] && leaked == []
    {
      next, released, leaked := 0, [], [];
    }

    method Allocate() returns (id: nat)
      modifies `next
      ensures id == old(next) && next == id + 1
    {
      id := next;
      next := next + 1;
    }

    /** clearCMessage: every kind of message but the empty one owns a payload. */
    ghost method Clear(m: Message)
      modifies `released
      ensures released == old(released) + if m.kind == EmptyMessage then [] else [m.id]
    {
      if m.kind != EmptyMessage {
        released := released + [m.id];
      }
    }

    ghost method Forget(id: nat)
      modifies `leaked
      ensures leaked == old(leaked) + [id]
    {
      leaked := leaked + [id];
    }
  }

  /** Releases every message of a queue, front first. */
  method Drain(q: CQueue, heap: CHeap, ghost trace: CTrace)
    requires !q.locked && forall k :: 0 <= k < |q.items| ==> q.items[k].kind != EmptyMessage
    modifies q, heap`released, trace
    ensures q.items == [] && !q.locked
    ensures heap.released == old(heap.released) + Ids(old(q.items))
    ensures trace.ops == old(trace.ops) + LockOrder.Alone(q.name)
  {
    q.Acquire(trace);
    while q.items != []
      invariant q.locked && forall k :: 0 <= k < |q.items| ==> q.items[k].kind != EmptyMessage
      invariant trace.ops == old(trace.ops) + [LockOrder.Acquire(q.name)]
      invariant heap.released + Ids(q.items) == old(heap.released) + Ids(old(q.items))
      decreases |q.items|
    {
      HeadTail(q.items);
      ghost var before := q.items;
      var m := q.PopFront();
      assert m == before[0] && q.items == before[1..];
      heap.Clear(m);
    }
    q.Release(trace);
  }

  /** Releases the newest message of a locked queue, if it has one. */
  method DropNewest(q: CQueue, heap: CHeap)
    requires q.locked && forall k :: 0 <= k < |q.items| ==> q.items[k].kind != EmptyMessage
    modifies q`items, heap`released
    ensures q.items == WithoutNewest(old(q.items))
    ensures heap.released == old(heap.released) + Ids(Newest(old(q.items)))
  {
    if q.items != [] {
      IdsOne(q.items[|q.items| - 1]);
      var m := q.PopBack();
      heap.Clear(m);
    }
  }
}
