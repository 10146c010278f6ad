/** The growing circular buffer that skynet_mq.c uses twice: for the messages of a service and for
    the global queue of queues. */
module Circular {

  lemma Rotated<T>(q: seq<T>, head: nat, i: nat)
    requires head < |q| && i < |q|
    ensures 0 <= (head + i) % |q| < |q| && (q[head..] + q[..head])[i] == q[(head + i) % |q|]
  {
    Wrapped(head + i, |q|);
  }

  lemma Wrapped(a: nat, n: nat)
    requires a < 2 * n
    ensures a % n == if a < n then a else a - n
  {
  }

  class Buffer<T(0)> {
    var cap: nat
    var head: nat
    var tail: nat
    var queue: array<T>

    /** One slot always stays empty, so that head == tail means empty. */
    ghost predicate Valid()
      reads this
    {
      cap == queue.Length && head < cap && tail < cap
    }

    /** What was pushed and not popped yet, oldest first. */
    ghost function Contents(): seq<T>
      reads this, queue
      requires Valid()
    {
      if head <= tail then queue[head..tail] else queue[head..] + queue[..tail]
    }

    constructor (capacity: nat)
      requires capacity > 0
      ensures Valid() && Contents() == [] && cap == capacity && fresh(queue)
    {
      cap, head, tail := capacity, 0, 0;
      queue := new T[capacity];
    }

    /** The buffer doubles exactly when the push takes the last empty slot. */
    method Push(x: T)
      requires Valid()
      modifies this, queue
      ensures Valid() && (queue == old(queue) || fresh(queue))
      ensures Contents() == old(Contents()) + [x]
      ensures cap == if |old(Contents())| == old(cap) - 1 then 2 * old(cap) else old(cap)
    {
      ghost var was := Contents();
      queue[tail] := x;
      tail := tail + 1;
      if tail >= cap {
        tail := 0;
      }
      if head == tail {
        assert queue[head..] + queue[..head] == was + [x];
        Grow();
      } else {
        assert Contents() == was + [x];
      }
    }

    /** Every slot is taken, and the oldest is at head. */
    method Grow()
      requires cap == queue.Length > head == tail
      modifies this
      ensures Valid() && fresh(queue)
      ensures cap == 2 * old(cap) && Contents() == old(queue[head..] + queue[..head])
    {
      ghost var all := queue[..][head..] + queue[..][..head];
      var newQueue := new T[cap * 2];
      for i := 0 to cap
        invariant forall k :: 0 <= k < i ==> newQueue[k] == all[k]
        modifies newQueue
      {
        Rotated(queue[..], head, i);
        newQueue[i] := queue[(head + i) % cap];
      }
      head := 0;
      tail := cap;
      cap := cap * 2;
      queue := newQueue;
      assert queue[..tail] == all;
    }

    /** Nothing is written but head. */
    method Pop() returns (ok: bool, x: T)
      requires Valid()
      modifies this`head
      ensures Valid() && (ok <==> old(Contents()) != [])
      ensures ok ==> old(Contents()) == [x] + Contents()
      ensures !ok ==> Contents() == []
    {
      ok, x := head != tail, queue[head];
      if ok {
        ghost var was := Contents();
        head := head + 1;
        if head >= cap {
          head := 0;
        }
        assert Contents() == was[1..];
      }
    }
  }
}
