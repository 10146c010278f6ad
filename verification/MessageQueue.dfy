/** skynet_mq.c: a service's queue of messages, and the global queue of the queues that have work.
    Every method is one locked section, except DropQueue, which only the last thread runs. */
module MessageQueue {
  import opened Bits
  import opened Circular
  import opened Queues
  import opened Wrappers
  import Slots

  const DEFAULT_QUEUE_SIZE: nat := 64
  const PTYPE_MULTICAST: nat := 2

  /** skynet_mq_init: the smallest power of two, from 2 up, that is at least n. */
  method NewGlobalQueue(n: nat) returns (q: Buffer<ServiceQueue?>, ghost bits: nat)
    ensures q.Valid() && fresh(q) && fresh(q.queue) && q.Contents() == []
    ensures q.cap == Pow2(bits) && q.cap >= 2 && q.cap >= n && (q.cap > 2 ==> q.cap / 2 < n)
  {
    var cap := 2;
    bits := 1;
    while cap < n
      invariant cap == Pow2(bits) && cap >= 2 && (cap > 2 ==> cap / 2 < n)
    {
      cap := cap * 2;
      bits := bits + 1;
    }
    q := new Buffer(cap);
  }

  /** The type of a message is the top byte of its size word. */
  predicate IsMulticast(m: Message) { m.sz / Slots.HANDLE_LIMIT == PTYPE_MULTICAST }

  class ServiceQueue {
    const handle: nat
    const ring: Buffer<Message>
    var inGlobal: bool
    var release: bool

    ghost predicate Valid()
      reads this, ring, ring.queue
    {
      ring.Valid()
    }

    ghost function View(): Mq
      reads this, ring, ring.queue
      requires Valid()
    {
      Mq(ring.Contents(), inGlobal, release)
    }

    /** skynet_mq_create */
    constructor (handle: nat)
      ensures Valid() && View() == NEW_QUEUE && this.handle == handle
      ensures fresh(ring) && fresh(ring.queue)
    {
      this.handle := handle;
      ring := new Buffer(DEFAULT_QUEUE_SIZE);
      inGlobal, release := true, false;
    }

    /** skynet_mq_pop: the one place where the scheduling token is given up. */
    method Pop() returns (ok: bool, m: Message)
      requires Valid()
      modifies this`inGlobal, ring`head
      ensures Valid() && View() == Popped(old(View()))
      ensures ok <==> old(View()).messages != []
      ensures ok ==> m == old(View()).messages[0]
    {
      ok, m := ring.Pop();
      if !ok {
        inGlobal := false;
      }
    }

    /** skynet_mq_push: whoever finds no token puts the queue on the global one, once. */
    method Push(m: Option<Message>, global: Buffer<ServiceQueue?>)
      requires Valid() && global.Valid()
      modifies this`inGlobal, ring, ring.queue, global, global.queue
      ensures Valid() && (ring.queue == old(ring.queue) || fresh(ring.queue))
      ensures global.Valid() && (global.queue == old(global.queue) || fresh(global.queue))
      ensures View() == if m.Some? then Pushed(old(View()), m.value) else old(View()).(inGlobal := true)
      ensures global.Contents() == old(global.Contents()) + if old(View()).inGlobal then [] else [this]
    {
      if m.Some? {
        ring.Push(m.value);
      }
      if !inGlobal {
        inGlobal := true;
        global.Push(this);
      }
    }

    /** skynet_mq_force_push */
    method ForcePush(global: Buffer<ServiceQueue?>)
      requires Valid() && global.Valid() && View().inGlobal
      modifies global, global.queue
      ensures Valid() && View() == old(View())
      ensures global.Valid() && (global.queue == old(global.queue) || fresh(global.queue))
      ensures global.Contents() == old(global.Contents()) + [this]
    {
      global.Push(this);
    }

    /** skynet_mq_mark_release */
    method MarkRelease()
      requires Valid() && !View().release
      modifies this`release
      ensures Valid() && View() == Marked(old(View()))
    {
      release := true;
    }

    /** _drop_queue up to freeing the queue: every message is dropped, oldest first, unless the
        assertion about multicast messages stops the process (ok is false). */
    method DropQueue() returns (ok: bool, dropped: seq<Message>)
      requires Valid()
      modifies this`inGlobal, ring`head
      ensures Valid() && old(View()).messages == dropped + View().messages
      ensures ok <==> forall m :: m in old(View()).messages ==> !IsMulticast(m)
      ensures ok ==> View().messages == [] && !View().inGlobal
      ensures !ok ==> dropped != [] && IsMulticast(dropped[|dropped| - 1])
      ensures !ok ==> forall i :: 0 <= i < |dropped| - 1 ==> !IsMulticast(dropped[i])
    {
      hide View;
      ghost var all := View().messages;
      dropped := [];
      while true
        invariant Valid() && all == dropped + View().messages
        invariant forall m :: m in dropped ==> !IsMulticast(m)
        decreases |View().messages|
      {
        var got, m := Pop();
        if !got {
          return true, dropped;
        }
        dropped := dropped + [m];
        if m.sz / Slots.HANDLE_LIMIT == PTYPE_MULTICAST && m.sz != 0 {
          assert m in all;
          return false, dropped;
        }
      }
    }

    /** skynet_mq_release, by a worker that holds the token and found no context: a queue marked for
        release is dropped, any other goes back on the global queue with its token. */
    method Release(global: Buffer<ServiceQueue?>) returns (ok: bool, count: nat)
      requires Valid() && global.Valid() && View().inGlobal
      modifies this`inGlobal, ring`head, global, global.queue
      ensures Valid() && global.Valid() && (global.queue == old(global.queue) || fresh(global.queue))
      ensures !release ==>
        ok && count == 0 && View() == old(View()) && global.Contents() == old(global.Contents()) + [this]
      ensures release ==> global.Contents() == old(global.Contents())
      ensures release && ok ==> count == |old(View()).messages| && View() == Mq([], false, true)
      ensures ok <==> !release || forall m :: m in old(View()).messages ==> !IsMulticast(m)
    {
      if release {
        var dropped;
        ok, dropped := DropQueue();
        count := |dropped|;
      } else {
        ForcePush(global);
        ok, count := true, 0;
      }
    }
  }
}
