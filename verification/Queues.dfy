/** A service's message queue as a value, with the flags that schedule and reclaim it, and what
    each locked section of skynet_mq.c does to it. */
module Queues {

  /** struct skynet_message; the payload is represented by its size word. */
  datatype Message = Message(source: nat, session: int, sz: nat)

  /** Messages in arrival order; in_global and release as in struct message_queue. */
  datatype Mq = Mq(messages: seq<Message>, inGlobal: bool, release: bool)

  /** skynet_mq_create: the queue starts with its scheduling token in the creator's hands. */
  const NEW_QUEUE: Mq := Mq([], true, false)

  /** skynet_mq_push; the caller must also put the queue on the global one if it was not there. */
  function Pushed(q: Mq, m: Message): Mq {
    q.(messages := q.messages + [m], inGlobal := true)
  }

  /** skynet_mq_pop: finding nothing gives the token up. */
  function Popped(q: Mq): Mq {
    if q.messages == [] then q.(inGlobal := false) else q.(messages := q.messages[1..])
  }

  function Marked(q: Mq): Mq { q.(release := true) }
}
