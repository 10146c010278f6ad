/** skynet_server.c over skynet_mq.c as a transition system: any number of senders, workers, service
    creators and killers interleave at the granularity of the locked sections and atomic updates.
    A service and its queue are named by the service's handle, which is never reused. */
module Scheduler {
  import opened Queues
  import opened Wrappers

  type Handle = nat

  /** struct skynet_context with its queue; ctx->queue is set as of `hasQueue`, and `freed` and
      `queueFreed` say that the memory is gone.
      `failed` and the last four fields are history: whether the init function reported failure, and
      every message pushed, run by the callback, being run, and dropped. */
  datatype Service = Service(
    ref: int, registered: bool, init: bool, failed: bool, freed: bool,
    hasQueue: bool, queue: Mq, queueFreed: bool,
    pushed: seq<Message>, handled: seq<Message>, inflight: seq<Message>, dropped: seq<Message>)

  /** Where a thread stands, between two atomic steps, in a function that works on service h. */
  datatype Pc =
    | Registering(h: Handle)               // skynet_context_new: registered, will create the queue
    | Creating(h: Handle)                  // ... the init function runs
    | Created(h: Handle)                   // ... released its reference, will set ctx->init
    | Launching(h: Handle)                 // ... will push the queue for the first time
    | Failing(h: Handle)                   // ... init failed and the reference is released, will retire
    | Sending(h: Handle, m: Message)       // skynet_context_push: grabbed the context
    | Sent(h: Handle)                      // ... pushed, will release
    | Taken(h: Handle)                     // message_dispatch: popped the queue off the global one
    | Orphan(h: Handle)                    // ... found no context, will ask skynet_mq_release
    | Serving(h: Handle)                   // ... grabbed the context, will pop a message
    | Handling(h: Handle, m: Message)      // ... runs the callback
    | Done(h: Handle)                      // ... will push the queue back
    | Leaving(h: Handle)                   // ... will release the context
    | Dropping(h: Handle)                  // _drop_queue
    | Deleting(h: Handle, next: After)     // _delete_context: took the count to 0, will mark the queue
    | Freeing(h: Handle, next: After)      // ... will free the context

  /** Where _delete_context returns to: out of the function, or to the end of skynet_context_new. */
  datatype After = ToExit | ToLaunch | ToFail

  datatype State = State(services: map<Handle, Service>, global: seq<Handle>, threads: map<nat, Pc>, next: Handle)

  const NEW_SERVICE: Service := Service(2, true, false, false, false, false, NEW_QUEUE, false, [], [], [], [])

  // ---------- effects on one service

  function Grab(s: Service): Service { s.(ref := s.ref + 1) }

  /** The atomic decrement of skynet_context_release. */
  function Decrement(s: Service): Service { s.(ref := s.ref - 1) }

  function Resume(h: Handle, next: After): Option<Pc> {
    match next
    case ToExit => None
    case ToLaunch => Some(Launching(h))
    case ToFail => Some(Failing(h))
  }

  /** What one step of a thread does to the service it works on, where the thread stands next
      (None: out of the function), and whether the service's queue joins the global queue. */
  datatype Effect = Effect(service: Service, pc: Option<Pc>, requeue: bool)

  /** skynet_context_release up to the deletion it may call for. */
  function Release(s: Service, h: Handle, next: After): Effect {
    var left := Decrement(s);
    Effect(left, if left.ref == 0 then Some(Deleting(h, next)) else Resume(h, next), false)
  }

  /** skynet_handle_retire of a registered handle, up to the deletion it may call for. */
  function Unregister(s: Service, h: Handle): Effect { Release(s.(registered := false), h, ToExit) }

  /** One atomic step. `ok` is the result of the service's init function. */
  function Act(pc: Pc, s: Service, ok: bool): Effect {
    match pc
    case Registering(h) => Effect(s.(hasQueue := true), Some(Creating(h)), false)
    case Creating(h) =>
      if !ok then Release(s.(failed := true), h, ToFail)
      else if s.ref == 1 then Release(s, h, ToLaunch)
      else Effect(Decrement(s), Some(Created(h)), false)
    case Created(h) => Effect(s.(init := true), Some(Launching(h)), false)
    case Launching(h) => Effect(s, None, true)
    case Failing(h) => if s.registered then Unregister(s, h) else Effect(s, None, false)
    case Sending(h, m) =>
      if !s.hasQueue then Effect(s, Some(Sent(h)), false)
      else Effect(s.(queue := Pushed(s.queue, m), pushed := s.pushed + [m]), Some(Sent(h)), !s.queue.inGlobal)
    case Sent(h) => Release(s, h, ToExit)
    case Taken(h) =>
      if s.registered then Effect(Grab(s), Some(Serving(h)), false) else Effect(s, Some(Orphan(h)), false)
    case Orphan(h) =>
      if s.queue.release then Effect(s, Some(Dropping(h)), false) else Effect(s, None, true)
    case Serving(h) =>
      if s.queue.messages == [] then Effect(s.(queue := Popped(s.queue)), Some(Leaving(h)), false)
      else
        var m := s.queue.messages[0];
        Effect(s.(queue := Popped(s.queue), inflight := [m]), Some(Handling(h, m)), false)
    case Handling(h, m) => Effect(s.(inflight := [], handled := s.handled + [m]), Some(Done(h)), false)
    case Done(h) => Effect(s, Some(Leaving(h)), true)
    case Leaving(h) => Release(s, h, ToExit)
    case Dropping(h) =>
      if s.queue.messages == [] then Effect(s.(queue := Popped(s.queue), queueFreed := true), None, false)
      else Effect(s.(queue := Popped(s.queue), dropped := s.dropped + [s.queue.messages[0]]), Some(Dropping(h)), false)
    case Deleting(h, next) => Effect(s.(queue := Marked(s.queue)), Some(Freeing(h, next)), false)
    case Freeing(h, next) => Effect(s.(freed := true), Resume(h, next), false)
  }

  // ---------- the system

  datatype Step =
    | Launch(t: nat)                           // skynet_context_new up to skynet_handle_register
    | Advance(t: nat, ok: bool)                // the next atomic step of a thread
    | Send(t: nat, h: Handle, m: Message)      // skynet_context_push up to the grab
    | Take(t: nat)                             // skynet_globalmq_pop
    | Retire(t: nat, h: Handle)                // skynet_handle_retire up to the deletion it may call for

  const INITIAL: State := State(map[], [], map[], 1)

  function SetThread(threads: map<nat, Pc>, t: nat, pc: Option<Pc>): map<nat, Pc> {
    match pc
    case None => threads - {t}
    case Some(p) => threads[t := p]
  }

  /** Steps that are not possible change nothing. */
  function Next(st: State, step: Step): State {
    match step
    case Launch(t) =>
      if t in st.threads then st
      else st.(services := st.services[st.next := NEW_SERVICE], next := st.next + 1,
               threads := st.threads[t := Registering(st.next)])
    case Advance(t, ok) =>
      if t !in st.threads || st.threads[t].h !in st.services then st
      else
        var h := st.threads[t].h;
        var e := Act(st.threads[t], st.services[h], ok);
        st.(services := st.services[h := e.service],
            global := if e.requeue then st.global + [h] else st.global,
            threads := SetThread(st.threads, t, e.pc))
    case Send(t, h, m) =>
      if t in st.threads || h !in st.services || !st.services[h].registered then st
      else st.(services := st.services[h := Grab(st.services[h])], threads := st.threads[t := Sending(h, m)])
    case Take(t) =>
      if t in st.threads || st.global == [] then st
      else st.(global := st.global[1..], threads := st.threads[t := Taken(st.global[0])])
    case Retire(t, h) =>
      if t in st.threads || h !in st.services || !st.services[h].registered then st
      else
        var e := Unregister(st.services[h], h);
        st.(services := st.services[h := e.service], threads := SetThread(st.threads, t, e.pc))
  }

  function Run(steps: seq<Step>): State {
    if steps == [] then INITIAL else Next(Run(steps[..|steps| - 1]), steps[|steps| - 1])
  }

  // ---------- counting threads

  /** What a thread holds of its service: the token, a reference, the duty to delete or free it. */
  datatype Role =
    | Making | Boot | BootFree | Token | TokenRef | Running | Drop | Ref | Idle
    | Delete | DeleteToken | Free | FreeToken

  function RoleOf(pc: Pc): Role {
    match pc
    case Registering(_) => Making
    case Creating(_) => Boot
    case Created(_) => BootFree
    case Launching(_) | Taken(_) | Orphan(_) => Token
    case Failing(_) => Idle
    case Serving(_) | Done(_) => TokenRef
    case Handling(_, _) => Running
    case Dropping(_) => Drop
    case Sending(_, _) | Sent(_) | Leaving(_) => Ref
    case Deleting(_, next) => if next.ToLaunch? then DeleteToken else Delete
    case Freeing(_, next) => if next.ToLaunch? then FreeToken else Free
  }

  function TokenOf(r: Role): nat { if r.Ref? || r.Idle? || r.Delete? || r.Free? then 0 else 1 }
  function RefOf(r: Role): nat { if r.Making? || r.Boot? || r.TokenRef? || r.Running? || r.Ref? then 1 else 0 }
  function BootOf(r: Role): nat { if r.Making? || r.Boot? || r.BootFree? then 1 else 0 }
  function RunOf(r: Role): nat { if r.Running? then 1 else 0 }
  function DropOf(r: Role): nat { if r.Drop? then 1 else 0 }
  function DeleteOf(r: Role): nat { if r.Delete? || r.DeleteToken? then 1 else 0 }
  function FreeOf(r: Role): nat { if r.Free? || r.FreeToken? then 1 else 0 }

  function MakeOf(r: Role): nat { if r.Making? then 1 else 0 }

  /** Tokens of a service, references held by threads, creators, running callbacks, droppers, threads
      that will mark the queue, that will free the context, and that will create the queue. */
  datatype Sums = Sums(
    tokens: int, refs: int, boots: int, running: int, drop: int, deleting: int, freeing: int, making: int)
  {
    function Plus(r: Role): Sums {
      Sums(tokens + TokenOf(r), refs + RefOf(r), boots + BootOf(r), running + RunOf(r), drop + DropOf(r),
           deleting + DeleteOf(r), freeing + FreeOf(r), making + MakeOf(r))
    }

    function Minus(r: Role): Sums {
      Sums(tokens - TokenOf(r), refs - RefOf(r), boots - BootOf(r), running - RunOf(r), drop - DropOf(r),
           deleting - DeleteOf(r), freeing - FreeOf(r), making - MakeOf(r))
    }

    /** One thread in role r is among those counted, and a token holder is of one kind only. */
    ghost predicate Includes(r: Role) {
      && 0 <= BootOf(r) <= boots && 0 <= RunOf(r) <= running && 0 <= DropOf(r) <= drop
      && RefOf(r) <= refs && running - RunOf(r) <= refs - RefOf(r)
      && DeleteOf(r) <= deleting && FreeOf(r) <= freeing && MakeOf(r) <= making
      && boots + running + drop + (TokenOf(r) - BootOf(r) - RunOf(r) - DropOf(r)) <= tokens
    }
  }

  const NOBODY: Sums := Sums(0, 0, 0, 0, 0, 0, 0, 0)

  function Occurrences(q: seq<Handle>, h: Handle): nat { multiset(q)[h] }

  function With(n: Sums, pc: Pc, h: Handle): Sums { if pc.h == h then n.Plus(RoleOf(pc)) else n }

  /** What the threads together hold of service h. */
  ghost function Tally(threads: map<nat, Pc>, h: Handle): Sums
    decreases |threads|
  {
    if threads == map[] then NOBODY
    else
      var t :| t in threads;
      With(Tally(threads - {t}, h), threads[t], h)
  }

  /** The threads, and the places in the global queue. */
  ghost function Held(st: State, h: Handle): Sums {
    var n := Tally(st.threads, h);
    n.(tokens := n.tokens + Occurrences(st.global, h))
  }

  // ---------- the invariant

  /** References: one for the handle table, one for each thread that grabbed the context. When the last
      goes, one thread marks the queue, then frees the context. */
  ghost predicate RefsOk(s: Service, n: Sums) {
    && s.ref == n.refs + (if s.registered then 1 else 0)
    && n.deleting == (if s.ref == 0 && !s.queue.release then 1 else 0)
    && n.freeing == (if s.queue.release && !s.freed then 1 else 0)
    && (s.queue.release ==> s.ref == 0) && (s.freed ==> s.queue.release)
    && (n.drop > 0 ==> s.queue.release)
  }

  /** The scheduling token exists at most once: exactly while in_global is set, unless init failed. */
  ghost predicate TokenOk(s: Service, n: Sums) {
    && n.making == (if s.hasQueue then 0 else 1)
    && n.tokens == (if s.queue.inGlobal && !s.failed then 1 else 0)
    && (s.queue.messages != [] || s.failed ==> s.queue.inGlobal)
    && (s.queueFreed ==> s.queue.release && !s.queue.inGlobal)
    && (!s.init && !s.failed && s.ref > 0 ==> n.boots == 1)
  }

  ghost predicate Conserved(s: Service) {
    s.pushed == s.handled + s.inflight + s.dropped + s.queue.messages
  }

  /** Messages: none lost, duplicated or reordered; only a dead service drops any, and only a service
      whose init succeeded runs or drops any. */
  ghost predicate HistoryOk(s: Service, n: Sums) {
    && Conserved(s)
    && |s.inflight| == n.running
    && (s.dropped != [] ==> s.queue.release)
    && (n.boots > 0 || s.failed ==> s.handled == [] && s.inflight == [] && s.dropped == [])
  }

  /** One service against the threads that work on it. */
  ghost predicate ServiceOk(s: Service, n: Sums) {
    RefsOk(s, n) && TokenOk(s, n) && HistoryOk(s, n)
  }

  /** The sums after one thread moved on. */
  function Moved(n: Sums, from: Role, e: Effect): Sums {
    var gone := n.Minus(from).(tokens := n.tokens - TokenOf(from) + if e.requeue then 1 else 0);
    if e.pc.None? then gone else gone.Plus(RoleOf(e.pc.value))
  }

  /** The thread's next step is a release. */
  predicate Releases(pc: Pc) { pc.Creating? || pc.Failing? || pc.Sent? || pc.Leaving? }

  lemma ReleaseKeepsRefs(pc: Pc, s: Service, ok: bool, n: Sums)
    requires Releases(pc) && RefsOk(s, n) && n.Includes(RoleOf(pc))
    ensures var e := Act(pc, s, ok); RefsOk(e.service, Moved(n, RoleOf(pc), e))
  {
  }

  lemma ActKeepsRefs(pc: Pc, s: Service, ok: bool, n: Sums)
    requires RefsOk(s, n) && n.Includes(RoleOf(pc))
    ensures var e := Act(pc, s, ok); RefsOk(e.service, Moved(n, RoleOf(pc), e))
  {
    hide Act, RefsOk;
    if Releases(pc) {
      ReleaseKeepsRefs(pc, s, ok, n);
    } else if pc.Deleting? || pc.Freeing? {
      DeleteKeepsRefs(pc, s, ok, n);
    } else if MovesMessages(pc) {
      MessageKeepsRefs(pc, s, ok, n);
    } else {
      OtherKeepsRefs(pc, s, ok, n);
    }
  }

  lemma DeleteKeepsRefs(pc: Pc, s: Service, ok: bool, n: Sums)
    requires (pc.Deleting? || pc.Freeing?) && RefsOk(s, n) && n.Includes(RoleOf(pc))
    ensures var e := Act(pc, s, ok); RefsOk(e.service, Moved(n, RoleOf(pc), e))
  {
    hide Release, Unregister;
  }

  predicate MovesMessages(pc: Pc) { pc.Sending? || pc.Serving? || pc.Handling? || pc.Dropping? }

  lemma MessageKeepsRefs(pc: Pc, s: Service, ok: bool, n: Sums)
    requires MovesMessages(pc) && RefsOk(s, n) && n.Includes(RoleOf(pc))
    ensures var e := Act(pc, s, ok); RefsOk(e.service, Moved(n, RoleOf(pc), e))
  {
    hide Release, Unregister, Resume;
  }

  lemma OtherKeepsRefs(pc: Pc, s: Service, ok: bool, n: Sums)
    requires !Releases(pc) && !pc.Deleting? && !pc.Freeing? && !MovesMessages(pc)
    requires RefsOk(s, n) && n.Includes(RoleOf(pc))
    ensures var e := Act(pc, s, ok); RefsOk(e.service, Moved(n, RoleOf(pc), e))
  {
    hide Release, Unregister, Resume;
  }

  lemma ReleaseKeepsToken(pc: Pc, s: Service, ok: bool, n: Sums)
    requires Releases(pc) && RefsOk(s, n) && TokenOk(s, n) && n.Includes(RoleOf(pc))
    ensures var e := Act(pc, s, ok); TokenOk(e.service, Moved(n, RoleOf(pc), e))
  {
  }

  lemma ActKeepsToken(pc: Pc, s: Service, ok: bool, n: Sums)
    requires RefsOk(s, n) && TokenOk(s, n) && n.Includes(RoleOf(pc))
    ensures var e := Act(pc, s, ok); TokenOk(e.service, Moved(n, RoleOf(pc), e))
  {
    hide Release, Unregister;
    if Releases(pc) {
      ReleaseKeepsToken(pc, s, ok, n);
    }
  }

  lemma ActKeepsHistory(pc: Pc, s: Service, ok: bool, n: Sums)
    requires ServiceOk(s, n) && n.Includes(RoleOf(pc))
    requires pc.Handling? ==> s.inflight == [pc.m]
    ensures var e := Act(pc, s, ok); HistoryOk(e.service, Moved(n, RoleOf(pc), e))
  {
    hide Conserved, Release, Unregister;
    ActConserves(pc, s, ok);
    if Releases(pc) {
      ReleaseKeepsHistory(pc, s, ok, n);
    }
  }

  lemma ReleaseKeepsHistory(pc: Pc, s: Service, ok: bool, n: Sums)
    requires Releases(pc) && ServiceOk(s, n) && n.Includes(RoleOf(pc))
    ensures var e := Act(pc, s, ok); Conserved(e.service) ==> HistoryOk(e.service, Moved(n, RoleOf(pc), e))
  {
    hide Conserved;
  }

  /** No step loses, duplicates or reorders a message. */
  lemma ActConserves(pc: Pc, s: Service, ok: bool)
    requires Conserved(s)
    requires pc.Handling? ==> s.inflight == [pc.m] && s.dropped == []
    requires pc.Serving? ==> s.inflight == [] && s.dropped == []
    requires pc.Dropping? ==> s.inflight == []
    ensures Conserved(Act(pc, s, ok).service)
  {
    if MovesMessages(pc) {
      QueueStepConserves(pc, s, ok);
    } else {
      OtherStepConserves(pc, s, ok);
    }
  }

  lemma QueueStepConserves(pc: Pc, s: Service, ok: bool)
    requires MovesMessages(pc) && Conserved(s)
    requires pc.Handling? ==> s.inflight == [pc.m] && s.dropped == []
    requires pc.Serving? ==> s.inflight == [] && s.dropped == []
    requires pc.Dropping? ==> s.inflight == []
    ensures Conserved(Act(pc, s, ok).service)
  {
    hide Release, Unregister, Grab, Decrement;
    match pc {
      case Sending(h, m) => AppendLast(s.handled + s.inflight + s.dropped, s.queue.messages, m);
      case Serving(h) => if s.queue.messages != [] { TakeFirst(s.handled, s.queue.messages); }
      case Handling(h, m) => FinishFirst(s.handled, m, s.queue.messages);
      case Dropping(h) => if s.queue.messages != [] { DropFirst(s.handled + [], s.dropped, s.queue.messages); }
    }
  }

  lemma OtherStepConserves(pc: Pc, s: Service, ok: bool)
    requires !MovesMessages(pc) && Conserved(s)
    ensures Conserved(Act(pc, s, ok).service)
  {
  }

  lemma AppendLast<T>(a: seq<T>, q: seq<T>, m: T)
    ensures a + (q + [m]) == a + q + [m]
  {
  }

  lemma TakeFirst<T>(a: seq<T>, q: seq<T>)
    requires q != []
    ensures a + [] + [] + q == a + [q[0]] + [] + q[1..]
  {
  }

  lemma FinishFirst<T>(a: seq<T>, m: T, q: seq<T>)
    ensures a + [m] + [] + q == (a + [m]) + [] + [] + q
  {
  }

  lemma DropFirst<T>(a: seq<T>, d: seq<T>, q: seq<T>)
    requires q != []
    ensures a + d + q == a + (d + [q[0]]) + q[1..]
  {
  }

  // ---------- the whole system

  ghost predicate Inv(st: State) {
    && (forall h :: h in st.services ==> h < st.next && ServiceOk(st.services[h], Held(st, h)))
    && (forall h :: h in st.global ==> h in st.services)
    && (forall t :: t in st.threads ==> ThreadOk(st.threads[t], st))
  }

  /** A thread works on a service that exists, and a callback on the message taken last. */
  ghost predicate ThreadOk(pc: Pc, st: State) {
    pc.h in st.services && (pc.Handling? ==> st.services[pc.h].inflight == [pc.m])
  }

  // ---------- counting while one thread moves

  lemma PlusCommutes(n: Sums, p: Pc, q: Pc, h: Handle)
    ensures With(With(n, p, h), q, h) == With(With(n, q, h), p, h)
  {
  }

  lemma NoThreads(threads: map<nat, Pc>, h: Handle)
    requires threads == map[]
    ensures Tally(threads, h) == NOBODY
  {
  }

  lemma SomeThread(threads: map<nat, Pc>, h: Handle) returns (t: nat)
    requires threads != map[]
    ensures t in threads && |threads - {t}| < |threads|
    ensures Tally(threads, h) == With(Tally(threads - {t}, h), threads[t], h)
  {
    t :| t in threads && Tally(threads, h) == With(Tally(threads - {t}, h), threads[t], h);
    assert threads == (threads - {t})[t := threads[t]];
  }

  /** The order in which threads are counted does not matter. */
  lemma {:induction false} TallyWithout(threads: map<nat, Pc>, t: nat, h: Handle)
    requires t in threads
    ensures Tally(threads, h) == With(Tally(threads - {t}, h), threads[t], h)
    decreases |threads|
  {
    hide With, Tally;
    var u := SomeThread(threads, h);
    if u != t {
      var rest := threads - {u} - {t};
      assert rest == threads - {t} - {u};
      TallyWithout(threads - {u}, t, h);
      TallyWithout(threads - {t}, u, h);
      PlusCommutes(Tally(rest, h), threads[t], threads[u], h);
    }
  }

  /** Who runs a callback holds a reference; creators, callbacks and droppers hold the token. */
  predicate Sane(n: Sums) {
    && 0 <= n.boots && 0 <= n.running <= n.refs && 0 <= n.drop && n.boots + n.running + n.drop <= n.tokens
    && 0 <= n.deleting && 0 <= n.freeing && 0 <= n.making
  }

  lemma {:induction false} TallySane(threads: map<nat, Pc>, h: Handle)
    ensures Sane(Tally(threads, h))
    decreases |threads|
  {
    hide Tally;
    if threads == map[] {
      NoThreads(threads, h);
    } else {
      var t := SomeThread(threads, h);
      TallySane(threads - {t}, h);
    }
  }

  /** The sums of service h when thread t is replaced and the global queue changes. */
  lemma SumsMove(st: State, st': State, t: nat, h: Handle)
    requires st.threads - {t} == st'.threads - {t}
    ensures Held(st', h) == Into(Out(Held(st, h), st.threads, t, h), st'.threads, t, h)
      .(tokens := Held(st, h).tokens + TokenAt(st'.threads, t, h) - TokenAt(st.threads, t, h)
                  + Occurrences(st'.global, h) - Occurrences(st.global, h))
  {
    hide Tally;
    if t in st.threads {
      TallyWithout(st.threads, t, h);
    } else {
      assert st.threads - {t} == st.threads;
    }
    if t in st'.threads {
      TallyWithout(st'.threads, t, h);
    } else {
      assert st'.threads - {t} == st'.threads;
    }
  }

  ghost function Out(n: Sums, threads: map<nat, Pc>, t: nat, h: Handle): Sums {
    if t in threads && threads[t].h == h then n.Minus(RoleOf(threads[t])) else n
  }

  ghost function Into(n: Sums, threads: map<nat, Pc>, t: nat, h: Handle): Sums {
    if t in threads && threads[t].h == h then n.Plus(RoleOf(threads[t])) else n
  }

  ghost function TokenAt(threads: map<nat, Pc>, t: nat, h: Handle): nat {
    if t in threads && threads[t].h == h then TokenOf(RoleOf(threads[t])) else 0
  }

  lemma Present(st: State, t: nat)
    requires t in st.threads
    ensures Held(st, st.threads[t].h).Includes(RoleOf(st.threads[t]))
  {
    hide Tally;
    TallyWithout(st.threads, t, st.threads[t].h);
    TallySane(st.threads - {t}, st.threads[t].h);
  }

  /** Two threads never hold the token of one service. */
  lemma OneTokenHolder(st: State, t1: nat, t2: nat)
    requires Inv(st) && t1 in st.threads && t2 in st.threads
    requires st.threads[t1].h == st.threads[t2].h
    requires TokenOf(RoleOf(st.threads[t1])) == 1 && TokenOf(RoleOf(st.threads[t2])) == 1
    ensures t1 == t2
    ensures st.threads[t1].h !in st.global
  {
    hide Held, ServiceOk;
    var h := st.threads[t1].h;
    Within(st, t1);
    var st1 := st.(threads := st.threads - {t1});
    assert st1.threads - {t1} == st.threads - {t1};
    SumsMove(st, st1, t1, h);
    QueuedCounts(st1, h);
    if t1 != t2 {
      Present(st1, t2);
    }
  }

  lemma QueuedCounts(st: State, h: Handle)
    ensures Held(st, h).tokens >= Occurrences(st.global, h)
    ensures h in st.global <==> Occurrences(st.global, h) > 0
  {
    hide Tally;
    TallySane(st.threads, h);
  }

  /** What the invariant says of the service a thread works on. */
  lemma Within(st: State, t: nat)
    requires Inv(st) && t in st.threads
    ensures var h := st.threads[t].h; h in st.services && ServiceOk(st.services[h], Held(st, h))
    ensures var s, n := st.services[st.threads[t].h], Held(st, st.threads[t].h);
      RefsOk(s, n) && TokenOk(s, n) && HistoryOk(s, n) && n.tokens <= 1
    ensures ThreadOk(st.threads[t], st)
  {
  }

  // ---------- every step keeps the invariant

  /** Services other than h are not concerned by a change to one thread on h and to h's place in
      the global queue. */
  lemma OtherService(st: State, st': State, t: nat, h: Handle, k: Handle)
    requires st.threads - {t} == st'.threads - {t} && k != h
    requires t in st.threads ==> st.threads[t].h == h
    requires t in st'.threads ==> st'.threads[t].h == h
    requires Occurrences(st'.global, k) == Occurrences(st.global, k)
    ensures Held(st', k) == Held(st, k)
  {
    hide Held;
    SumsMove(st, st', t, k);
  }

  lemma AdvanceIs(st: State, t: nat, ok: bool)
    requires t in st.threads && st.threads[t].h in st.services
    ensures var h, st' := st.threads[t].h, Next(st, Advance(t, ok));
      var e := Act(st.threads[t], st.services[h], ok);
      && st'.threads == SetThread(st.threads, t, e.pc) && st'.threads - {t} == st.threads - {t}
      && st'.global == if e.requeue then st.global + [h] else st.global
  {
    hide Act;
  }

  lemma AdvanceSums(st: State, t: nat, ok: bool)
    requires t in st.threads && st.threads[t].h in st.services
    ensures var h, pc := st.threads[t].h, st.threads[t];
      var st', e := Next(st, Advance(t, ok)), Act(pc, st.services[h], ok);
      && st'.threads - {t} == st.threads - {t}
      && Held(st', h) == Moved(Held(st, h), RoleOf(pc), e)
  {
    hide Held, Act, Occurrences, Next;
    var h, pc := st.threads[t].h, st.threads[t];
    var st', e := Next(st, Advance(t, ok)), Act(pc, st.services[h], ok);
    ActStays(pc, st.services[h], ok);
    AdvanceIs(st, t, ok);
    SumsMove(st, st', t, h);
    if e.requeue {
      Requeued(st.global, h, h);
    }
  }

  lemma ActStays(pc: Pc, s: Service, ok: bool)
    ensures Act(pc, s, ok).pc.Some? ==> Act(pc, s, ok).pc.value.h == pc.h
    ensures var e := Act(pc, s, ok); e.pc.Some? && e.pc.value.Handling? ==> e.service.inflight == [e.pc.value.m]
    ensures Act(pc, s, ok).service.inflight != s.inflight ==> pc.Serving? || pc.Handling?
  {
    hide Pushed, Popped, Marked;
  }

  lemma Requeued(q: seq<Handle>, h: Handle, k: Handle)
    ensures Occurrences(q + [h], k) == Occurrences(q, k) + if k == h then 1 else 0
    ensures q != [] ==> Occurrences(q[1..], k) == Occurrences(q, k) - if k == q[0] then 1 else 0
  {
    if q != [] {
      assert q == [q[0]] + q[1..];
    }
  }

  lemma AdvanceKeepsInv(st: State, t: nat, ok: bool)
    requires Inv(st)
    ensures Inv(Next(st, Advance(t, ok)))
  {
    hide Held, Act, RefsOk, TokenOk, HistoryOk;
    if t in st.threads {
      var h, pc := st.threads[t].h, st.threads[t];
      var st', e := Next(st, Advance(t, ok)), Act(pc, st.services[h], ok);
      Within(st, t);
      Present(st, t);
      ActKeepsRefs(pc, st.services[h], ok, Held(st, h));
      ActKeepsToken(pc, st.services[h], ok, Held(st, h));
      ActKeepsHistory(pc, st.services[h], ok, Held(st, h));
      AdvanceSums(st, t, ok);
      ActStays(pc, st.services[h], ok);
      forall k | k in st'.services ensures k < st'.next && ServiceOk(st'.services[k], Held(st', k)) {
        if k != h {
          Requeued(st.global, h, k);
          OtherService(st, st', t, h, k);
        }
      }
      forall u | u in st'.threads ensures ThreadOk(st'.threads[u], st') {
        if u != t {
          assert u in st.threads && ThreadOk(st.threads[u], st);
          if st.threads[u].Handling? && st.threads[u].h == h && (pc.Serving? || pc.Handling?) {
            OneTokenHolder(st, t, u);
          }
        }
      }
    }
  }

  /** A handle not given out yet is nowhere. */
  lemma NothingYet(st: State, h: Handle)
    requires Inv(st) && h >= st.next
    ensures Held(st, h) == NOBODY
  {
    hide ServiceOk, Tally;
    forall t | t in st.threads ensures st.threads[t].h != h {
      assert ThreadOk(st.threads[t], st);
    }
    NobodyThere(st.threads, h);
    assert h !in st.global;
  }

  lemma {:induction false} NobodyThere(threads: map<nat, Pc>, h: Handle)
    requires forall t :: t in threads ==> threads[t].h != h
    ensures Tally(threads, h) == NOBODY
    decreases |threads|
  {
    hide Tally;
    if threads == map[] {
      NoThreads(threads, h);
    } else {
      var t := SomeThread(threads, h);
      NobodyThere(threads - {t}, h);
    }
  }

  lemma NewServiceOk()
    ensures ServiceOk(NEW_SERVICE, NOBODY.Plus(Making))
  {
  }

  lemma GrabKeepsService(s: Service, n: Sums)
    requires ServiceOk(s, n) && s.registered
    ensures n.refs >= 0 ==> ServiceOk(Grab(s), n.Plus(Ref))
  {
  }

  lemma UnregisterKeepsService(s: Service, n: Sums, h: Handle)
    requires ServiceOk(s, n) && s.registered && n.refs >= 0
    ensures var e := Unregister(s, h);
      ServiceOk(e.service, if e.pc.Some? then n.Plus(Delete) else n) && e.service.inflight == s.inflight
    ensures var e := Unregister(s, h); e.pc == None || e.pc == Some(Deleting(h, ToExit))
  {
    hide Conserved;
    UnregisterConserves(s, h);
  }

  lemma UnregisterConserves(s: Service, h: Handle)
    ensures Conserved(Unregister(s, h).service) == Conserved(s)
  {
  }

  /** A thread that enters adds what its role holds. */
  lemma EnterSums(st: State, st': State, t: nat, pc: Pc)
    requires t !in st.threads && st'.threads == st.threads[t := pc] && st'.global == st.global
    ensures st'.threads - {t} == st.threads - {t}
    ensures Held(st', pc.h) == Held(st, pc.h).Plus(RoleOf(pc))
  {
    hide Held;
    assert st'.threads - {t} == st.threads - {t};
    SumsMove(st, st', t, pc.h);
  }

  lemma LaunchServices(st: State, t: nat, k: Handle)
    requires Inv(st) && t !in st.threads && k in Next(st, Launch(t)).services
    ensures var st' := Next(st, Launch(t)); k < st'.next && ServiceOk(st'.services[k], Held(st', k))
  {
    hide Held, RefsOk, TokenOk, HistoryOk, ServiceOk;
    var h, st' := st.next, Next(st, Launch(t));
    NothingYet(st, h);
    NewServiceOk();
    EnterSums(st, st', t, Registering(h));
    if k != h {
      OtherService(st, st', t, h, k);
    }
  }

  lemma LaunchThreads(st: State, t: nat, u: nat)
    requires Inv(st) && t !in st.threads && u in Next(st, Launch(t)).threads
    ensures ThreadOk(Next(st, Launch(t)).threads[u], Next(st, Launch(t)))
  {
  }

  lemma LaunchKeepsInv(st: State, t: nat)
    requires Inv(st)
    ensures Inv(Next(st, Launch(t)))
  {
    hide Held, ServiceOk, ThreadOk;
    if t !in st.threads {
      var st' := Next(st, Launch(t));
      forall k | k in st'.services ensures k < st'.next && ServiceOk(st'.services[k], Held(st', k)) {
        LaunchServices(st, t, k);
      }
      forall u | u in st'.threads ensures ThreadOk(st'.threads[u], st') {
        LaunchThreads(st, t, u);
      }
    }
  }

  /** Threads on other services, and threads that run no callback, do not mind. */
  lemma OtherThreads(st: State, st': State, t: nat, h: Handle)
    requires Inv(st) && st.threads - {t} == st'.threads - {t}
    requires forall k :: k in st.services ==> k in st'.services
    requires forall k :: k in st.services && k != h ==> st'.services[k] == st.services[k]
    requires h in st.services ==> st'.services[h].inflight == st.services[h].inflight
    ensures forall u :: u in st'.threads && u != t ==> ThreadOk(st'.threads[u], st')
  {
    hide Held, ServiceOk;
    forall u | u in st'.threads && u != t ensures ThreadOk(st'.threads[u], st') {
      assert u in st'.threads - {t} && u in st.threads - {t};
      assert (st'.threads - {t})[u] == (st.threads - {t})[u];
      assert ThreadOk(st.threads[u], st);
    }
  }

  lemma NoFewerThanZero(st: State, h: Handle)
    ensures Held(st, h).refs >= 0 && Held(st, h).drop >= 0
  {
    hide Tally;
    TallySane(st.threads, h);
  }

  lemma SendKeepsInv(st: State, t: nat, h: Handle, m: Message)
    requires Inv(st)
    ensures Inv(Next(st, Send(t, h, m)))
  {
    hide Held, ServiceOk;
    if t !in st.threads && h in st.services && st.services[h].registered {
      var st' := Next(st, Send(t, h, m));
      GrabKeepsService(st.services[h], Held(st, h));
      NoFewerThanZero(st, h);
      assert st'.threads - {t} == st.threads - {t};
      SumsMove(st, st', t, h);
      forall k | k in st'.services ensures k < st'.next && ServiceOk(st'.services[k], Held(st', k)) {
        if k != h {
          OtherService(st, st', t, h, k);
        }
      }
      OtherThreads(st, st', t, h);
    }
  }

  lemma TakeKeepsInv(st: State, t: nat)
    requires Inv(st)
    ensures Inv(Next(st, Take(t)))
  {
    hide Held, ServiceOk;
    if t !in st.threads && st.global != [] {
      var h, st' := st.global[0], Next(st, Take(t));
      assert h in st.global;
      assert st'.threads - {t} == st.threads - {t};
      Requeued(st.global, h, h);
      SumsMove(st, st', t, h);
      forall k | k in st'.services ensures k < st'.next && ServiceOk(st'.services[k], Held(st', k)) {
        if k != h {
          Requeued(st.global, h, k);
          OtherService(st, st', t, h, k);
        }
      }
      OtherThreads(st, st', t, h);
    }
  }

  lemma RetireKeepsInv(st: State, t: nat, h: Handle)
    requires Inv(st)
    ensures Inv(Next(st, Retire(t, h)))
  {
    hide Held, ServiceOk, Unregister;
    if t !in st.threads && h in st.services && st.services[h].registered {
      var st' := Next(st, Retire(t, h));
      NoFewerThanZero(st, h);
      UnregisterKeepsService(st.services[h], Held(st, h), h);
      RetireSums(st, t, h);
      forall k | k in st'.services ensures k < st'.next && ServiceOk(st'.services[k], Held(st', k)) {
        if k != h {
          OtherService(st, st', t, h, k);
        }
      }
      OtherThreads(st, st', t, h);
    }
  }

  lemma RetireSums(st: State, t: nat, h: Handle)
    requires t !in st.threads && h in st.services && st.services[h].registered
    ensures var st', e := Next(st, Retire(t, h)), Unregister(st.services[h], h);
      && st'.threads - {t} == st.threads - {t} && (t in st'.threads ==> st'.threads[t] == Deleting(h, ToExit))
      && Held(st', h) == if e.pc.Some? then Held(st, h).Plus(Delete) else Held(st, h)
  {
    hide Held;
    var st', e := Next(st, Retire(t, h)), Unregister(st.services[h], h);
    if e.pc.Some? {
      EnterSums(st, st', t, Deleting(h, ToExit));
    } else {
      assert st'.threads == st.threads;
      SumsSame(st, st', h);
    }
  }

  lemma SumsSame(st: State, st': State, h: Handle)
    requires st.threads == st'.threads && st.global == st'.global
    ensures Held(st', h) == Held(st, h)
  {
  }

  /** In every reachable state, over every interleaving, the invariant holds. */
  lemma {:induction false} Reachable(steps: seq<Step>)
    ensures Inv(Run(steps))
  {
    if steps == [] {
    } else {
      var st := Run(steps[..|steps| - 1]);
      Reachable(steps[..|steps| - 1]);
      match steps[|steps| - 1] {
        case Launch(t) => LaunchKeepsInv(st, t);
        case Advance(t, ok) => AdvanceKeepsInv(st, t, ok);
        case Send(t, h, m) => SendKeepsInv(st, t, h, m);
        case Take(t) => TakeKeepsInv(st, t);
        case Retire(t, h) => RetireKeepsInv(st, t, h);
      }
    }
  }

  // ---------- what follows, in every reachable state

  predicate HoldsToken(pc: Pc) { TokenOf(RoleOf(pc)) == 1 }

  predicate HoldsReference(pc: Pc) { RefOf(RoleOf(pc)) == 1 }

  predicate IsTokenHolder(st: State, t: nat, h: Handle) {
    t in st.threads && st.threads[t].h == h && HoldsToken(st.threads[t])
  }

  /** Unless init failed, the scheduling token of a service is in the global queue once, or with one
      thread, exactly while in_global is set; and a queue that holds messages has it: no wakeup is lost. */
  lemma SchedulingToken(steps: seq<Step>, h: Handle)
    requires h in Run(steps).services
    ensures var st := Run(steps); var s, q := st.services[h], st.services[h].queue;
      && (q.inGlobal && !s.failed <==> h in st.global || exists t :: IsTokenHolder(st, t, h))
      && Occurrences(st.global, h) <= 1
      && (forall t :: IsTokenHolder(st, t, h) ==> h !in st.global)
      && (forall t, u :: IsTokenHolder(st, t, h) && IsTokenHolder(st, u, h) ==> t == u)
      && (q.messages != [] ==> q.inGlobal)
  {
    hide Held, Run;
    Reachable(steps);
    var st := Run(steps);
    assert ServiceOk(st.services[h], Held(st, h));
    QueuedCounts(st, h);
    forall t | IsTokenHolder(st, t, h)
      ensures h !in st.global && st.services[h].queue.inGlobal && !st.services[h].failed
    {
      OneTokenHolder(st, t, t);
      Present(st, t);
    }
    forall t, u | IsTokenHolder(st, t, h) && IsTokenHolder(st, u, h)
      ensures t == u
    {
      OneTokenHolder(st, t, u);
    }
    if st.services[h].queue.inGlobal && !st.services[h].failed && h !in st.global {
      SomebodyHasIt(st, h);
    }
  }

  lemma SomebodyHasIt(st: State, h: Handle)
    requires Held(st, h).tokens > Occurrences(st.global, h)
    ensures exists t :: IsTokenHolder(st, t, h)
  {
    hide Tally;
    if forall t :: !IsTokenHolder(st, t, h) {
      forall t | t in st.threads && st.threads[t].h == h ensures !HoldsToken(st.threads[t]) {
        assert !IsTokenHolder(st, t, h);
      }
      NoTokens(st.threads, h);
    }
  }

  lemma {:induction false} NoTokens(threads: map<nat, Pc>, h: Handle)
    requires forall t :: t in threads && threads[t].h == h ==> !HoldsToken(threads[t])
    ensures Tally(threads, h).tokens == 0
    decreases |threads|
  {
    hide Tally;
    if threads == map[] {
      NoThreads(threads, h);
    } else {
      var t := SomeThread(threads, h);
      NoTokens(threads - {t}, h);
    }
  }

  /** At most one worker is inside a service, and only after its init function has ended: the
      assertion of _dispatch_message holds, and so does that of skynet_mq_force_push. */
  lemma OneWorkerAfterInit(steps: seq<Step>, t: nat)
    requires t in Run(steps).threads
    ensures Run(steps).threads[t].h in Run(steps).services
    ensures var st := Run(steps); var pc, s := st.threads[t], st.services[st.threads[t].h];
      && (pc.Serving? || pc.Handling? || pc.Done? ==>
        s.init && !s.freed
        && forall u :: u in st.threads && st.threads[u].h == pc.h && HoldsToken(st.threads[u]) ==> u == t)
      && (pc.Launching? || pc.Orphan? || pc.Done? ==> s.queue.inGlobal)
  {
    hide Held, Run;
    Reachable(steps);
    var st := Run(steps);
    Within(st, t);
    Present(st, t);
    forall u |
      && u in st.threads && st.threads[u].h == st.threads[t].h
      && HoldsToken(st.threads[u]) && HoldsToken(st.threads[t])
      ensures u == t
    {
      OneTokenHolder(st, t, u);
    }
  }

  /** Per service, messages are run in the order they were pushed, each once, whichever worker
      serves; what was not run yet is in flight or queued, and only a dead service drops any. */
  lemma MessageOrder(steps: seq<Step>, h: Handle)
    requires h in Run(steps).services
    ensures var s := Run(steps).services[h];
      && s.pushed == s.handled + s.inflight + s.dropped + s.queue.messages
      && |s.inflight| <= 1 && (s.ref > 0 ==> s.dropped == [])
  {
    hide Held, Run;
    Reachable(steps);
    var st := Run(steps);
    assert ServiceOk(st.services[h], Held(st, h));
    RunningWithinTokens(st, h);
  }

  lemma RunningWithinTokens(st: State, h: Handle)
    ensures Held(st, h).running <= Held(st, h).tokens
  {
    hide Tally;
    TallySane(st.threads, h);
  }

  /** After a failed init nobody has the token and nobody ever will, although in_global stays set: what
      is pushed to the service is neither run nor dropped, and its queue is never freed. */
  lemma FailedIsStranded(steps: seq<Step>, h: Handle)
    requires h in Run(steps).services && Run(steps).services[h].failed
    ensures var st := Run(steps); var s := st.services[h];
      && s.queue.inGlobal && h !in st.global && (forall t :: !IsTokenHolder(st, t, h))
      && s.pushed == s.queue.messages && s.handled == [] && s.inflight == [] && s.dropped == [] && !s.queueFreed
  {
    hide Held, Run;
    Reachable(steps);
    var st := Run(steps);
    assert ServiceOk(st.services[h], Held(st, h));
    QueuedCounts(st, h);
    SchedulingToken(steps, h);
    OnlyQueued(st.services[h]);
  }

  lemma OnlyQueued(s: Service)
    requires Conserved(s) && s.handled == [] && s.inflight == [] && s.dropped == []
    ensures s.pushed == s.queue.messages
  {
  }

  /** ... however the run goes on. */
  lemma {:induction false} FailedForEver(steps: seq<Step>, more: seq<Step>, h: Handle)
    requires h in Run(steps).services && Run(steps).services[h].failed
    ensures h in Run(steps + more).services && Run(steps + more).services[h].failed
  {
    hide Run;
    if more == [] {
      assert steps + more == steps;
    } else {
      var init, last := more[..|more| - 1], more[|more| - 1];
      FailedForEver(steps, init, h);
      RunLast(steps + init, last);
      assert steps + more == steps + init + [last];
      Reachable(steps + init);
      NextKeepsFailed(Run(steps + init), last, h);
    }
  }

  lemma RunLast(steps: seq<Step>, last: Step)
    ensures Run(steps + [last]) == Next(Run(steps), last)
  {
    assert (steps + [last])[..|steps|] == steps;
  }

  lemma NextKeepsFailed(st: State, step: Step, h: Handle)
    requires Inv(st) && h in st.services && st.services[h].failed
    ensures h in Next(st, step).services && Next(st, step).services[h].failed
  {
    hide Held, ServiceOk, Act, Unregister;
    if step.Advance? && step.t in st.threads {
      ActKeepsFailed(st.threads[step.t], st.services[h], step.ok);
    }
    UnregisterKeepsFailed(st.services[h], h);
  }

  lemma ActKeepsFailed(pc: Pc, s: Service, ok: bool)
    requires s.failed
    ensures Act(pc, s, ok).service.failed
  {
    hide Pushed, Popped, Marked, Release, Unregister;
    match pc {
      case Creating(h) =>
        ReleaseKeepsFailed(s.(failed := true), h, ToFail);
        ReleaseKeepsFailed(s, h, ToLaunch);
      case Sent(h) => ReleaseKeepsFailed(s, h, ToExit);
      case Leaving(h) => ReleaseKeepsFailed(s, h, ToExit);
      case Failing(h) => UnregisterKeepsFailed(s, h);
      case _ =>
    }
  }

  lemma ReleaseKeepsFailed(s: Service, h: Handle, next: After)
    ensures Release(s, h, next).service.failed == s.failed
  {
  }

  lemma UnregisterKeepsFailed(s: Service, h: Handle)
    ensures Unregister(s, h).service.failed == s.failed
  {
  }

  /** The thread's next step reads or writes the queue's memory, or, for those that hold a reference or
      the token, one of its later steps does. */
  predicate TouchesQueue(pc: Pc) {
    HoldsToken(pc) || HoldsReference(pc) || pc.Deleting?
  }

  /** The thread's next step reads or writes the context's memory. */
  predicate TouchesContext(pc: Pc) {
    pc.Created? || pc.Failing? || HoldsReference(pc) || pc.Deleting? || pc.Freeing?
  }

  /** No thread touches a queue that was freed. Only the thread that holds the token drops and frees a
      queue, after it was marked, and it is marked once: the assertion of skynet_mq_mark_release holds. */
  lemma QueueNotTouchedAfterFree(steps: seq<Step>, t: nat)
    requires t in Run(steps).threads && TouchesQueue(Run(steps).threads[t])
    ensures Run(steps).threads[t].h in Run(steps).services
    ensures var s := Run(steps).services[Run(steps).threads[t].h];
      && !s.queueFreed
      && (Run(steps).threads[t].Dropping? ==> s.queue.release && s.ref == 0)
      && (Run(steps).threads[t].Deleting? ==> !s.queue.release && s.ref == 0)
  {
    hide Held, Run;
    Reachable(steps);
    var st := Run(steps);
    Within(st, t);
    Present(st, t);
    NoFewerThanZero(st, st.threads[t].h);
  }

  /** A queue is marked, and a context or a queue freed, only after the last reference is gone; then
      nobody can get at the service any more. */
  lemma FreedAfterLastReference(steps: seq<Step>, h: Handle)
    requires h in Run(steps).services
    requires var s := Run(steps).services[h]; s.queue.release || s.freed || s.queueFreed
    ensures var st := Run(steps); var s := st.services[h];
      && s.ref == 0 && !s.registered
      && (forall t :: t in st.threads && st.threads[t].h == h ==> !HoldsReference(st.threads[t]))
      && (s.queueFreed ==> h !in st.global && forall t :: !IsTokenHolder(st, t, h))
  {
    hide Held, Run;
    Reachable(steps);
    var st := Run(steps);
    assert ServiceOk(st.services[h], Held(st, h));
    NoFewerThanZero(st, h);
    forall t | t in st.threads && st.threads[t].h == h ensures !HoldsReference(st.threads[t]) {
      Present(st, t);
    }
    SchedulingToken(steps, h);
  }

  /** A thread is about to touch a freed context exactly when it is a creator that has already
      released its own reference, the handle has been retired since, and nobody else holds a
      reference or is still deleting. Everybody else is safe. */
  lemma ContextTouchedAfterFreeIff(steps: seq<Step>, t: nat)
    requires t in Run(steps).threads && TouchesContext(Run(steps).threads[t])
    ensures Run(steps).threads[t].h in Run(steps).services
    ensures var st := Run(steps); var pc := st.threads[t];
      st.services[pc.h].freed <==>
        && (pc.Created? || pc.Failing?)
        && !st.services[pc.h].registered
        && forall u :: u in st.threads && st.threads[u].h == pc.h ==> !KeepsAlive(st.threads[u])
  {
    hide Held, Run;
    Reachable(steps);
    var st := Run(steps);
    Within(st, t);
    Present(st, t);
    var h := st.threads[t].h;
    NoFewerThanZero(st, h);
    forall u | u in st.threads && st.threads[u].h == h && KeepsAlive(st.threads[u])
      ensures Held(st, h).refs > 0 || Held(st, h).deleting > 0 || Held(st, h).freeing > 0
    {
      Present(st, u);
    }
    if forall u :: u in st.threads && st.threads[u].h == h ==> !KeepsAlive(st.threads[u]) {
      NoKeepers(st.threads, h);
      HeldByThreads(st, h);
    }
  }

  /** As long as there is such a thread, the context is not freed yet. */
  predicate KeepsAlive(pc: Pc) { HoldsReference(pc) || pc.Deleting? || pc.Freeing? }

  lemma HeldByThreads(st: State, h: Handle)
    ensures var n, m := Held(st, h), Tally(st.threads, h);
      n.refs == m.refs && n.deleting == m.deleting && n.freeing == m.freeing
  {
  }

  lemma {:induction false} NoKeepers(threads: map<nat, Pc>, h: Handle)
    requires forall t :: t in threads && threads[t].h == h ==> !KeepsAlive(threads[t])
    ensures var n := Tally(threads, h); n.refs == 0 && n.deleting == 0 && n.freeing == 0
    decreases |threads|
  {
    hide Tally;
    if threads == map[] {
      NoThreads(threads, h);
    } else {
      var t := SomeThread(threads, h);
      NoKeepers(threads - {t}, h);
    }
  }

  /** The thread's next step goes through ctx->queue, or takes the queue for one that was created. */
  predicate UsesQueue(pc: Pc) { pc.Sending? || pc.Deleting? || (HoldsToken(pc) && !pc.Registering?) }

  /** A queue that was not created yet is met exactly by senders, and exactly while the creator stands
      between registering the handle and creating the queue. */
  lemma MissingQueueMetIff(steps: seq<Step>, t: nat)
    requires t in Run(steps).threads && UsesQueue(Run(steps).threads[t])
    ensures Run(steps).threads[t].h in Run(steps).services
    ensures var st := Run(steps); var pc := st.threads[t];
      !st.services[pc.h].hasQueue <==>
        pc.Sending? && exists u :: u in st.threads && st.threads[u] == Registering(pc.h)
  {
    hide Held, Run;
    Reachable(steps);
    var st := Run(steps);
    var h := st.threads[t].h;
    Within(st, t);
    Present(st, t);
    forall u | u in st.threads && st.threads[u] == Registering(h)
      ensures !st.services[h].hasQueue && !st.threads[t].Deleting? && !HoldsToken(st.threads[t])
    {
      Present(st, u);
      NoFewerThanZero(st, h);
      if HoldsToken(st.threads[t]) {
        OneTokenHolder(st, t, u);
      }
    }
    if forall u :: u in st.threads ==> st.threads[u] != Registering(h) {
      NoMaker(st.threads, h);
      MadeByThreads(st, h);
    }
  }

  lemma MadeByThreads(st: State, h: Handle)
    ensures Held(st, h).making == Tally(st.threads, h).making
  {
  }

  lemma {:induction false} NoMaker(threads: map<nat, Pc>, h: Handle)
    requires forall t :: t in threads ==> threads[t] != Registering(h)
    ensures Tally(threads, h).making == 0
    decreases |threads|
  {
    hide Tally;
    if threads == map[] {
      NoThreads(threads, h);
    } else {
      var t := SomeThread(threads, h);
      NoMaker(threads - {t}, h);
    }
  }

  // ---------- runs in which it happens

  lemma RunOne(step: Step)
    ensures Run([step]) == Next(INITIAL, step)
  {
    assert [step][..0] == [];
  }

  /** The state with one service, handle 1, on which threads work. */
  function Solo(s: Service, threads: map<nat, Pc>): State { State(map[1 := s], [], threads, 2) }

  lemma SoloAdvance(s: Service, threads: map<nat, Pc>, t: nat, ok: bool)
    requires t in threads && threads[t].h == 1 && !Act(threads[t], s, ok).requeue
    ensures var e := Act(threads[t], s, ok);
      Next(Solo(s, threads), Advance(t, ok)) == Solo(e.service, SetThread(threads, t, e.pc))
  {
    hide Act;
  }

  lemma SoloLaunch()
    ensures Run([Launch(0)]) == Solo(NEW_SERVICE, map[0 := Registering(1)])
  {
    RunOne(Launch(0));
    assert INITIAL.services[1 := NEW_SERVICE] == map[1 := NEW_SERVICE];
    assert INITIAL.threads[0 := Registering(1)] == map[0 := Registering(1)];
  }

  const CREATED: Service := NEW_SERVICE.(hasQueue := true)

  lemma SoloCreated()
    ensures Run([Launch(0)] + [Advance(0, true)]) == Solo(CREATED, map[0 := Creating(1)])
  {
    hide Run, Solo, Next;
    SoloLaunch();
    RunLast([Launch(0)], Advance(0, true));
    SoloAdvance(NEW_SERVICE, map[0 := Registering(1)], 0, true);
    assert map[0 := Registering(1)][0 := Creating(1)] == map[0 := Creating(1)];
  }

  lemma SoloRetire(s: Service, threads: map<nat, Pc>, t: nat)
    requires t !in threads && s.registered
    ensures var e := Unregister(s, 1);
      Next(Solo(s, threads), Retire(t, 1)) == Solo(e.service, SetThread(threads, t, e.pc))
  {
    hide Unregister;
  }

  /** Retired and deleted by thread 1 while the creator, which gave up its reference, stands at pc. */
  lemma DeletedMeanwhile(steps: seq<Step>, s: Service, pc: Pc)
    requires Run(steps) == Solo(s, map[0 := pc]) && s.registered && s.ref == 1
    ensures var st := Run(steps + [Retire(1, 1)] + [Advance(1, true)] + [Advance(1, true)]);
      0 in st.threads && st.threads[0] == pc && 1 in st.services && st.services[1].freed
  {
    hide Run, Solo, Next;
    var s1 := s.(registered := false, ref := 0);
    var s2 := s1.(queue := Marked(s1.queue));
    RunLast(steps, Retire(1, 1));
    SoloRetire(s, map[0 := pc], 1);
    var threads := map[0 := pc][1 := Deleting(1, ToExit)];
    RunLast(steps + [Retire(1, 1)], Advance(1, true));
    SoloAdvance(s1, threads, 1, true);
    RunLast(steps + [Retire(1, 1)] + [Advance(1, true)], Advance(1, true));
    SoloAdvance(s2, threads[1 := Freeing(1, ToExit)], 1, true);
    SoloIs(s2.(freed := true), threads[1 := Freeing(1, ToExit)] - {1});
  }

  lemma SoloIs(s: Service, threads: map<nat, Pc>)
    ensures Solo(s, threads).threads == threads && 1 in Solo(s, threads).services && Solo(s, threads).services[1] == s
    ensures Solo(s, threads).global == []
  {
  }

  /** A service is retired and deleted between its creator's release and ctx->init = 1. */
  lemma CreatorTouchesFreedContext()
    ensures var st := Run([Launch(0)] + [Advance(0, true)] + [Advance(0, true)]
                          + [Retire(1, 1)] + [Advance(1, true)] + [Advance(1, true)]);
      0 in st.threads && st.threads[0] == Created(1) && 1 in st.services && st.services[1].freed
  {
    hide Run, Solo, Next;
    SoloCreated();
    var run := [Launch(0)] + [Advance(0, true)];
    RunLast(run, Advance(0, true));
    SoloAdvance(CREATED, map[0 := Creating(1)], 0, true);
    assert map[0 := Creating(1)][0 := Created(1)] == map[0 := Created(1)];
    DeletedMeanwhile(run + [Advance(0, true)], Decrement(CREATED), Created(1));
  }

  /** The same after a failed init, before its creator retires the handle. */
  lemma FailedCreatorTouchesFreedContext()
    ensures var st := Run([Launch(0)] + [Advance(0, true)] + [Advance(0, false)]
                          + [Retire(1, 1)] + [Advance(1, true)] + [Advance(1, true)]);
      0 in st.threads && st.threads[0] == Failing(1) && 1 in st.services && st.services[1].freed
  {
    hide Run, Solo, Next;
    SoloCreated();
    var run := [Launch(0)] + [Advance(0, true)];
    RunLast(run, Advance(0, false));
    SoloAdvance(CREATED, map[0 := Creating(1)], 0, false);
    assert map[0 := Creating(1)][0 := Failing(1)] == map[0 := Failing(1)];
    DeletedMeanwhile(run + [Advance(0, false)], Decrement(CREATED.(failed := true)), Failing(1));
  }

  lemma SoloSend(s: Service, threads: map<nat, Pc>, t: nat, m: Message)
    requires t !in threads && s.registered
    ensures Next(Solo(s, threads), Send(t, 1, m)) == Solo(Grab(s), threads[t := Sending(1, m)])
  {
  }

  /** A message sent while the init function runs is stranded when init fails: the creator has returned
      and nobody is left to run or drop it. */
  lemma MessageStranded(m: Message)
    ensures var st := Run([Launch(0)] + [Advance(0, true)] + [Send(1, 1, m)]
                          + [Advance(0, false)] + [Advance(1, true)] + [Advance(0, true)]);
      && 1 in st.services && st.services[1].failed && st.services[1].queue == Mq([m], true, false)
      && st.global == [] && st.threads == map[1 := Sent(1)]
  {
    hide Run, Solo, Next;
    var none: seq<Message> := [];
    assert none + [m] == [m];
    var run := [Launch(0)] + [Advance(0, true)];
    var s, threads := CREATED, map[0 := Creating(1)];
    SoloCreated();
    RunLast(run, Send(1, 1, m));
    SoloSend(s, threads, 1, m);
    run, s, threads := run + [Send(1, 1, m)], Grab(s), threads[1 := Sending(1, m)];
    RunLast(run, Advance(0, false));
    SoloAdvance(s, threads, 0, false);
    run, s, threads := run + [Advance(0, false)], Decrement(s.(failed := true)), threads[0 := Failing(1)];
    RunLast(run, Advance(1, true));
    SoloAdvance(s, threads, 1, true);
    run, s, threads := run + [Advance(1, true)], s.(queue := Pushed(s.queue, m), pushed := [m]), threads[1 := Sent(1)];
    RunLast(run, Advance(0, true));
    SoloAdvance(s, threads, 0, true);
    SoloIs(Decrement(s.(registered := false)), threads - {0});
    assert threads - {0} == map[1 := Sent(1)];
  }

  /** A message sent as soon as the handle is registered meets a context without a queue. */
  lemma SenderMeetsNoQueue(m: Message)
    ensures var st := Run([Launch(0)] + [Send(1, 1, m)]);
      && 1 in st.threads && st.threads[1] == Sending(1, m)
      && 1 in st.services && !st.services[1].hasQueue
  {
    hide Run, Solo, Next;
    SoloLaunch();
    RunLast([Launch(0)], Send(1, 1, m));
    SoloSend(NEW_SERVICE, map[0 := Registering(1)], 1, m);
    SoloIs(Grab(NEW_SERVICE), map[0 := Registering(1)][1 := Sending(1, m)]);
  }
}
