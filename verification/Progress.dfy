/** What the functions of the scheduler achieve when one thread runs them to their end: each law relates
    the state before a function to the state after it, over every reachable state. */
module Progress {
  import opened Queues
  import opened Scheduler

  // ---------- one thread at work

  /** st, but for service h, the global queue, and thread t at work. */
  ghost function Working(st: State, h: Handle, s: Service, g: seq<Handle>, t: nat, pc: Pc): State {
    st.(services := st.services[h := s], global := g, threads := st.threads[t := pc])
  }

  /** st, but for service h and the global queue. */
  ghost function Resting(st: State, h: Handle, s: Service, g: seq<Handle>): State {
    st.(services := st.services[h := s], global := g)
  }

  /** One step of the thread. */
  lemma Advances(steps: seq<Step>, st: State, h: Handle, s: Service, g: seq<Handle>, t: nat, pc: Pc, ok: bool)
    requires Run(steps) == Working(st, h, s, g, t, pc) && t !in st.threads && pc.h == h
    ensures var e := Act(pc, s, ok); var g' := if e.requeue then g + [h] else g;
      Run(steps + [Advance(t, ok)])
      == if e.pc.Some? then Working(st, h, e.service, g', t, e.pc.value) else Resting(st, h, e.service, g')
  {
    hide Act, Run;
    var e := Act(pc, s, ok);
    RunLast(steps, Advance(t, ok));
    assert st.services[h := s][h := e.service] == st.services[h := e.service];
    if e.pc.Some? {
      assert st.threads[t := pc][t := e.pc.value] == st.threads[t := e.pc.value];
    } else {
      assert st.threads[t := pc] - {t} == st.threads;
    }
  }

  /** A service in the table has a reference of the table's, and nobody runs a service whose token is
      in the global queue. */
  lemma AtRest(steps: seq<Step>, h: Handle)
    requires h in Run(steps).services
    ensures var st := Run(steps); var s := st.services[h];
      && (s.registered ==> s.ref > 0 && !s.queue.release)
      && (h in st.global ==> s.inflight == [] && s.queue.inGlobal && !s.failed && !s.queueFreed)
      && (h in st.global && s.registered ==> s.init)
  {
    hide Held, Run;
    Reachable(steps);
    var st := Run(steps);
    assert ServiceOk(st.services[h], Held(st, h));
    QueuedCounts(st, h);
    NoFewerThanZero(st, h);
    HeldSane(st, h);
  }

  lemma HeldSane(st: State, h: Handle)
    ensures var n := Held(st, h);
      n.boots + n.running + Occurrences(st.global, h) <= n.tokens && 0 <= n.boots && 0 <= n.running
  {
    hide Tally;
    TallySane(st.threads, h);
  }

  // ---------- dispatch: skynet_context_message_dispatch

  /** Taking the first queue off the global one. */
  lemma Takes(steps: seq<Step>, t: nat)
    requires var st := Run(steps); t !in st.threads && st.global != [] && st.global[0] in st.services
    ensures var st := Run(steps); var h := st.global[0];
      Run(steps + [Take(t)]) == Working(st, h, st.services[h], st.global[1..], t, Taken(h))
  {
    hide Run;
    var st := Run(steps);
    var h := st.global[0];
    RunLast(steps, Take(t));
    assert st.services[h := st.services[h]] == st.services;
  }

  /** A worker runs the first message of a registered service: two of its steps lead to the callback, the
      third ends it, and two more put the queue back and release the reference. Nothing else changes. */
  lemma RunsMessage(steps: seq<Step>, t: nat, h: Handle, a: bool, b: bool, c: bool, d: bool, e: bool)
    requires var st := Run(steps);
      && t !in st.threads && st.global != [] && st.global[0] == h && h in st.services
      && st.services[h].registered && st.services[h].queue.messages != []
    ensures var st := Run(steps); var s := st.services[h]; var m := s.queue.messages[0];
      var run := steps + [Take(t)] + [Advance(t, a)] + [Advance(t, b)];
      var left := s.(queue := s.queue.(messages := s.queue.messages[1..]), handled := s.handled + [m]);
      && s.init && h in Run(run).services && t in Run(run).threads
      && Run(run).threads[t] == Handling(h, m) && Run(run).services[h].inflight == [m]
      && Run(run + [Advance(t, c)]) == Working(st, h, left.(ref := s.ref + 1), st.global[1..], t, Done(h))
      && Run(run + [Advance(t, c)] + [Advance(t, d)] + [Advance(t, e)]) == Resting(st, h, left, st.global[1..] + [h])
  {
    hide Run, Working, Resting, Next, Pushed, Marked;
    AtRest(steps, h);
    Takes(steps, t);
    var st := Run(steps);
    var s, g, run := st.services[h], st.global[1..], steps + [Take(t)];
    var m := s.queue.messages[0];
    Advances(run, st, h, s, g, t, Taken(h), a);
    run := run + [Advance(t, a)];
    Advances(run, st, h, Grab(s), g, t, Serving(h), b);
    run := run + [Advance(t, b)];
    var s2 := Grab(s).(queue := Popped(s.queue), inflight := [m]);
    AtWork(st, h, s2, g, t, Handling(h, m));
    Advances(run, st, h, s2, g, t, Handling(h, m), c);
    run := run + [Advance(t, c)];
    var s3 := s2.(inflight := [], handled := s.handled + [m]);
    Advances(run, st, h, s3, g, t, Done(h), d);
    Advances(run + [Advance(t, d)], st, h, s3, g + [h], t, Leaving(h), e);
  }

  lemma AtWork(st: State, h: Handle, s: Service, g: seq<Handle>, t: nat, pc: Pc)
    ensures var w := Working(st, h, s, g, t, pc);
      h in w.services && w.services[h] == s && t in w.threads && w.threads[t] == pc
  {
  }

  /** A worker that finds no message gives the token up and releases the reference. */
  lemma FindsNothing(steps: seq<Step>, t: nat, h: Handle, a: bool, b: bool, c: bool)
    requires var st := Run(steps);
      && t !in st.threads && st.global != [] && st.global[0] == h && h in st.services
      && st.services[h].registered && st.services[h].queue.messages == []
    ensures var st := Run(steps); var s := st.services[h];
      Run(steps + [Take(t)] + [Advance(t, a)] + [Advance(t, b)] + [Advance(t, c)])
      == Resting(st, h, s.(queue := s.queue.(inGlobal := false)), st.global[1..])
  {
    hide Run, Working, Resting, Next, Pushed, Marked;
    AtRest(steps, h);
    Takes(steps, t);
    var st := Run(steps);
    var s, g, run := st.services[h], st.global[1..], steps + [Take(t)];
    Advances(run, st, h, s, g, t, Taken(h), a);
    Advances(run + [Advance(t, a)], st, h, Grab(s), g, t, Serving(h), b);
    Advances(run + [Advance(t, a)] + [Advance(t, b)], st, h, Grab(s).(queue := Popped(s.queue)), g, t, Leaving(h), c);
  }

  /** The queue of a retired service goes back as long as it is not marked. */
  lemma PutsBack(steps: seq<Step>, t: nat, h: Handle, a: bool, b: bool)
    requires var st := Run(steps);
      && t !in st.threads && st.global != [] && st.global[0] == h && h in st.services
      && !st.services[h].registered && !st.services[h].queue.release
    ensures var st := Run(steps);
      Run(steps + [Take(t)] + [Advance(t, a)] + [Advance(t, b)])
      == Resting(st, h, st.services[h], st.global[1..] + [h])
  {
    hide Run, Working, Resting, Next, Pushed, Marked;
    Takes(steps, t);
    var st := Run(steps);
    var s, g, run := st.services[h], st.global[1..], steps + [Take(t)];
    Advances(run, st, h, s, g, t, Taken(h), a);
    Advances(run + [Advance(t, a)], st, h, s, g, t, Orphan(h), b);
  }

  function Rounds(t: nat, n: nat): seq<Step> { seq(n, _ => Advance(t, true)) }

  lemma RoundsSplit(t: nat, n: nat)
    requires n > 0
    ensures Rounds(t, n) == [Advance(t, true)] + Rounds(t, n - 1)
  {
  }

  /** A queue that was marked is emptied, every message dropped in order, and freed. */
  lemma DropsAll(steps: seq<Step>, t: nat, h: Handle)
    requires var st := Run(steps);
      && t !in st.threads && st.global != [] && st.global[0] == h && h in st.services
      && !st.services[h].registered && st.services[h].queue.release
    ensures var st := Run(steps); var s := st.services[h];
      Run(steps + [Take(t)] + [Advance(t, true)] + [Advance(t, true)] + Rounds(t, |s.queue.messages| + 1))
      == Resting(st, h, Emptied(s), st.global[1..])
  {
    hide Run, Working, Resting, Next, Pushed, Marked;
    Takes(steps, t);
    var st := Run(steps);
    var s, g, run := st.services[h], st.global[1..], steps + [Take(t)];
    Advances(run, st, h, s, g, t, Taken(h), true);
    Advances(run + [Advance(t, true)], st, h, s, g, t, Orphan(h), true);
    DropsRest(run + [Advance(t, true)] + [Advance(t, true)], st, h, s, g, t);
  }

  ghost function Emptied(s: Service): Service {
    s.(queue := s.queue.(messages := [], inGlobal := false), queueFreed := true,
       dropped := s.dropped + s.queue.messages)
  }

  lemma {:induction false} DropsRest(steps: seq<Step>, st: State, h: Handle, s: Service, g: seq<Handle>, t: nat)
    requires Run(steps) == Working(st, h, s, g, t, Dropping(h)) && t !in st.threads
    ensures Run(steps + Rounds(t, |s.queue.messages| + 1)) == Resting(st, h, Emptied(s), g)
    decreases |s.queue.messages|
  {
    hide Run, Working, Resting, Next, Emptied, Rounds;
    var n := |s.queue.messages|;
    RoundsSplit(t, n + 1);
    assert steps + Rounds(t, n + 1) == steps + [Advance(t, true)] + Rounds(t, n);
    DropsOne(steps, st, h, s, g, t);
    if n == 0 {
      NoRounds(steps + [Advance(t, true)], t);
    } else {
      EmptiedLater(s);
      DropsRest(steps + [Advance(t, true)], st, h, OneDropped(s), g, t);
    }
  }

  ghost function OneDropped(s: Service): Service
    requires s.queue.messages != []
  {
    s.(queue := s.queue.(messages := s.queue.messages[1..]), dropped := s.dropped + [s.queue.messages[0]])
  }

  lemma DropsOne(steps: seq<Step>, st: State, h: Handle, s: Service, g: seq<Handle>, t: nat)
    requires Run(steps) == Working(st, h, s, g, t, Dropping(h)) && t !in st.threads
    ensures Run(steps + [Advance(t, true)])
         == if s.queue.messages == [] then Resting(st, h, Emptied(s), g)
            else Working(st, h, OneDropped(s), g, t, Dropping(h))
  {
    hide Run, Working, Resting, Next, Pushed, Marked;
    Advances(steps, st, h, s, g, t, Dropping(h), true);
    if s.queue.messages == [] {
      assert s.dropped + s.queue.messages == s.dropped;
    }
  }

  lemma NoRounds(steps: seq<Step>, t: nat)
    ensures steps + Rounds(t, 0) == steps
  {
  }

  lemma EmptiedLater(s: Service)
    requires s.queue.messages != []
    ensures Emptied(OneDropped(s)) == Emptied(s)
  {
    assert s.queue.messages == [s.queue.messages[0]] + s.queue.messages[1..];
    assert s.dropped + [s.queue.messages[0]] + s.queue.messages[1..] == s.dropped + s.queue.messages;
  }

  // ---------- nobody waits for ever

  /** Steps of worker t. */
  predicate WorkersSteps(steps: seq<Step>, t: nat) {
    forall x :: x in steps ==> x == Take(t) || x == Advance(t, true)
  }

  /** From a state in which no thread is at work, one worker handles the first queue of the global one;
      the others, and their order, stay. */
  lemma OneRound(steps: seq<Step>, t: nat) returns (more: seq<Step>)
    requires Run(steps).threads == map[] && Run(steps).global != []
    ensures WorkersSteps(more, t) && Run(steps + more).threads == map[]
    ensures var st, st' := Run(steps), Run(steps + more); var h := st.global[0];
      && h in st.services && st'.services.Keys == st.services.Keys && st.global[1..] <= st'.global
      && (forall k :: k in st.services && k != h ==> st'.services[k] == st.services[k])
      && (st.services[h].registered && st.services[h].queue.messages != [] ==>
          st'.global == st.global[1..] + [h] && st'.services[h] == OneHandled(st.services[h]))
  {
    hide Run, Next, ServiceOk, Held;
    Reachable(steps);
    var st := Run(steps);
    var h := st.global[0];
    assert h in st.global;
    var s := st.services[h];
    if s.registered && s.queue.messages != [] {
      RunsMessage(steps, t, h, true, true, true, true, true);
      more := [Take(t), Advance(t, true), Advance(t, true), Advance(t, true), Advance(t, true), Advance(t, true)];
      assert steps + more == steps + [Take(t)] + [Advance(t, true)] + [Advance(t, true)] + [Advance(t, true)]
                             + [Advance(t, true)] + [Advance(t, true)];
    } else if s.registered {
      FindsNothing(steps, t, h, true, true, true);
      more := [Take(t), Advance(t, true), Advance(t, true), Advance(t, true)];
      assert steps + more == steps + [Take(t)] + [Advance(t, true)] + [Advance(t, true)] + [Advance(t, true)];
    } else if s.queue.release {
      DropsAll(steps, t, h);
      var rounds := Rounds(t, |s.queue.messages| + 1);
      more := [Take(t), Advance(t, true), Advance(t, true)] + rounds;
      assert steps + more == steps + [Take(t)] + [Advance(t, true)] + [Advance(t, true)] + rounds;
    } else {
      PutsBack(steps, t, h, true, true);
      more := [Take(t), Advance(t, true), Advance(t, true)];
      assert steps + more == steps + [Take(t)] + [Advance(t, true)] + [Advance(t, true)];
    }
  }

  ghost function OneHandled(s: Service): Service
    requires s.queue.messages != []
  {
    s.(queue := s.queue.(messages := s.queue.messages[1..]), handled := s.handled + [s.queue.messages[0]])
  }

  /** The service at place i of the global queue: after enough rounds all its messages were handled. */
  lemma {:induction false} ComesRound(steps: seq<Step>, t: nat, h: Handle, i: nat) returns (more: seq<Step>)
    requires var st := Run(steps); st.threads == map[] && i < |st.global| && st.global[i] == h
    requires var st := Run(steps); h in st.services && st.services[h].registered
    ensures WorkersSteps(more, t) && Run(steps + more).threads == map[] && h in Run(steps + more).services
    ensures var s, s' := Run(steps).services[h], Run(steps + more).services[h];
      s'.queue.messages == [] && s'.handled == s.handled + s.queue.messages
    decreases |Run(steps).services[h].queue.messages|, i
  {
    hide Run, Next;
    var st := Run(steps);
    var s := st.services[h];
    if s.queue.messages == [] {
      more := [];
      assert steps + more == steps;
      assert s.handled + [] == s.handled;
    } else {
      var first := OneRound(steps, t);
      var st1 := Run(steps + first);
      var rest;
      if st.global[0] == h {
        assert st1.global[|st1.global| - 1] == h;
        rest := ComesRound(steps + first, t, h, |st1.global| - 1);
        assert s.handled + [s.queue.messages[0]] + s.queue.messages[1..] == s.handled + s.queue.messages;
      } else {
        assert st.global[1..][i - 1] == h;
        rest := ComesRound(steps + first, t, h, i - 1);
      }
      more := first + rest;
      assert steps + more == steps + first + rest;
    }
  }

  /** Whenever no thread is at work, one worker alone runs all messages of a registered service, in
      order, whatever else is queued: no message waits for a wakeup that does not come. */
  lemma EverythingRuns(steps: seq<Step>, t: nat, h: Handle) returns (more: seq<Step>)
    requires var st := Run(steps); st.threads == map[] && h in st.services && st.services[h].registered
    requires !Run(steps).services[h].failed
    ensures WorkersSteps(more, t) && h in Run(steps + more).services
    ensures var s, s' := Run(steps).services[h], Run(steps + more).services[h];
      s'.queue.messages == [] && s'.handled == s.handled + s.queue.messages
  {
    hide Run, Next;
    var st := Run(steps);
    var s := st.services[h];
    if s.queue.messages == [] {
      more := [];
      assert steps + more == steps;
      assert s.handled + [] == s.handled;
    } else {
      SchedulingToken(steps, h);
      var i :| 0 <= i < |st.global| && st.global[i] == h;
      more := ComesRound(steps, t, h, i);
    }
  }

  // ---------- skynet_context_push

  /** A message for a registered service whose queue exists is queued behind the others, and the queue
      joins the global one exactly if it had no token; then the reference is given back. */
  lemma Delivers(steps: seq<Step>, t: nat, h: Handle, m: Message, a: bool, b: bool)
    requires var st := Run(steps); t !in st.threads && h in st.services && st.services[h].registered
    ensures var st := Run(steps); var s := st.services[h];
      var queued := s.(queue := s.queue.(messages := s.queue.messages + [m], inGlobal := true),
                       pushed := s.pushed + [m]);
      var g := if s.queue.inGlobal then st.global else st.global + [h];
      var run := steps + [Send(t, h, m)] + [Advance(t, a)];
      && Run(run) == (if s.hasQueue then Working(st, h, queued.(ref := s.ref + 1), g, t, Sent(h))
                      else Working(st, h, s.(ref := s.ref + 1), st.global, t, Sent(h)))
      && Run(run + [Advance(t, b)]) == if s.hasQueue then Resting(st, h, queued, g) else st
  {
    hide Run, Working, Resting, Next, Popped, Marked;
    AtRest(steps, h);
    Sends(steps, t, h, m);
    var st := Run(steps);
    var s, g, run := st.services[h], st.global, steps + [Send(t, h, m)];
    Advances(run, st, h, Grab(s), g, t, Sending(h, m), a);
    if s.hasQueue {
      var s1 := Grab(s).(queue := Pushed(s.queue, m), pushed := s.pushed + [m]);
      Advances(run + [Advance(t, a)], st, h, s1, if s.queue.inGlobal then g else g + [h], t, Sent(h), b);
    } else {
      Advances(run + [Advance(t, a)], st, h, Grab(s), g, t, Sent(h), b);
      Unchanged(st, h);
    }
  }

  lemma Unchanged(st: State, h: Handle)
    requires h in st.services
    ensures Resting(st, h, st.services[h], st.global) == st
  {
    assert st.services[h := st.services[h]] == st.services;
  }

  lemma Sends(steps: seq<Step>, t: nat, h: Handle, m: Message)
    requires var st := Run(steps); t !in st.threads && h in st.services && st.services[h].registered
    ensures var st := Run(steps);
      Run(steps + [Send(t, h, m)]) == Working(st, h, Grab(st.services[h]), st.global, t, Sending(h, m))
  {
    hide Run;
    RunLast(steps, Send(t, h, m));
  }

  /** To a service that is not registered nothing is sent. */
  lemma RefusesMessage(steps: seq<Step>, t: nat, h: Handle, m: Message)
    requires var st := Run(steps); h !in st.services || !st.services[h].registered
    ensures Run(steps + [Send(t, h, m)]) == Run(steps)
  {
    hide Run;
    RunLast(steps, Send(t, h, m));
  }

  // ---------- skynet_context_new

  /** A service whose init succeeds ends up registered, initialised and in the global queue. */
  lemma Launches(steps: seq<Step>, t: nat, a: bool, b: bool, c: bool)
    requires t !in Run(steps).threads
    ensures var st := Run(steps);
      Run(steps + [Launch(t)] + [Advance(t, a)] + [Advance(t, true)] + [Advance(t, b)] + [Advance(t, c)])
      == Resting(st.(next := st.next + 1), st.next,
                 Service(1, true, true, false, false, true, NEW_QUEUE, false, [], [], [], []), st.global + [st.next])
  {
    hide Run, Working, Resting, Next, Pushed, Popped, Marked;
    Begins(steps, t);
    var st, h := Run(steps).(next := Run(steps).next + 1), Run(steps).next;
    var s, g, run := NEW_SERVICE, st.global, steps + [Launch(t)];
    Advances(run, st, h, s, g, t, Registering(h), a);
    run, s := run + [Advance(t, a)], s.(hasQueue := true);
    Advances(run, st, h, s, g, t, Creating(h), true);
    run, s := run + [Advance(t, true)], Decrement(s);
    Advances(run, st, h, s, g, t, Created(h), b);
    run, s := run + [Advance(t, b)], s.(init := true);
    Advances(run, st, h, s, g, t, Launching(h), c);
  }

  /** One whose init fails is retired and deleted, and its queue is marked. */
  lemma FailsToLaunch(steps: seq<Step>, t: nat, a: bool, b: bool, c: bool, d: bool)
    requires t !in Run(steps).threads
    ensures var st := Run(steps);
      Run(steps + [Launch(t)] + [Advance(t, a)] + [Advance(t, false)]
          + [Advance(t, b)] + [Advance(t, c)] + [Advance(t, d)])
      == Resting(st.(next := st.next + 1), st.next,
                 Service(0, false, false, true, true, true, Mq([], true, true), false, [], [], [], []), st.global)
  {
    hide Run, Working, Resting, Next, Pushed, Popped;
    Begins(steps, t);
    var st, h := Run(steps).(next := Run(steps).next + 1), Run(steps).next;
    var s, g, run := NEW_SERVICE, st.global, steps + [Launch(t)];
    Advances(run, st, h, s, g, t, Registering(h), a);
    run, s := run + [Advance(t, a)], s.(hasQueue := true);
    Advances(run, st, h, s, g, t, Creating(h), false);
    run, s := run + [Advance(t, false)], Decrement(s.(failed := true));
    Advances(run, st, h, s, g, t, Failing(h), b);
    run, s := run + [Advance(t, b)], Decrement(s.(registered := false));
    Deletes(run, st, h, s, g, t, ToExit, c, d);
  }

  /** A service retired while its init runs: the creator, who has the last reference, deletes it, and
      still hands the queue, now marked, to the global one if init succeeded. */
  lemma RetiredDuringInit(steps: seq<Step>, st: State, h: Handle, s: Service, g: seq<Handle>, t: nat,
                          ok: bool, a: bool, b: bool, c: bool)
    requires Run(steps) == Working(st, h, s, g, t, Creating(h)) && t !in st.threads && s.ref == 1 && !s.registered
    ensures Run(steps + [Advance(t, ok)] + [Advance(t, a)] + [Advance(t, b)] + [Advance(t, c)])
      == Resting(st, h, s.(ref := 0, failed := s.failed || !ok, queue := s.queue.(release := true), freed := true),
                 if ok then g + [h] else g)
  {
    hide Run, Working, Resting, Next, Pushed, Popped;
    var s1, next := Decrement(if ok then s else s.(failed := true)), if ok then ToLaunch else ToFail;
    Advances(steps, st, h, s, g, t, Creating(h), ok);
    var run := steps + [Advance(t, ok)];
    Deletes(run, st, h, s1, g, t, next, a, b);
    run, s1 := run + [Advance(t, a)] + [Advance(t, b)], s1.(queue := Marked(s1.queue), freed := true);
    Advances(run, st, h, s1, g, t, if ok then Launching(h) else Failing(h), c);
  }

  /** A creator whose init failed takes its service out of the table, if nobody did before. */
  lemma FailedIsRetired(steps: seq<Step>, st: State, h: Handle, s: Service, g: seq<Handle>, t: nat, a: bool)
    requires Run(steps) == Working(st, h, s, g, t, Failing(h)) && t !in st.threads && (s.registered ==> s.ref > 1)
    ensures Run(steps + [Advance(t, a)])
      == Resting(st, h, if s.registered then s.(registered := false, ref := s.ref - 1) else s, g)
  {
    hide Run, Working, Resting, Next, Pushed, Popped, Marked;
    Advances(steps, st, h, s, g, t, Failing(h), a);
  }

  lemma Begins(steps: seq<Step>, t: nat)
    requires t !in Run(steps).threads
    ensures var st := Run(steps);
      Run(steps + [Launch(t)])
      == Working(st.(next := st.next + 1), st.next, NEW_SERVICE, st.global, t, Registering(st.next))
  {
    hide Run;
    RunLast(steps, Launch(t));
  }

  // ---------- skynet_handle_retire and _delete_context

  /** The last reference is gone: the queue is marked, then the context freed. */
  lemma Deletes(steps: seq<Step>, st: State, h: Handle, s: Service, g: seq<Handle>, t: nat, next: After,
                a: bool, b: bool)
    requires Run(steps) == Working(st, h, s, g, t, Deleting(h, next)) && t !in st.threads
    ensures var gone := s.(queue := s.queue.(release := true), freed := true);
      Run(steps + [Advance(t, a)] + [Advance(t, b)])
      == match next
         case ToExit => Resting(st, h, gone, g)
         case ToLaunch => Working(st, h, gone, g, t, Launching(h))
         case ToFail => Working(st, h, gone, g, t, Failing(h))
  {
    hide Run, Working, Resting, Next, Pushed, Popped;
    Advances(steps, st, h, s, g, t, Deleting(h, next), a);
    Advances(steps + [Advance(t, a)], st, h, s.(queue := Marked(s.queue)), g, t, Freeing(h, next), b);
  }

  /** Retiring a service that nobody uses deletes it; while somebody holds a reference it only takes the
      service out of the table. */
  lemma Retires(steps: seq<Step>, t: nat, h: Handle, a: bool, b: bool)
    requires var st := Run(steps); t !in st.threads && h in st.services && st.services[h].registered
    ensures var st := Run(steps); var s := st.services[h]; var out := s.(registered := false, ref := s.ref - 1);
      && (s.ref > 1 ==> Run(steps + [Retire(t, h)]) == Resting(st, h, out, st.global))
      && (s.ref == 1 ==> (
           Run(steps + [Retire(t, h)] + [Advance(t, a)] + [Advance(t, b)])
           == Resting(st, h, out.(queue := s.queue.(release := true), freed := true), st.global)))
      && s.ref >= 1
  {
    hide Run, Working, Resting, Next, Pushed, Popped;
    AtRest(steps, h);
    LeavesTable(steps, t, h);
    var st := Run(steps);
    var s := st.services[h];
    if s.ref == 1 {
      Deletes(steps + [Retire(t, h)], st, h, Decrement(s.(registered := false)), st.global, t, ToExit, a, b);
    }
  }

  lemma LeavesTable(steps: seq<Step>, t: nat, h: Handle)
    requires var st := Run(steps); t !in st.threads && h in st.services && st.services[h].registered
    ensures var st := Run(steps); var out := Decrement(st.services[h].(registered := false));
      Run(steps + [Retire(t, h)])
      == if out.ref == 0 then Working(st, h, out, st.global, t, Deleting(h, ToExit)) else Resting(st, h, out, st.global)
  {
    hide Run;
    RunLast(steps, Retire(t, h));
  }

  /** Whoever gives up the last reference deletes the service. */
  lemma LastOneDeletes(steps: seq<Step>, st: State, h: Handle, s: Service, g: seq<Handle>, t: nat, pc: Pc,
                       a: bool, b: bool, c: bool)
    requires Run(steps) == Working(st, h, s, g, t, pc) && t !in st.threads
    requires (pc == Sent(h) || pc == Leaving(h)) && s.ref == 1
    ensures Run(steps + [Advance(t, a)] + [Advance(t, b)] + [Advance(t, c)])
      == Resting(st, h, s.(ref := 0, queue := s.queue.(release := true), freed := true), g)
  {
    hide Run, Working, Resting, Next, Pushed, Popped;
    Advances(steps, st, h, s, g, t, pc, a);
    Deletes(steps + [Advance(t, a)], st, h, Decrement(s), g, t, ToExit, b, c);
  }
}
