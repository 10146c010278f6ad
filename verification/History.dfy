/** What a run of the scheduler did with messages, read off its steps alone: the histories that services
    carry say exactly that. */
module History {
  import opened Queues
  import opened Scheduler

  // ---------- reading a run

  /** The thread whose next step this is works on service h. */
  predicate WorksOn(st: State, step: Step, h: Handle) {
    step.Advance? && step.t in st.threads && st.threads[step.t].h == h && h in st.services
  }

  /** Messages that a Send step brought on their way to h. */
  function AcceptedIn(st: State, step: Step, h: Handle): seq<Message> {
    if step.Send? && step.h == h && step.t !in st.threads && h in st.services && st.services[h].registered
    then [step.m] else []
  }

  /** Messages that a sender arrives with at the queue of h. */
  function ArrivedIn(st: State, step: Step, h: Handle): seq<Message> {
    if WorksOn(st, step, h) && st.threads[step.t].Sending? then [st.threads[step.t].m] else []
  }

  function QueuedIn(st: State, step: Step, h: Handle): seq<Message> {
    if h in st.services && st.services[h].hasQueue then ArrivedIn(st, step, h) else []
  }

  /** ... which find no queue yet. */
  function LostIn(st: State, step: Step, h: Handle): seq<Message> {
    if h in st.services && st.services[h].hasQueue then [] else ArrivedIn(st, step, h)
  }

  function HandledIn(st: State, step: Step, h: Handle): seq<Message> {
    if WorksOn(st, step, h) && st.threads[step.t].Handling? then [st.threads[step.t].m] else []
  }

  function DroppedIn(st: State, step: Step, h: Handle): seq<Message> {
    if WorksOn(st, step, h) && st.threads[step.t].Dropping? && st.services[h].queue.messages != []
    then [st.services[h].queue.messages[0]] else []
  }

  datatype Kind = Accepted | Queued | Lost | Handled | Dropped

  function In(kind: Kind, st: State, step: Step, h: Handle): seq<Message> {
    match kind
    case Accepted => AcceptedIn(st, step, h)
    case Queued => QueuedIn(st, step, h)
    case Lost => LostIn(st, step, h)
    case Handled => HandledIn(st, step, h)
    case Dropped => DroppedIn(st, step, h)
  }

  /** In the order of the steps. */
  function During(kind: Kind, steps: seq<Step>, h: Handle): seq<Message> {
    if steps == [] then []
    else During(kind, steps[..|steps| - 1], h) + In(kind, Run(steps[..|steps| - 1]), steps[|steps| - 1], h)
  }

  // ---------- the histories of a service

  /** One step adds to the histories of a service what it did with messages. */
  lemma StepHistory(st: State, step: Step, h: Handle)
    requires h in st.services && h < st.next
    ensures h in Next(st, step).services
    ensures var s, s' := st.services[h], Next(st, step).services[h];
      && s'.pushed == s.pushed + QueuedIn(st, step, h) && s'.handled == s.handled + HandledIn(st, step, h)
      && s'.dropped == s.dropped + DroppedIn(st, step, h)
  {
    hide Act, Unregister;
    if WorksOn(st, step, h) {
      ActHistory(st.threads[step.t], st.services[h], step.ok);
    }
    if step.Retire? {
      UnregisterHistory(st.services[h], h);
    }
  }

  lemma ActHistory(pc: Pc, s: Service, ok: bool)
    ensures var s' := Act(pc, s, ok).service;
      && s'.pushed == s.pushed + (if pc.Sending? && s.hasQueue then [pc.m] else [])
      && s'.handled == s.handled + (if pc.Handling? then [pc.m] else [])
      && s'.dropped == s.dropped
           + (if pc.Dropping? && s.queue.messages != [] then [s.queue.messages[0]] else [])
  {
    hide Act;
    if Releases(pc) {
      ReleasesHistory(pc, s, ok);
    } else if MovesMessages(pc) {
      MovesHistory(pc, s, ok);
    } else {
      OtherHistory(pc, s, ok);
    }
  }

  ghost predicate SameHistory(s: Service, s': Service) {
    s'.pushed == s.pushed && s'.handled == s.handled && s'.dropped == s.dropped
  }

  lemma ReleasesHistory(pc: Pc, s: Service, ok: bool)
    requires Releases(pc)
    ensures SameHistory(s, Act(pc, s, ok).service)
  {
  }

  lemma OtherHistory(pc: Pc, s: Service, ok: bool)
    requires !Releases(pc) && !MovesMessages(pc)
    ensures SameHistory(s, Act(pc, s, ok).service)
  {
    hide Release, Unregister;
  }

  lemma MovesHistory(pc: Pc, s: Service, ok: bool)
    requires MovesMessages(pc)
    ensures var s' := Act(pc, s, ok).service;
      && s'.pushed == s.pushed + (if pc.Sending? && s.hasQueue then [pc.m] else [])
      && s'.handled == s.handled + (if pc.Handling? then [pc.m] else [])
      && s'.dropped == s.dropped
           + (if pc.Dropping? && s.queue.messages != [] then [s.queue.messages[0]] else [])
  {
    hide Release, Unregister, Pushed, Popped, Grab, Decrement;
    match pc {
      case Sending(h, m) =>
      case Serving(h) =>
      case Handling(h, m) =>
      case Dropping(h) =>
    }
  }

  lemma UnregisterHistory(s: Service, h: Handle)
    ensures SameHistory(s, Unregister(s, h).service)
  {
  }

  /** What services remember of messages is what the run did with them. */
  lemma {:induction false} HistoryOf(steps: seq<Step>, h: Handle)
    ensures h in Run(steps).services ==> Remembers(Run(steps).services[h], steps, h)
    ensures h !in Run(steps).services ==> Remembers(NEW_SERVICE, steps, h)
  {
    hide Next, Inv, QueuedIn, HandledIn, DroppedIn;
    if steps != [] {
      var init, last := steps[..|steps| - 1], steps[|steps| - 1];
      HistoryOf(init, h);
      Reachable(init);
      NewHistory(Run(init), last, h);
    }
  }

  predicate Remembers(s: Service, steps: seq<Step>, h: Handle) {
    && s.pushed == During(Queued, steps, h) && s.handled == During(Handled, steps, h)
    && s.dropped == During(Dropped, steps, h)
  }

  lemma NewHistory(st: State, step: Step, h: Handle)
    requires Inv(st)
    ensures h in st.services ==> h in Next(st, step).services
    ensures h in st.services ==> var s, s' := st.services[h], Next(st, step).services[h];
      && s'.pushed == s.pushed + QueuedIn(st, step, h) && s'.handled == s.handled + HandledIn(st, step, h)
      && s'.dropped == s.dropped + DroppedIn(st, step, h)
    ensures h !in st.services ==> QueuedIn(st, step, h) == HandledIn(st, step, h) == DroppedIn(st, step, h) == []
    ensures h !in st.services && h in Next(st, step).services ==> Next(st, step).services[h] == NEW_SERVICE
  {
    hide ServiceOk, Held, Act, Unregister;
    if h in st.services {
      StepHistory(st, step, h);
    }
  }

  /** What runs, in whatever order the threads came: the messages queued are those handled, the one in
      hand, those dropped and those still queued, in the order in which their senders got to the queue. */
  lemma RunOrder(steps: seq<Step>, h: Handle)
    requires h in Run(steps).services
    ensures var s := Run(steps).services[h];
      && During(Queued, steps, h)
         == During(Handled, steps, h) + s.inflight + During(Dropped, steps, h) + s.queue.messages
      && |s.inflight| <= 1 && (s.ref > 0 ==> During(Dropped, steps, h) == [])
  {
    hide Run, During;
    HistoryOf(steps, h);
    MessageOrder(steps, h);
  }

  // ---------- messages on their way

  function CarriedBy(pc: Pc, h: Handle): multiset<Message> {
    if pc.Sending? && pc.h == h then multiset{pc.m} else multiset{}
  }

  /** The messages of the senders that have not got to the queue of h yet. */
  ghost function OnTheWay(threads: map<nat, Pc>, h: Handle): multiset<Message>
    decreases |threads|
  {
    if threads == map[] then multiset{}
    else
      var t :| t in threads;
      OnTheWay(threads - {t}, h) + CarriedBy(threads[t], h)
  }

  lemma SomeCarrier(threads: map<nat, Pc>, h: Handle) returns (t: nat)
    requires threads != map[]
    ensures t in threads && |threads - {t}| < |threads|
    ensures OnTheWay(threads, h) == OnTheWay(threads - {t}, h) + CarriedBy(threads[t], h)
  {
    t :| t in threads && OnTheWay(threads, h) == OnTheWay(threads - {t}, h) + CarriedBy(threads[t], h);
    assert threads == (threads - {t})[t := threads[t]];
  }

  lemma {:induction false} OnTheWayWithout(threads: map<nat, Pc>, t: nat, h: Handle)
    requires t in threads
    ensures OnTheWay(threads, h) == OnTheWay(threads - {t}, h) + CarriedBy(threads[t], h)
    decreases |threads|
  {
    hide OnTheWay, CarriedBy;
    var u := SomeCarrier(threads, h);
    if u != t {
      assert threads - {u} - {t} == threads - {t} - {u};
      OnTheWayWithout(threads - {u}, t, h);
      OnTheWayWithout(threads - {t}, u, h);
    }
  }

  ghost function CarriedAt(threads: map<nat, Pc>, t: nat, h: Handle): multiset<Message> {
    if t in threads then CarriedBy(threads[t], h) else multiset{}
  }

  lemma OnTheWayMoves(threads: map<nat, Pc>, threads': map<nat, Pc>, t: nat, h: Handle)
    requires threads - {t} == threads' - {t}
    ensures OnTheWay(threads', h) + CarriedAt(threads, t, h) == OnTheWay(threads, h) + CarriedAt(threads', t, h)
  {
    hide OnTheWay, CarriedBy;
    if t in threads {
      OnTheWayWithout(threads, t, h);
    } else {
      assert threads - {t} == threads;
    }
    if t in threads' {
      OnTheWayWithout(threads', t, h);
    } else {
      assert threads' - {t} == threads';
    }
  }

  lemma ActCarries(pc: Pc, s: Service, ok: bool)
    ensures var e := Act(pc, s, ok); e.pc.Some? ==> !e.pc.value.Sending?
  {
    hide Pushed, Popped, Marked;
  }

  lemma UnregisterCarries(s: Service, h: Handle)
    ensures var e := Unregister(s, h); e.pc.Some? ==> !e.pc.value.Sending?
  {
  }

  /** A step changes at most the place of the thread that makes it. */
  lemma OneMoves(st: State, step: Step)
    ensures st.threads - {step.t} == Next(st, step).threads - {step.t}
  {
    hide Act, Unregister;
  }

  lemma StepCarries(st: State, step: Step, h: Handle)
    requires Inv(st)
    ensures CarriedAt(Next(st, step).threads, step.t, h) + multiset(ArrivedIn(st, step, h))
         == CarriedAt(st.threads, step.t, h) + multiset(AcceptedIn(st, step, h))
  {
    hide Next, Inv, CarriedAt, ArrivedIn, AcceptedIn;
    match step {
      case Advance(t, ok) => AdvanceCarries(st, t, ok, h);
      case Retire(t, h') => RetireCarries(st, t, h', h);
      case Send(t, h', m) => SendCarries(st, t, h', m, h);
      case Launch(t) => OthersCarry(st, step, h);
      case Take(t) => OthersCarry(st, step, h);
    }
  }

  lemma SendCarries(st: State, t: nat, h': Handle, m: Message, h: Handle)
    ensures CarriedAt(Next(st, Send(t, h', m)).threads, t, h)
         == CarriedAt(st.threads, t, h) + multiset(AcceptedIn(st, Send(t, h', m), h))
    ensures ArrivedIn(st, Send(t, h', m), h) == []
  {
  }

  lemma OthersCarry(st: State, step: Step, h: Handle)
    requires step.Launch? || step.Take?
    ensures CarriedAt(Next(st, step).threads, step.t, h) == CarriedAt(st.threads, step.t, h)
    ensures ArrivedIn(st, step, h) == AcceptedIn(st, step, h) == []
  {
  }

  lemma RetireCarries(st: State, t: nat, h': Handle, h: Handle)
    ensures CarriedAt(Next(st, Retire(t, h')).threads, t, h) == CarriedAt(st.threads, t, h)
    ensures ArrivedIn(st, Retire(t, h'), h) == AcceptedIn(st, Retire(t, h'), h) == []
  {
    hide Unregister;
    if h' in st.services {
      UnregisterCarries(st.services[h'], h');
    }
  }

  lemma AdvanceCarries(st: State, t: nat, ok: bool, h: Handle)
    requires Inv(st)
    ensures CarriedAt(Next(st, Advance(t, ok)).threads, t, h) + multiset(ArrivedIn(st, Advance(t, ok), h))
         == CarriedAt(st.threads, t, h)
    ensures AcceptedIn(st, Advance(t, ok), h) == []
  {
    hide ServiceOk, Held, Act;
    if t in st.threads {
      var pc := st.threads[t];
      assert ThreadOk(pc, st);
      ActCarries(pc, st.services[pc.h], ok);
    }
  }

  /** No message that was accepted for a service is lost or duplicated: each is queued, or its sender
      found no queue, or is still on its way. */
  lemma {:induction false} AcceptedArrive(steps: seq<Step>, h: Handle)
    ensures multiset(During(Accepted, steps, h))
         == multiset(During(Queued, steps, h)) + multiset(During(Lost, steps, h)) + OnTheWay(Run(steps).threads, h)
  {
    hide OnTheWay, CarriedAt, Next, AcceptedIn, ArrivedIn, QueuedIn, LostIn, Inv, During;
    if steps != [] {
      var init, last := steps[..|steps| - 1], steps[|steps| - 1];
      var st := Run(init);
      AcceptedArrive(init, h);
      Reachable(init);
      OneMoves(st, last);
      StepCarries(st, last, h);
      SplitArrived(st, last, h);
      OnTheWayMoves(st.threads, Next(st, last).threads, last.t, h);
      OneMoreStep(Accepted, init, last, h);
      OneMoreStep(Queued, init, last, h);
      OneMoreStep(Lost, init, last, h);
      assert steps == init + [last];
      Balance(multiset(During(Accepted, init, h)), multiset(During(Queued, init, h)), multiset(During(Lost, init, h)),
              OnTheWay(st.threads, h), OnTheWay(Run(steps).threads, h), multiset(AcceptedIn(st, last, h)),
              multiset(QueuedIn(st, last, h)), multiset(LostIn(st, last, h)),
              CarriedAt(st.threads, last.t, h), CarriedAt(Next(st, last).threads, last.t, h));
    } else {
      NobodyOnTheWay(h);
    }
  }

  lemma Balance<T>(a: multiset<T>, q: multiset<T>, l: multiset<T>, w: multiset<T>, w': multiset<T>,
                   da: multiset<T>, dq: multiset<T>, dl: multiset<T>, c: multiset<T>, c': multiset<T>)
    requires a == q + l + w && w' + c == w + c' && c' + (dq + dl) == c + da
    ensures a + da == (q + dq) + (l + dl) + w'
  {
    forall x: T ensures (a + da)[x] == ((q + dq) + (l + dl) + w')[x] {
      assert (w' + c)[x] == (w + c')[x];
      assert (c' + (dq + dl))[x] == (c + da)[x];
    }
  }

  lemma OneMoreStep(kind: Kind, init: seq<Step>, last: Step, h: Handle)
    ensures multiset(During(kind, init + [last], h))
         == multiset(During(kind, init, h)) + multiset(In(kind, Run(init), last, h))
  {
    assert (init + [last])[..|init|] == init;
  }

  lemma NobodyOnTheWay(h: Handle)
    ensures OnTheWay(INITIAL.threads, h) == multiset{}
    ensures forall kind :: During(kind, [], h) == []
  {
  }

  lemma SplitArrived(st: State, step: Step, h: Handle)
    ensures multiset(ArrivedIn(st, step, h)) == multiset(QueuedIn(st, step, h)) + multiset(LostIn(st, step, h))
  {
  }
}
