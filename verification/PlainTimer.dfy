/** What a timer service has to do, without any wheel: a pool of timers kept in the order they were
    added; a tick fires every timer whose expiry is the current clock.
    The second half proves what whole runs of that machine look like. */
module PlainTimer {
  import opened Filters

  datatype Event = Event(handle: nat, session: int)

  datatype Node = Node(expire: nat, event: Event)

  /** One timer delivered, with the clock value at which the delivering tick began. */
  datatype Firing = Firing(tick: nat, node: Node)

  datatype State = State(clock: nat, pending: seq<Node>, log: seq<Firing>)

  datatype Op = Add(delay: nat, event: Event) | Tick

  // ---------- the plain machine

  function ExpiresAt(t: int): Node -> bool { (n: Node) => n.expire == t }

  function Survives(t: int): Node -> bool { (n: Node) => n.expire != t }

  /** The timers a tick starting at clock t delivers, in the order they were added. */
  function Due(p: seq<Node>, t: int): seq<Node> { Filter(p, ExpiresAt(t)) }

  function Remaining(p: seq<Node>, t: int): seq<Node> { Filter(p, Survives(t)) }

  function Stamp(t: nat, p: seq<Node>): (r: seq<Firing>)
    ensures |r| == |p| && forall i :: 0 <= i < |r| ==> r[i] == Firing(t, p[i])
  {
    seq(|p|, i requires 0 <= i < |p| => Firing(t, p[i]))
  }

  function Step(s: State, op: Op): State {
    match op
    case Add(d, ev) => s.(pending := s.pending + [Node(s.clock + d, ev)])
    case Tick => State(s.clock + 1, Remaining(s.pending, s.clock), s.log + Stamp(s.clock, Due(s.pending, s.clock)))
  }

  function TickMany(s: State, d: nat): State {
    if d == 0 then s else Step(TickMany(s, d - 1), Tick)
  }

  function Run(ops: seq<Op>): State {
    if ops == [] then State(0, [], []) else Step(Run(ops[..|ops| - 1]), ops[|ops| - 1])
  }

  // ---------- what a run does, said without running it

  function Ticks(ops: seq<Op>): nat {
    if ops == [] then 0 else Ticks(ops[..|ops| - 1]) + if ops[|ops| - 1].Tick? then 1 else 0
  }

  /** Every timer ever added, in order, with the expiry it was given. */
  function Added(ops: seq<Op>): seq<Node> {
    if ops == [] then []
    else
      var before := ops[..|ops| - 1];
      match ops[|ops| - 1]
      case Add(d, ev) => Added(before) + [Node(Ticks(before) + d, ev)]
      case Tick => Added(before)
  }

  /** The deliveries of ticks 0 .. t-1: by expiry, and by insertion among equal expiries. */
  function Schedule(all: seq<Node>, t: nat): seq<Firing> {
    if t == 0 then [] else Schedule(all, t - 1) + Stamp(t - 1, Due(all, t - 1))
  }

  function NotBefore(t: int): Node -> bool { (n: Node) => n.expire >= t }

  lemma {:induction false} ScheduleIgnoresLater(all: seq<Node>, n: Node, t: nat)
    requires n.expire >= t
    ensures Schedule(all + [n], t) == Schedule(all, t)
  {
    if t > 0 {
      ScheduleIgnoresLater(all, n, t - 1);
      FilterAppend(all, n, ExpiresAt(t - 1));
    }
  }

  lemma AddKeepsSchedule(all: seq<Node>, n: Node, t: nat)
    requires n.expire >= t
    ensures Schedule(all + [n], t) == Schedule(all, t)
    ensures Filter(all + [n], NotBefore(t)) == Filter(all, NotBefore(t)) + [n]
  {
  }

  lemma TickAdvancesSchedule(all: seq<Node>, t: nat)
    ensures Due(Filter(all, NotBefore(t)), t) == Due(all, t)
    ensures Remaining(Filter(all, NotBefore(t)), t) == Filter(all, NotBefore(t + 1))
  {
    FilterTwice(all, NotBefore(t), ExpiresAt(t), ExpiresAt(t));
    FilterTwice(all, NotBefore(t), Survives(t), NotBefore(t + 1));
  }

  lemma RunExtends(before: seq<Op>, op: Op)
    ensures Run(before + [op]) == Step(Run(before), op)
    ensures Ticks(before + [op]) == Ticks(before) + if op.Tick? then 1 else 0
    ensures Added(before + [op])
         == Added(before) + AddedBy(op, Ticks(before))
  {
    var ops := before + [op];
    assert ops != [] && ops[..|ops| - 1] == before && ops[|ops| - 1] == op;
    assert Added(before) + [] == Added(before);
  }

  /** The state a run must be in, in terms of what was added and how many ticks passed. */
  function Expected(all: seq<Node>, t: nat): State {
    State(t, Filter(all, NotBefore(t)), Schedule(all, t))
  }

  function AddedBy(op: Op, t: nat): seq<Node> {
    if op.Add? then [Node(t + op.delay, op.event)] else []
  }

  lemma StepMeetsExpectation(all: seq<Node>, t: nat, op: Op)
    ensures Step(Expected(all, t), op) == Expected(all + AddedBy(op, t), if op.Tick? then t + 1 else t)
  {
    match op {
      case Add(d, ev) => AddKeepsSchedule(all, Node(t + d, ev), t);
      case Tick =>
        TickAdvancesSchedule(all, t);
        assert all + [] == all;
    }
  }

  /** Over every interleaving of adds and ticks: a timer added at clock t with delay d is
      delivered by the tick that begins at clock t + d and by no other, in insertion order among
      timers with the same expiry; what is not yet due is still pending. */
  lemma {:induction false} ExactFiring(ops: seq<Op>)
    ensures Run(ops) == Expected(Added(ops), Ticks(ops))
  {
    if ops != [] {
      var before, op := ops[..|ops| - 1], ops[|ops| - 1];
      assert ops == before + [op];
      ExactFiring(before);
      StepMeetsExpectation(Added(before), Ticks(before), op);
      RunExtends(before, op);
    }
  }

  function Nodes(log: seq<Firing>): (r: seq<Node>)
    ensures |r| == |log| && forall i :: 0 <= i < |r| ==> r[i] == log[i].node
  {
    seq(|log|, i requires 0 <= i < |log| => log[i].node)
  }

  lemma NodesOfStamp(s: seq<Firing>, t: nat, d: seq<Node>)
    ensures Nodes(s + Stamp(t, d)) == Nodes(s) + d
  {
  }

  /** Every delivery happened in the tick its expiry names, and ticks never go back. */
  ghost predicate OnTime(log: seq<Firing>, t: nat) {
    && (forall i :: 0 <= i < |log| ==> log[i].tick == log[i].node.expire < t)
    && (forall i, j :: 0 <= i < j < |log| ==> log[i].tick <= log[j].tick)
  }

  lemma {:induction false} ScheduleOnTime(all: seq<Node>, t: nat)
    ensures OnTime(Schedule(all, t), t)
  {
    if t > 0 {
      ScheduleOnTime(all, t - 1);
      var d := Due(all, t - 1);
      forall i | 0 <= i < |d| ensures d[i].expire == t - 1 {
        FilterMember(all, ExpiresAt(t - 1), d[i]);
      }
    }
  }

  lemma PendingSplits(all: seq<Node>, t: nat)
    ensures multiset(Due(all, t)) + multiset(Filter(all, NotBefore(t + 1))) == multiset(Filter(all, NotBefore(t)))
  {
    TickAdvancesSchedule(all, t);
    SplitMultiset(Filter(all, NotBefore(t)), ExpiresAt(t), Survives(t));
  }

  lemma {:induction false} ScheduleConserves(all: seq<Node>, t: nat)
    ensures multiset(Nodes(Schedule(all, t))) + multiset(Filter(all, NotBefore(t))) == multiset(all)
  {
    hide Filter, Stamp, Nodes;
    if t == 0 {
      FilterAll(all, NotBefore(0));
    } else {
      ScheduleConserves(all, t - 1);
      StampConserves(Schedule(all, t - 1), all, t - 1);
    }
  }

  lemma StampConserves(s: seq<Firing>, all: seq<Node>, t: nat)
    ensures multiset(Nodes(s + Stamp(t, Due(all, t)))) + multiset(Filter(all, NotBefore(t + 1)))
         == multiset(Nodes(s)) + multiset(Filter(all, NotBefore(t)))
  {
    NodesOfStamp(s, t, Due(all, t));
    PendingSplits(all, t);
  }

  /** No timer is lost, duplicated or delivered at the wrong tick, and deliveries never go back
      in time. */
  lemma FiresExactlyOnce(ops: seq<Op>)
    ensures multiset(Nodes(Run(ops).log)) + multiset(Run(ops).pending) == multiset(Added(ops))
    ensures OnTime(Run(ops).log, Run(ops).clock)
    ensures forall n :: n in Run(ops).pending ==> n.expire >= Run(ops).clock
  {
    ExactFiring(ops);
    ScheduleOnTime(Added(ops), Ticks(ops));
    ScheduleConserves(Added(ops), Ticks(ops));
    forall n | n in Run(ops).pending ensures n.expire >= Ticks(ops) {
      FilterMember(Added(ops), NotBefore(Ticks(ops)), n);
    }
  }

  lemma DueSelected(all: seq<Node>, t: nat, e: nat)
    ensures Filter(Due(all, t), ExpiresAt(e)) == if e == t then Due(all, e) else []
  {
    if e == t {
      FilterTwice(all, ExpiresAt(t), ExpiresAt(t), ExpiresAt(t));
    } else {
      FilterTwice(all, ExpiresAt(t), ExpiresAt(e), (n: Node) => false);
      FilterNone(all, (n: Node) => false);
    }
  }

  lemma StampOrder(s: seq<Firing>, all: seq<Node>, t: nat, e: nat)
    requires e == t ==> Filter(Nodes(s), ExpiresAt(e)) == []
    ensures Filter(Nodes(s + Stamp(t, Due(all, t))), ExpiresAt(e))
         == if e == t then Due(all, e) else Filter(Nodes(s), ExpiresAt(e))
  {
    NodesOfStamp(s, t, Due(all, t));
    FilterConcat(Nodes(s), Due(all, t), ExpiresAt(e));
    DueSelected(all, t, e);
  }

  lemma {:induction false} ScheduleOrder(all: seq<Node>, t: nat, e: nat)
    ensures Filter(Nodes(Schedule(all, t)), ExpiresAt(e)) == if e < t then Due(all, e) else []
  {
    hide Filter, Stamp, Due, Nodes;
    if t == 0 {
      FilterNone(Nodes([]), ExpiresAt(e));
    } else {
      ScheduleOrder(all, t - 1, e);
      StampOrder(Schedule(all, t - 1), all, t - 1, e);
    }
  }

  /** Timers with equal expiry are delivered in the order they were added, whatever the clock
      was when each of them was added. */
  lemma EqualExpiryInInsertionOrder(ops: seq<Op>, e: nat)
    requires e < Ticks(ops)
    ensures Filter(Nodes(Run(ops).log), ExpiresAt(e)) == Filter(Added(ops), ExpiresAt(e))
  {
    ExactFiring(ops);
    ScheduleOrder(Added(ops), Ticks(ops), e);
  }

  // ---------- advancing several ticks

  /** The timers that expire in [t, t + d): by expiry, and by insertion among equal expiries. */
  function Between(all: seq<Node>, t: nat, d: nat): seq<Node> {
    if d == 0 then [] else Between(all, t, d - 1) + Due(all, t + d - 1)
  }

  /** Exactly the timers that expire there, by expiry, each expiry in insertion order. */
  lemma {:induction false} BetweenInOrder(all: seq<Node>, t: nat, d: nat)
    ensures forall n :: n in Between(all, t, d) <==> n in all && t <= n.expire < t + d
    ensures forall i, j :: 0 <= i < j < |Between(all, t, d)| ==>
      Between(all, t, d)[i].expire <= Between(all, t, d)[j].expire
    ensures forall e: nat :: Filter(Between(all, t, d), ExpiresAt(e)) == if t <= e < t + d then Due(all, e) else []
  {
    hide Filter;
    if d == 0 {
      forall e: nat ensures Filter(Between(all, t, d), ExpiresAt(e)) == [] {
        FilterNone(Between(all, t, d), ExpiresAt(e));
      }
    } else {
      var before, due := Between(all, t, d - 1), Due(all, t + d - 1);
      BetweenInOrder(all, t, d - 1);
      forall n ensures n in due <==> n in all && n.expire == t + d - 1 {
        FilterMember(all, ExpiresAt(t + d - 1), n);
      }
      LaterBehind(before, due, t + d - 1);
      forall e: nat ensures Filter(before + due, ExpiresAt(e)) == if t <= e < t + d then Due(all, e) else [] {
        FilterConcat(before, due, ExpiresAt(e));
        DueSelected(all, t + d - 1, e);
      }
    }
  }

  lemma LaterBehind(p: seq<Node>, q: seq<Node>, e: nat)
    requires forall i, j :: 0 <= i < j < |p| ==> p[i].expire <= p[j].expire
    requires (forall n :: n in p ==> n.expire < e) && (forall n :: n in q ==> n.expire == e)
    ensures forall n :: n in p + q <==> n in p || n in q
    ensures forall i, j :: 0 <= i < j < |p + q| ==> (p + q)[i].expire <= (p + q)[j].expire
  {
    var s := p + q;
    forall i, j | 0 <= i < j < |s| ensures s[i].expire <= s[j].expire {
      if j >= |p| {
        assert q[j - |p|] in q;
        if i < |p| { assert p[i] in p; } else { assert q[i - |p|] in q; }
      }
    }
  }

  /** d ticks deliver exactly those, one after the other. */
  lemma {:induction false} ScheduleBetween(all: seq<Node>, t: nat, d: nat)
    ensures Nodes(Schedule(all, t + d)) == Nodes(Schedule(all, t)) + Between(all, t, d)
  {
    hide Filter, Stamp, Nodes;
    if d == 0 {
      assert Nodes(Schedule(all, t)) + [] == Nodes(Schedule(all, t));
    } else {
      ScheduleBetween(all, t, d - 1);
      NodesOfStamp(Schedule(all, t + d - 1), t + d - 1, Due(all, t + d - 1));
    }
  }

  /** ... and lead from the state a run is in at clock t to that at clock t + d. */
  lemma {:induction false} TickManyMeetsExpectation(all: seq<Node>, t: nat, d: nat)
    ensures TickMany(Expected(all, t), d) == Expected(all, t + d)
  {
    if d > 0 {
      TickManyMeetsExpectation(all, t, d - 1);
      StepMeetsExpectation(all, t + d - 1, Tick);
      assert all + [] == all;
    }
  }

  function TickOps(d: nat): (r: seq<Op>)
    ensures |r| == d
  {
    seq(d, _ => Tick)
  }

  lemma {:induction false} TicksAddNothing(ops: seq<Op>, d: nat)
    ensures Added(ops + TickOps(d)) == Added(ops) && Ticks(ops + TickOps(d)) == Ticks(ops) + d
  {
    hide Added, Ticks, Run;
    if d == 0 {
      assert ops + TickOps(d) == ops;
    } else {
      TicksAddNothing(ops, d - 1);
      assert ops + TickOps(d) == ops + TickOps(d - 1) + [Tick];
      RunExtends(ops + TickOps(d - 1), Tick);
      assert Added(ops) + [] == Added(ops);
    }
  }
}
