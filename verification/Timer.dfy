/** struct timer and the functions of skynet_timer.c that update it. The linked slot lists are
    sequences; skynet_context_push is the list of events handed back to the caller. */
module SkynetTimer {
  import opened Bits
  import opened Filters
  import opened PlainTimer
  import opened TimingWheel

  /** Spans are the powers of two that the source reaches by shifting masks. */
  lemma SpanIsPow2(i: nat)
    requires i <= 4
    ensures Span(i) == Pow2(TIME_NEAR_SHIFT + i * TIME_LEVEL_SHIFT)
  {
    assert Pow2(6) == 64 && Pow2(8) == 256;
    Pow2Sum(8, 6);
    Pow2Sum(14, 6);
    Pow2Sum(20, 6);
    Pow2Sum(26, 6);
  }

  lemma LowMasks(a: nat)
    ensures BitAnd(a, TIME_NEAR_MASK) == a % TIME_NEAR
    ensures BitAnd(a, TIME_LEVEL_MASK) == a % TIME_LEVEL
  {
    assert Pow2(6) == 64 && Pow2(8) == 256;
    AndMask(a, 8);
    AndMask(a, 6);
  }

  lemma SpanMask(a: nat, b: nat, i: nat)
    requires i <= 4
    ensures BitAnd(a, Span(i) - 1) == a % Span(i)
    ensures BitOr(a, Span(i) - 1) == BitOr(b, Span(i) - 1) <==> a / Span(i) == b / Span(i)
  {
    SpanIsPow2(i);
    AndMask(a, 8 + 6 * i);
    OrMaskAgree(a, b, 8 + 6 * i);
  }

  class Timer {
    const near: array<seq<Node>>
    const t: array2<seq<Node>>
    var time: nat
    var current: nat

    /** Timers added and not yet delivered, in the order they were added. */
    ghost var pending: seq<Node>
    /** Every delivery so far. */
    ghost var log: seq<Firing>
    /** Every call that added a timer or ran a tick. */
    ghost var ops: seq<Op>

    ghost predicate Shape() {
      near.Length == TIME_NEAR && t.Length0 == 4 && t.Length1 == TIME_LEVEL - 1
    }

    ghost function ListAt(s: Slot): seq<Node>
      requires Shape() && IsSlot(s)
      reads near, t
    {
      match s
      case Near(k) => near[k]
      case Far(l, k) => t[l, k]
    }

    /** Every list holds exactly the timers of p that belong there at clock c. */
    ghost predicate Holds(p: seq<Node>, c: nat)
      requires Shape()
      reads near, t
    {
      forall s :: IsSlot(s) ==> ListAt(s) == Select(p, c, s)
    }

    ghost predicate Valid()
      reads this, near, t
    {
      && Shape()
      && time < INT_LIMIT
      && InRange(pending, time)
      && Holds(pending, time)
      && Abs() == Run(ops)
    }

    ghost function Abs(): State
      reads this
    {
      State(time, pending, log)
    }

    constructor ()
      ensures Valid() && fresh(near) && fresh(t)
      ensures ops == [] && current == 0
    {
      near := new seq<Node>[TIME_NEAR](_ => []);
      t := new seq<Node>[4, TIME_LEVEL - 1]((_, _) => []);
      time, current := 0, 0;
      pending, log, ops := [], [], [];
    }

    /** add_node: finds the list by masking and shifting, appends at its tail. */
    method AddNode(node: Node)
      requires Shape() && time <= node.expire < INT_LIMIT
      modifies near, t
      ensures ListAt(SlotOf(node.expire, time)) == old(ListAt(SlotOf(node.expire, time))) + [node]
      ensures forall s :: IsSlot(s) && s != SlotOf(node.expire, time) ==> ListAt(s) == old(ListAt(s))
    {
      SpanMask(node.expire, time, 0);
      LowMasks(node.expire);
      if BitOr(node.expire, TIME_NEAR_MASK) == BitOr(time, TIME_NEAR_MASK) {
        var k := BitAnd(node.expire, TIME_NEAR_MASK);
        near[k] := near[k] + [node];
      } else {
        var mask := TIME_NEAR * TIME_LEVEL;
        var i := 0;
        while i < 3
          invariant i <= 3 && mask == Span(i + 1)
          invariant i <= LevelOf(node.expire, time)
          invariant unchanged(near) && unchanged(t)
        {
          SpanMask(node.expire, time, i + 1);
          if BitOr(node.expire, mask - 1) == BitOr(time, mask - 1) {
            break;
          }
          mask := mask * TIME_LEVEL;
          i := i + 1;
        }
        assert i == LevelOf(node.expire, time);
        SpanIsPow2(i);
        IndexInRange(node.expire, time, i);
        var block := node.expire / Pow2(TIME_NEAR_SHIFT + i * TIME_LEVEL_SHIFT);
        LowMasks(block);
        var k := BitAnd(block, TIME_LEVEL_MASK) - 1;
        t[i, k] := t[i, k] + [node];
      }
    }

    /** What every reachable wheel has done: exactly the schedule of what was added to it. */
    lemma WheelFiresExactly()
      requires Valid()
      ensures time == Ticks(ops)
      ensures log == Schedule(Added(ops), time) && OnTime(log, time)
      ensures multiset(Nodes(log)) + multiset(pending) == multiset(Added(ops))
      ensures forall s, n :: IsSlot(s) && n in ListAt(s) ==>
        n in pending && time <= n.expire < INT_LIMIT && SlotOf(n.expire, time) == s
    {
      ExactFiring(ops);
      FiresExactlyOnce(ops);
      forall s, n | IsSlot(s) && n in ListAt(s)
        ensures n in pending && time <= n.expire < INT_LIMIT && SlotOf(n.expire, time) == s
      {
        FilterMember(pending, Goes(time, s), n);
      }
    }

    /** timer_add: the delay counts from the current clock. */
    method TimerAdd(event: Event, delay: nat)
      requires Valid() && time + delay < INT_LIMIT
      modifies near, t, `pending, `ops
      ensures Valid()
      ensures ops == old(ops) + [Add(delay, event)]
      ensures Abs() == Step(old(Abs()), Add(delay, event))
    {
      hide SlotOf, Filter, Goes, LevelOf, Run, Ticks, Added, AddedBy, Select;
      var node := Node(delay + time, event);
      AddNode(node);
      forall s | IsSlot(s) ensures Select(pending + [node], time, s) == ListAt(s) {
        SelectAppend(pending, node, time, s);
      }
      pending := pending + [node];
      RunExtends(ops, Add(delay, event));
      ops := ops + [Add(delay, event)];
    }

    /** skynet_timeout: a zero delay is answered at once, without the wheel; `pushed` says whether
        skynet_context_push found the service. */
    method Timeout(event: Event, delay: nat, pushed: bool) returns (sent: seq<Event>, result: int)
      requires Valid() && time + delay < INT_LIMIT
      modifies near, t, `pending, `ops
      ensures Valid()
      ensures delay == 0 ==> sent == [event] && ops == old(ops)
      ensures delay > 0 ==> sent == [] && ops == old(ops) + [Add(delay, event)]
      ensures result == if delay == 0 && !pushed then -1 else event.session
    {
      sent, result := [], event.session;
      if delay == 0 {
        sent := [event];
        if !pushed {
          result := -1;
        }
      } else {
        TimerAdd(event, delay);
      }
    }

    /** The delivery loop of timer_execute: empties one near list, front to back. */
    method Deliver(idx: nat) returns (fired: seq<Event>)
      requires Shape() && idx < TIME_NEAR
      modifies near
      ensures fired == Events(old(near[idx]))
      ensures forall s :: IsSlot(s) ==> ListAt(s) == if s == Near(idx) then [] else old(ListAt(s))
    {
      fired := [];
      while near[idx] != []
        invariant near[idx] != [] ==> near[idx] == old(near[idx]) && fired == []
        invariant near[idx] == [] ==> fired == Events(old(near[idx]))
        invariant forall s :: IsSlot(s) && s != Near(idx) ==> ListAt(s) == old(ListAt(s))
        decreases |near[idx]|
      {
        var current := near[idx];
        near[idx] := [];
        var j := 0;
        while j < |current|
          invariant j <= |current|
          invariant fired == Events(current[..j])
        {
          fired := fired + [current[j].event];
          j := j + 1;
        }
        assert current[..j] == current;
      }
    }

    /** The re-adding loop of timer_execute: takes one list apart and adds its timers again. */
    method ReAdd(i: nat, idx: nat)
      requires Shape() && time < INT_LIMIT && IsSlot(Far(i, idx)) && InRange(ListAt(Far(i, idx)), time)
      modifies near, t
      ensures forall s :: IsSlot(s) ==>
        ListAt(s) == (if s == Far(i, idx) then [] else old(ListAt(s))) + Select(old(ListAt(Far(i, idx))), time, s)
    {
      hide SlotOf, Goes, LevelOf;
      var current := t[i, idx];
      t[i, idx] := [];
      var j := 0;
      while j < |current|
        invariant j <= |current|
        invariant forall s :: IsSlot(s) ==>
          ListAt(s) == (if s == Far(i, idx) then [] else old(ListAt(s))) + Select(current[..j], time, s)
      {
        var node := current[j];
        assert node in current;
        label before:
        AddNode(node);
        forall s | IsSlot(s)
          ensures ListAt(s) == (if s == Far(i, idx) then [] else old(ListAt(s))) + Select(current[..j + 1], time, s)
        {
          SelectExtends(current, j, time, s);
          assert old@before(ListAt(s))
            == (if s == Far(i, idx) then [] else old(ListAt(s))) + Select(current[..j], time, s);
        }
        j := j + 1;
      }
      assert current[..j] == current;
    }

    /** The cascade step at the advanced clock puts every list right. */
    method Cascade(i: nat, idx: nat)
      requires Shape() && 0 < time < INT_LIMIT && InRange(pending, time) && Holds(pending, time - 1)
      requires CascadesAt(time, i) && Far(i, idx) == CascadedSlot(time, i)
      modifies near, t
      ensures Holds(pending, time)
    {
      hide SlotOf, Filter, LevelOf;
      ghost var from := Far(i, idx);
      ghost var moved := ListAt(from);
      assert moved == Select(pending, time - 1, from);
      forall n | n in moved ensures time <= n.expire < INT_LIMIT {
        FilterMember(pending, Goes(time - 1, from), n);
      }
      ReAdd(i, idx);
      forall s | IsSlot(s) ensures ListAt(s) == Select(pending, time, s) {
        CascadeRestoresLists(pending, time - 1, i, s);
      }
    }

    /** An empty level-i list for this boundary: the search goes on one level up. */
    lemma SearchUp(i: nat)
      requires i <= 3 && 0 < time < INT_LIMIT && time % Span(i) == 0 && time / Span(i) % TIME_LEVEL == 0
      ensures i < 3 && time % Span(i + 1) == 0 && time / Span(i + 1) == time / Span(i) / TIME_LEVEL
      ensures Span(i + 1) == Span(i) * TIME_LEVEL
    {
      TopLevelIndex(time, i);
      BoundaryNests(time, i);
      SpanNests(time, i);
    }

    lemma DeliveryRemoves()
      requires Valid()
      ensures ListAt(Near(time % TIME_NEAR)) == Due(pending, time)
      ensures forall s :: IsSlot(s) ==>
        Select(Remaining(pending, time), time, s) == if s == Near(time % TIME_NEAR) then [] else ListAt(s)
      ensures InRange(Remaining(pending, time), time + 1)
    {
      CurrentListIsDue(pending, time);
      forall s | IsSlot(s)
        ensures Select(Remaining(pending, time), time, s) == if s == Near(time % TIME_NEAR) then [] else ListAt(s)
      {
        OtherListsRemain(pending, time, s);
      }
      OtherListsRemain(pending, time, Near(0));
    }

    lemma QuietTick()
      requires Shape() && 0 < time < INT_LIMIT && InRange(pending, time) && Holds(pending, time - 1)
      requires time % Span(0) != 0
      ensures Holds(pending, time)
    {
      forall s | IsSlot(s) ensures ListAt(s) == Select(pending, time, s) {
        QuietTickKeepsLists(pending, time - 1, s);
      }
    }

    /** The rest of timer_execute once the clock has advanced: searches upward for the level
        whose list starts at this boundary and cascades that list, if there is one. */
    method CascadeBoundary()
      requires Shape() && 0 < time < INT_LIMIT && InRange(pending, time) && Holds(pending, time - 1)
      modifies near, t
      ensures Holds(pending, time)
    {
      hide SlotOf, Filter, LevelOf, BitAnd, BitOr, Pow2;
      var mask, block, i := TIME_NEAR, time / Pow2(TIME_NEAR_SHIFT), 0;
      SpanIsPow2(0);
      SpanMask(time, time, 0);
      while BitAnd(time, mask - 1) == 0
        invariant i <= 3 && mask == Span(i) && block == time / Span(i)
        invariant BitAnd(time, mask - 1) == time % Span(i)
        invariant i > 0 ==> time % Span(i) == 0
        invariant unchanged(near) && unchanged(t)
        decreases 4 - i
      {
        LowMasks(block);
        var idx := BitAnd(block, TIME_LEVEL_MASK);
        if idx != 0 {
          Cascade(i, idx - 1);
          return;
        }
        SearchUp(i);
        mask := mask * TIME_LEVEL;
        block := block / TIME_LEVEL;
        i := i + 1;
        SpanMask(time, time, i);
      }
      QuietTick();
    }

    /** timer_execute: deliver, advance, then cascade at most one list. */
    method TimerExecute() returns (fired: seq<Event>)
      requires Valid() && time + 1 < INT_LIMIT
      modifies near, t, `time, `pending, `log, `ops
      ensures Valid()
      ensures ops == old(ops) + [Tick]
      ensures Abs() == Step(old(Abs()), Tick)
      ensures fired == Events(Due(old(pending), old(time)))
    {
      hide SlotOf, Filter, Select, LevelOf, Span, BitAnd, BitOr, Pow2, Run, Ticks, Added, AddedBy;
      LowMasks(time);
      DeliveryRemoves();
      fired := Deliver(BitAnd(time, TIME_NEAR_MASK));
      log := log + Stamp(time, Due(pending, time));
      pending := Remaining(pending, time);
      time := time + 1;
      CascadeBoundary();
      RunExtends(ops, Tick);
      ops := ops + [Tick];
    }

    /** skynet_updatetime: one timer_execute for every tick the wall clock has moved; together they fire
        exactly the timers that expire in those ticks, by expiry and then insertion. */
    method UpdateTime(ct: nat) returns (fired: seq<Event>)
      requires Valid() && time + (if ct > current then ct - current else 0) < INT_LIMIT
      modifies near, t, `time, `current, `pending, `log, `ops
      ensures Valid()
      ensures Abs() == TickMany(old(Abs()), if ct > old(current) then ct - old(current) else 0)
      ensures current == if ct > old(current) then ct else old(current)
      ensures ops == old(ops) + TickOps(if ct > old(current) then ct - old(current) else 0)
      ensures fired == Events(Between(Added(old(ops)), old(time), if ct > old(current) then ct - old(current) else 0))
    {
      hide SlotOf, Filter, Select, LevelOf, Span, BitAnd, BitOr, Pow2, Run, Ticks, Added, AddedBy, Between,
           Schedule, OnTime, TickOps, Stamp, Nodes, Events, Due;
      WheelFiresExactly();
      MoreTicks(ops, 0);
      fired := [];
      if ct > current {
        var diff := ct - current;
        current := ct;
        var i := 0;
        while i < diff
          invariant i <= diff && Valid() && current == ct && time == old(time) + i
          invariant Abs() == TickMany(old(Abs()), i)
          invariant ops == old(ops) + TickOps(i)
          invariant old(log) <= log && fired == Events(Nodes(log[|old(log)|..]))
        {
          ghost var more, c, due := log[|old(log)|..], time, Due(pending, time);
          MoreTicks(old(ops), i);
          var f := TimerExecute();
          EventsOfStamp(more, c, due);
          assert log[|old(log)|..] == more + Stamp(c, due);
          fired := fired + f;
          i := i + 1;
        }
        WheelFiresExactly();
        TicksFire(old(ops), old(log), log, old(time), diff);
      } else {
        NothingBetween(Added(ops), time);
      }
    }
  }

  lemma NodesBehind(log: seq<Firing>, log': seq<Firing>, more: seq<Node>)
    requires log <= log' && Nodes(log') == Nodes(log) + more
    ensures Nodes(log'[|log|..]) == more
  {
    var n := |log|;
    forall i | 0 <= i < |more| ensures Nodes(log'[n..])[i] == more[i] {
      assert Nodes(log')[n + i] == more[i];
    }
  }

  /** What d ticks add to the log. */
  lemma TicksFire(ops: seq<Op>, log: seq<Firing>, log': seq<Firing>, t: nat, d: nat)
    requires log <= log' && log == Schedule(Added(ops), t) && log' == Schedule(Added(ops + TickOps(d)), t + d)
    ensures Nodes(log'[|log|..]) == Between(Added(ops), t, d)
  {
    hide Added, Schedule, Between, Nodes;
    TicksAddNothing(ops, d);
    ScheduleBetween(Added(ops), t, d);
    NodesBehind(log, log', Between(Added(ops), t, d));
  }

  lemma MoreTicks(ops: seq<Op>, i: nat)
    ensures ops + TickOps(i) + [Tick] == ops + TickOps(i + 1) && ops + TickOps(0) == ops
  {
  }

  lemma NothingBetween(all: seq<Node>, t: nat)
    ensures Between(all, t, 0) == [] && Events([]) == []
  {
  }

  lemma SelectExtends(p: seq<Node>, j: nat, c: nat, s: Slot)
    requires j < |p| && c <= p[j].expire < INT_LIMIT
    ensures s == SlotOf(p[j].expire, c) ==> Select(p[..j + 1], c, s) == Select(p[..j], c, s) + [p[j]]
    ensures s != SlotOf(p[j].expire, c) ==> Select(p[..j + 1], c, s) == Select(p[..j], c, s)
  {
    assert p[..j + 1] == p[..j] + [p[j]];
    SelectAppend(p[..j], p[j], c, s);
  }

  lemma SelectAppend(p: seq<Node>, n: Node, c: nat, s: Slot)
    requires c <= n.expire < INT_LIMIT
    ensures s == SlotOf(n.expire, c) ==> Select(p + [n], c, s) == Select(p, c, s) + [n]
    ensures s != SlotOf(n.expire, c) ==> Select(p + [n], c, s) == Select(p, c, s)
  {
  }

  function Events(p: seq<Node>): (r: seq<Event>)
    ensures |r| == |p| && forall i :: 0 <= i < |r| ==> r[i] == p[i].event
  {
    seq(|p|, i requires 0 <= i < |p| => p[i].event)
  }

  lemma EventsOfStamp(s: seq<Firing>, t: nat, d: seq<Node>)
    ensures Events(Nodes(s + Stamp(t, d))) == Events(Nodes(s)) + Events(d)
  {
  }

  /** A clock in range is never on a boundary of the top level with index zero there, so the
      search for a list to cascade ends at level 3 at the latest. */
  lemma TopLevelIndex(c: nat, i: nat)
    requires 0 < c < INT_LIMIT && i <= 3 && c % Span(i) == 0
    ensures i == 3 ==> c / Span(i) % TIME_LEVEL != 0
  {
  }
}
