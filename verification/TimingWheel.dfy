/** The hierarchical timing wheel of skynet_timer.c: 256 near lists of one tick each and four
    levels of 63 lists, each list of a level spanning 64 lists of the level below. Placement
    compares masked bits; a tick cascades at most one list. Proved to refine PlainTimer. */
module TimingWheel {
  import opened Filters
  import opened PlainTimer

  const TIME_NEAR_SHIFT: nat := 8
  const TIME_NEAR: nat := 256
  const TIME_NEAR_MASK: nat := TIME_NEAR - 1
  const TIME_LEVEL_SHIFT: nat := 6
  const TIME_LEVEL: nat := 64
  const TIME_LEVEL_MASK: nat := TIME_LEVEL - 1

  /** Clock and expiries are C ints. */
  const INT_LIMIT: nat := 0x8000_0000

  // ---------- where a timer belongs

  datatype Slot = Near(k: nat) | Far(level: nat, k: nat)

  predicate IsSlot(s: Slot) {
    match s
    case Near(k) => k < TIME_NEAR
    case Far(l, k) => l < 4 && k < TIME_LEVEL - 1
  }

  /** Ticks covered by one list of level i (and, for i == 0, by the whole near array). */
  function Span(i: nat): (r: nat)
    requires i <= 4
    ensures r > 0
  {
    if i == 0 then 0x100
    else if i == 1 then 0x4000
    else if i == 2 then 0x10_0000
    else if i == 3 then 0x400_0000
    else 0x1_0000_0000
  }

  /** The lowest level whose next-coarser block holds both times. */
  function LevelOf(e: nat, c: nat): (l: nat)
    ensures l < 4
  {
    if e / Span(1) == c / Span(1) then 0
    else if e / Span(2) == c / Span(2) then 1
    else if e / Span(3) == c / Span(3) then 2
    else 3
  }

  /** The list that a timer with expiry e belongs to at clock c. */
  function SlotOf(e: nat, c: nat): Slot
    requires c <= e < INT_LIMIT
    ensures IsSlot(SlotOf(e, c))
  {
    if e / Span(0) == c / Span(0) then Near(e % TIME_NEAR)
    else
      var l := LevelOf(e, c);
      IndexInRange(e, c, l);
      Far(l, e / Span(l) % TIME_LEVEL - 1)
  }

  lemma SpanNests(e: nat, l: nat)
    requires l < 4
    ensures e / Span(l + 1) == e / Span(l) / TIME_LEVEL
  {
  }

  lemma SpanMonotone(e: nat, c: nat, l: nat)
    requires c <= e && l <= 4
    ensures c / Span(l) <= e / Span(l)
  {
  }

  lemma IndexInRange(e: nat, c: nat, l: nat)
    requires c <= e < INT_LIMIT && e / Span(0) != c / Span(0) && l == LevelOf(e, c)
    ensures 1 <= e / Span(l) % TIME_LEVEL <= TIME_LEVEL_MASK
  {
    SpanNests(e, l);
    SpanNests(c, l);
    SpanMonotone(e, c, l);
  }

  // ---------- how one tick changes where timers belong

  /** Advancing the clock by one tick changes its block number at level j exactly on a boundary. */
  lemma SpanStep(c: nat, j: nat)
    requires j <= 4
    ensures (c + 1) / Span(j) == c / Span(j) + if (c + 1) % Span(j) == 0 then 1 else 0
  {
  }

  lemma BoundaryNests(c: nat, j: nat)
    requires j < 4
    ensures c % Span(j + 1) == c % Span(j) + Span(j) * (c / Span(j) % TIME_LEVEL)
    ensures c % Span(j + 1) == 0 <==> c % Span(j) == 0 && c / Span(j) % TIME_LEVEL == 0
  {
    SpanNests(c, j);
    if j == 0 {
    } else if j == 1 {
    } else if j == 2 {
    } else {
    }
  }

  /** The tick arriving at clock c empties the k-th level's list with c's own index. */
  predicate CascadesAt(c: nat, k: nat) {
    k < 4 && c % Span(k) == 0 && c / Span(k) % TIME_LEVEL != 0
  }

  function CascadedSlot(c: nat, k: nat): Slot
    requires CascadesAt(c, k)
  {
    Far(k, c / Span(k) % TIME_LEVEL - 1)
  }

  /** Levels below the cascaded one: where the cascaded timers go, and empty at that moment. */
  predicate Below(s: Slot, k: nat) {
    s.Near? || s.level < k
  }

  lemma BelowBoundary(e: nat, c: nat, k: nat, j: nat)
    requires CascadesAt(c + 1, k) && j <= k && c < e
    ensures (c + 1) % Span(j) == 0
    ensures c / Span(j) < (c + 1) / Span(j) <= e / Span(j)
    decreases k - j
  {
    if j < k {
      BelowBoundary(e, c, k, j + 1);
      BoundaryNests(c + 1, j);
    }
    SpanStep(c, j);
    SpanMonotone(e, c + 1, j);
  }

  lemma {:induction false} AboveBoundary(c: nat, k: nat, j: nat)
    requires CascadesAt(c + 1, k) && k < j <= 4
    ensures (c + 1) % Span(j) != 0
    ensures (c + 1) / Span(j) == c / Span(j)
    decreases j
  {
    if j > k + 1 {
      AboveBoundary(c, k, j - 1);
    }
    BoundaryNests(c + 1, j - 1);
    SpanStep(c, j);
  }

  lemma SameBlockAbove(e: nat, c: nat, l: nat, m: nat)
    requires l <= m <= 4 && e / Span(l) == c / Span(l)
    ensures e / Span(m) == c / Span(m)
    decreases m - l
  {
    if l < m {
      SpanNests(e, l);
      SpanNests(c, l);
      SameBlockAbove(e, c, l + 1, m);
    }
  }

  /** A timer is at level l exactly when its block differs from the clock's there and agrees one
      level up. */
  lemma LevelIsUnique(e: nat, c: nat, l: nat)
    requires c <= e < INT_LIMIT && l < 4
    ensures e / Span(l) != c / Span(l) && e / Span(l + 1) == c / Span(l + 1)
       <==> SlotOf(e, c).Far? && SlotOf(e, c).level == l
  {
    assert e / Span(4) == c / Span(4);
    if e / Span(0) == c / Span(0) {
      SameBlockAbove(e, c, 0, l);
    } else if LevelOf(e, c) < l {
      SameBlockAbove(e, c, LevelOf(e, c) + 1, l);
    } else if LevelOf(e, c) > l {
      AgreesAboveLevel(e, c, l);
    } else {
      AgreesAboveLevel(e, c, l);
    }
  }

  lemma AgreesAboveLevel(e: nat, c: nat, l: nat)
    requires c <= e < INT_LIMIT && l < 4 && e / Span(0) != c / Span(0)
    ensures e / Span(l + 1) == c / Span(l + 1) <==> l >= LevelOf(e, c)
    ensures LevelOf(e, c) > 0 ==> e / Span(LevelOf(e, c)) != c / Span(LevelOf(e, c))
  {
    assert e / Span(4) == c / Span(4);
    if l > LevelOf(e, c) {
      SameBlockAbove(e, c, LevelOf(e, c) + 1, l + 1);
    }
  }

  /** Just before a cascading tick no pending timer is below the cascaded level. */
  lemma NothingBelow(e: nat, c: nat, k: nat)
    requires CascadesAt(c + 1, k) && c < e < INT_LIMIT
    ensures !Below(SlotOf(e, c), k)
  {
    BelowBoundary(e, c, k, 0);
    var s := SlotOf(e, c);
    if s.Far? && s.level < k {
      LevelIsUnique(e, c, s.level);
      BelowBoundary(e, c, k, s.level + 1);
    }
  }

  lemma IndexNamesBlock(e: nat, c: nat, l: nat)
    requires l < 4 && e / Span(l + 1) == c / Span(l + 1)
    ensures e / Span(l) % TIME_LEVEL == c / Span(l) % TIME_LEVEL <==> e / Span(l) == c / Span(l)
  {
    SpanNests(e, l);
    SpanNests(c, l);
  }

  /** Timers of the block being entered: in the cascaded list before, below it after. */
  lemma EnteredBlockMoves(e: nat, c: nat, k: nat)
    requires CascadesAt(c + 1, k) && c < e < INT_LIMIT
    requires e / Span(k) == (c + 1) / Span(k)
    ensures SlotOf(e, c) == CascadedSlot(c + 1, k)
    ensures Below(SlotOf(e, c + 1), k)
  {
    AboveBoundary(c, k, k + 1);
    SameBlockAbove(e, c + 1, k, k + 1);
    BelowBoundary(e, c, k, k);
    LevelIsUnique(e, c, k);
  }

  lemma StaysAtLevel(e: nat, c: nat, l: nat)
    requires c < e < INT_LIMIT && l < 4
    requires e / Span(l) != c / Span(l) && e / Span(l + 1) == c / Span(l + 1)
    requires e / Span(l) != (c + 1) / Span(l) && e / Span(l + 1) == (c + 1) / Span(l + 1)
    ensures SlotOf(e, c + 1) == SlotOf(e, c)
    ensures SlotOf(e, c).Far? && SlotOf(e, c).level == l
    ensures SlotOf(e, c).k == e / Span(l) % TIME_LEVEL - 1
  {
    LevelIsUnique(e, c, l);
    LevelIsUnique(e, c + 1, l);
  }

  lemma OtherBlocksStay(e: nat, c: nat, k: nat)
    requires CascadesAt(c + 1, k) && c < e < INT_LIMIT
    requires e / Span(k) != (c + 1) / Span(k)
    ensures SlotOf(e, c) == SlotOf(e, c + 1) != CascadedSlot(c + 1, k)
    ensures !Below(SlotOf(e, c), k)
  {
    hide SlotOf, LevelOf, Span;
    NothingBelow(e, c, k);
    var l := SlotOf(e, c).level;
    LevelIsUnique(e, c, l);
    AboveBoundary(c, k, l + 1);
    if l == k {
      IndexNamesBlock(e, c + 1, k);
    } else {
      AboveBoundary(c, k, l);
    }
    StaysAtLevel(e, c, l);
  }

  /** Away from a near boundary nothing moves. */
  lemma NoBoundaryNoMove(e: nat, c: nat)
    requires (c + 1) % Span(0) != 0 && c < e < INT_LIMIT
    ensures SlotOf(e, c + 1) == SlotOf(e, c)
  {
    NoBoundaryAbove(c, 4);
    NoBoundaryAbove(c, 3);
    NoBoundaryAbove(c, 2);
    NoBoundaryAbove(c, 1);
    NoBoundaryAbove(c, 0);
  }

  lemma {:induction false} NoBoundaryAbove(c: nat, j: nat)
    requires (c + 1) % Span(0) != 0 && j <= 4
    ensures (c + 1) % Span(j) != 0 && (c + 1) / Span(j) == c / Span(j)
  {
    if j > 0 {
      NoBoundaryAbove(c, j - 1);
      BoundaryNests(c + 1, j - 1);
    }
    SpanStep(c, j);
  }

  // ---------- the lists the wheel must hold

  ghost function Goes(c: nat, s: Slot): Node -> bool {
    (n: Node) => c <= n.expire < INT_LIMIT && SlotOf(n.expire, c) == s
  }

  /** The pending timers that belong in list s at clock c, in insertion order. */
  ghost function Select(p: seq<Node>, c: nat, s: Slot): seq<Node> {
    Filter(p, Goes(c, s))
  }

  ghost predicate InRange(p: seq<Node>, lo: nat) {
    forall n :: n in p ==> lo <= n.expire < INT_LIMIT
  }

  /** The near list of the current tick holds exactly the timers that are due. */
  lemma CurrentListIsDue(p: seq<Node>, c: nat)
    requires InRange(p, c) && c < INT_LIMIT
    ensures Select(p, c, Near(c % TIME_NEAR)) == Due(p, c)
  {
    FilterCongruent(p, Goes(c, Near(c % TIME_NEAR)), ExpiresAt(c));
  }

  /** Delivering them leaves every other list as it is. */
  lemma OtherListsRemain(p: seq<Node>, c: nat, s: Slot)
    requires InRange(p, c) && c < INT_LIMIT
    ensures Select(Remaining(p, c), c, s) == if s == Near(c % TIME_NEAR) then [] else Select(p, c, s)
    ensures InRange(Remaining(p, c), c + 1)
  {
    forall n | n in Remaining(p, c) ensures c + 1 <= n.expire < INT_LIMIT {
      FilterMember(p, Survives(c), n);
    }
    if s == Near(c % TIME_NEAR) {
      FilterNone(Remaining(p, c), Goes(c, s));
    } else {
      FilterTwice(p, Survives(c), Goes(c, s), Goes(c, s));
    }
  }

  lemma QuietTickKeepsLists(p: seq<Node>, c: nat, s: Slot)
    requires InRange(p, c + 1) && (c + 1) % Span(0) != 0
    ensures Select(p, c + 1, s) == Select(p, c, s)
  {
    forall n | n in p ensures Goes(c + 1, s)(n) == Goes(c, s)(n) {
      NoBoundaryNoMove(n.expire, c);
    }
    FilterCongruent(p, Goes(c + 1, s), Goes(c, s));
  }

  /** One timer across a cascading tick: its list changes only if it was in the cascaded one. */
  lemma CascadeMovesOne(e: nat, c: nat, k: nat)
    requires CascadesAt(c + 1, k) && c < e < INT_LIMIT
    ensures SlotOf(e, c) == CascadedSlot(c + 1, k) <==> Below(SlotOf(e, c + 1), k)
    ensures SlotOf(e, c) != CascadedSlot(c + 1, k) ==> SlotOf(e, c) == SlotOf(e, c + 1)
    ensures !Below(SlotOf(e, c), k)
  {
    if e / Span(k) == (c + 1) / Span(k) {
      EnteredBlockMoves(e, c, k);
    } else {
      OtherBlocksStay(e, c, k);
    }
  }

  /** What a list holds while a cascade re-adds the timers taken out of the cascaded list. */
  ghost function DuringCascade(p: seq<Node>, moved: seq<Node>, c: nat, from: Slot, s: Slot): seq<Node> {
    (if s == from then [] else Select(p, c, s)) + Select(moved, c + 1, s)
  }

  /** Re-adding the cascaded list, and nothing else, puts every list right for the new clock. */
  lemma CascadeRestoresLists(p: seq<Node>, c: nat, k: nat, s: Slot)
    requires InRange(p, c + 1) && c + 1 < INT_LIMIT && CascadesAt(c + 1, k) && IsSlot(s)
    ensures var from := CascadedSlot(c + 1, k);
      DuringCascade(p, Select(p, c, from), c, from, s) == Select(p, c + 1, s)
  {
    var from := CascadedSlot(c + 1, k);
    var moved := Select(p, c, from);
    forall n | n in p
      ensures Below(s, k) ==> !Goes(c, s)(n) && Goes(c + 1, s)(n) == (Goes(c, from)(n) && Goes(c + 1, s)(n))
      ensures !Below(s, k) ==> !(Goes(c, from)(n) && Goes(c + 1, s)(n))
      ensures !Below(s, k) && s != from ==> Goes(c, s)(n) == Goes(c + 1, s)(n)
    {
      CascadeMovesOne(n.expire, c, k);
    }
    if Below(s, k) {
      FilterNone(p, Goes(c, s));
      FilterTwice(p, Goes(c, from), Goes(c + 1, s), Goes(c + 1, s));
    } else {
      MovedLeaveUpper(p, c, k, s);
      if s == from {
        NothingEntersCascaded(p, c, k);
      } else {
        FilterCongruent(p, Goes(c, s), Goes(c + 1, s));
      }
    }
  }

  lemma MovedLeaveUpper(p: seq<Node>, c: nat, k: nat, s: Slot)
    requires InRange(p, c + 1) && c + 1 < INT_LIMIT && CascadesAt(c + 1, k) && !Below(s, k)
    ensures Select(Select(p, c, CascadedSlot(c + 1, k)), c + 1, s) == []
  {
    var from := CascadedSlot(c + 1, k);
    forall n | n in Select(p, c, from) ensures !Goes(c + 1, s)(n) {
      FilterMember(p, Goes(c, from), n);
      CascadeMovesOne(n.expire, c, k);
    }
    FilterNone(Select(p, c, from), Goes(c + 1, s));
  }

  lemma NothingEntersCascaded(p: seq<Node>, c: nat, k: nat)
    requires InRange(p, c + 1) && c + 1 < INT_LIMIT && CascadesAt(c + 1, k)
    ensures Select(p, c + 1, CascadedSlot(c + 1, k)) == []
  {
    forall n | n in p ensures !Goes(c + 1, CascadedSlot(c + 1, k))(n) {
      CascadeMovesOne(n.expire, c, k);
    }
    FilterNone(p, Goes(c + 1, CascadedSlot(c + 1, k)));
  }
}
