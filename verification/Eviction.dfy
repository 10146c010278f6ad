/** Which connections lose their data for an allocation. */
module Eviction {
  import opened Bytes
  import opened Arena
  import opened Filters
  import opened Layout
  import opened Streams
  import RB = RingBuffer

  /** What an allocation depends on: head, the blocks in use, the same from the oldest to the youngest,
      and the size of the arena. */
  datatype Space = Space(head: nat, live: Blocks, order: seq<nat>, size: nat)

  ghost function SpaceOf(rb: RB.Ringbuffer): Space
    reads rb, rb.data
  {
    Space(rb.head, rb.Live(), rb.Order(), rb.data.Length)
  }

  /** A block for n bytes was put where there was room for it. */
  ghost predicate Placed(s: Space, n: nat, blk: int, s': Space) {
    && blk == PlaceFor(s.live, s.head, Align(HEADER + n), s.size)
    && s' == s.(head := Wrapped(blk + Align(HEADER + n), s.size))
  }

  ghost predicate HasRoomFor(s: Space, n: nat) { HasRoom(s.live, s.head, n, s.size) }

  /** The allocation failed and the blocks of one owner were given up. */
  ghost function Without(s: Space, id: int): Space {
    Space(Settled(s.live, s.head), RB.NotOwnedBy(s.live, id), Filter(s.order, RB.OwnerIsNot(s.live, id)), s.size)
  }

  /** The owners evicted, in turn, and what is left. */
  datatype Outcome = Outcome(ids: seq<int>, space: Space)

  /** As long as there is no room for n bytes, the owner of the oldest block is evicted; it ends with
      connection `id`. */
  ghost function Evict(s: Space, n: nat, id: int): (r: Outcome)
    ensures HasRoomFor(s, n) ==> r == Outcome([], s)
    decreases |s.live|
  {
    if HasRoomFor(s, n) || s.order == [] || s.order[0] !in s.live then Outcome([], s)
    else
      var oldest := s.live[s.order[0]].id;
      FewerLive(s.live, s.order[0], oldest);
      var rest := Without(s, oldest);
      if oldest == id then Outcome([oldest], rest)
      else
        var more := Evict(rest, n, id);
        Outcome([oldest] + more.ids, more.space)
  }

  lemma FewerLive(live: Blocks, b: nat, id: int)
    requires b in live && live[b].id == id
    ensures |RB.NotOwnedBy(live, id)| < |live|
  {
    assert RB.NotOwnedBy(live, id).Keys <= live.Keys - {b};
    SmallerKeys(RB.NotOwnedBy(live, id).Keys, live.Keys, b);
  }

  lemma SmallerKeys(x: set<nat>, y: set<nat>, b: nat)
    requires b in y && x <= y - {b}
    ensures |x| < |y|
  {
    SubsetSize(x, y - {b});
  }

  lemma {:induction false} SubsetSize(x: set<nat>, y: set<nat>)
    requires x <= y
    ensures |x| <= |y|
  {
    if x != {} {
      var e :| e in x;
      SubsetSize(x - {e}, y - {e});
    }
  }

  /** A failed allocation may move head, which changes nothing for what comes after. */
  lemma SettledTwice(s: Space)
    ensures forall id :: Without(s.(head := Settled(s.live, s.head)), id) == Without(s, id)
  {
    hide RB.NotOwnedBy, Filter;
  }

  /** One round of the loop. */
  lemma EvictStep(s: Space, n: nat, id: int)
    requires !HasRoomFor(s, n) && s.order != [] && s.order[0] in s.live
    ensures var oldest := s.live[s.order[0]].id;
      var more := Evict(Without(s, oldest), n, id);
      Evict(s, n, id) == if oldest == id then Outcome([oldest], Without(s, oldest))
                         else Outcome([oldest] + more.ids, more.space)
  {
    hide HasRoomFor, Without;
  }

  // ---------- who is evicted, without the loop

  /** The age of a block: blocks are allocated in this order, reading circularly from head. */
  function Rank(s: Space, b: nat): int { if b >= s.head then b - s.head else b + s.size - s.head }

  ghost predicate Ranked(s: Space, q: seq<nat>) { forall i, j :: 0 <= i < j < |q| ==> Rank(s, q[i]) < Rank(s, q[j]) }

  ghost predicate WellOrdered(s: Space) {
    && s.head < s.size && (forall b :: b in s.live ==> b < s.size)
    && (forall b :: b in s.live <==> b in s.order) && Ranked(s, s.order)
  }

  /** o has a block that is older than every block of id. */
  ghost predicate Older(s: Space, o: int, id: int) { exists b :: b in s.live && OldestOf(s, b, o, id) }

  ghost predicate OldestOf(s: Space, b: nat, o: int, id: int)
    requires b in s.live
  {
    s.live[b].id == o && forall c :: c in s.live && s.live[c].id == id ==> Rank(s, b) < Rank(s, c)
  }

  /** What is in use once everybody with older data than id's is gone. */
  ghost function Spared(s: Space, id: int): Blocks {
    map b | b in s.live && !Older(s, s.live[b].id, id) :: s.live[b]
  }

  /** A connection is evicted exactly if there is no room even with everybody who has older data gone. */
  lemma {:induction false} EvictedIff(s: Space, n: nat, id: int)
    requires WellOrdered(s) && n <= s.size
    ensures id in Evict(s, n, id).ids <==> !HasRoom(Spared(s, id), s.head, n, s.size)
    decreases |s.live|
  {
    hide HasRoom, Evict, Spared, WellOrdered, Settled, RB.NotOwnedBy, Filter;
    SparedLess(s, id, n);
    if !HasRoomFor(s, n) {
      NoRoomInUse(s, n);
      EvictStep(s, n, id);
      var oldest := s.live[s.order[0]].id;
      if oldest == id {
        NobodyOlder(s, id);
      } else {
        FewerLive(s.live, s.order[0], oldest);
        WithoutOrdered(s, oldest);
        EvictedIff(Without(s, oldest), n, id);
        SparedSame(s, id);
        RoomSettled(s, Spared(s, id), n, id);
      }
    }
  }

  lemma SparedLess(s: Space, id: int, n: nat)
    ensures HasRoomFor(s, n) ==> HasRoom(Spared(s, id), s.head, n, s.size)
    ensures forall b :: b in Spared(s, id) ==> b in s.live
  {
  }

  lemma NoRoomInUse(s: Space, n: nat)
    requires WellOrdered(s) && n <= s.size && !HasRoomFor(s, n)
    ensures s.order != [] && s.order[0] in s.live
  {
    if s.order == [] {
      assert forall b :: b !in s.live;
    }
  }

  lemma FirstIsOldest(s: Space, b: nat)
    requires WellOrdered(s) && b in s.live && s.order != []
    ensures b == s.order[0] || Rank(s, s.order[0]) < Rank(s, b)
  {
    var i :| 0 <= i < |s.order| && s.order[i] == b;
  }

  lemma NobodyOlder(s: Space, id: int)
    requires WellOrdered(s) && s.order != [] && s.order[0] in s.live && s.live[s.order[0]].id == id
    ensures Spared(s, id) == s.live
  {
    hide WellOrdered, Rank;
    var first := s.order[0];
    forall b | b in s.live ensures !Older(s, s.live[b].id, id) {
      forall a | a in s.live ensures !OldestOf(s, a, s.live[b].id, id) {
        FirstIsOldest(s, a);
        assert OldestOf(s, a, s.live[b].id, id) ==> Rank(s, a) < Rank(s, first);
      }
    }
  }

  lemma WithoutOrdered(s: Space, o: int)
    requires WellOrdered(s)
    ensures WellOrdered(Without(s, o))
  {
    hide Filter, Rank;
    var s1 := Without(s, o);
    forall b ensures b in s1.live <==> b in s1.order {
      FilterMember(s.order, RB.OwnerIsNot(s.live, o), b);
    }
    RanksKept(s);
    var moved := s.(head := Settled(s.live, s.head));
    forall i, j | 0 <= i < j < |s.order| ensures Rank(s1, s.order[i]) < Rank(s1, s.order[j]) {
      RankByHead(s1, moved, s.order[i]);
      RankByHead(s1, moved, s.order[j]);
      assert s.order[i] in s.live && s.order[j] in s.live;
      assert Rank(s, s.order[i]) < Rank(s, s.order[j]);
    }
    FilterRanked(s1, s.order, RB.OwnerIsNot(s.live, o));
  }

  /** Moving head to the start when nothing is behind it keeps the order. */
  lemma RanksKept(s: Space)
    requires WellOrdered(s)
    ensures Settled(s.live, s.head) < s.size
    ensures var s1 := s.(head := Settled(s.live, s.head));
      forall b, c :: b in s.live && c in s.live ==> (Rank(s1, b) < Rank(s1, c) <==> Rank(s, b) < Rank(s, c))
  {
  }

  lemma {:induction false} FilterRanked(s: Space, q: seq<nat>, p: nat -> bool)
    requires Ranked(s, q)
    ensures Ranked(s, Filter(q, p))
  {
    hide Rank;
    if q != [] {
      var init, last := q[..|q| - 1], q[|q| - 1];
      FilterRanked(s, init, p);
      var kept := Filter(init, p);
      forall i | 0 <= i < |kept| ensures Rank(s, kept[i]) < Rank(s, last) {
        FilterMember(init, p, kept[i]);
        var k :| 0 <= k < |init| && init[k] == kept[i];
        assert q[k] == kept[i];
      }
    }
  }

  lemma SparedSame(s: Space, id: int)
    requires WellOrdered(s) && s.order != [] && s.order[0] in s.live && s.live[s.order[0]].id != id
    ensures Spared(Without(s, s.live[s.order[0]].id), id) == Spared(s, id)
  {
    hide Filter, Rank, WellOrdered, Settled;
    var first := s.order[0];
    var o := s.live[first].id;
    var s1 := Without(s, o);
    RanksKept(s);
    OldestOlder(s, id);
    forall b | b in s.live && s.live[b].id != o ensures Older(s1, s.live[b].id, id) == Older(s, s.live[b].id, id) {
      OlderSame(s, o, s.live[b].id, id);
    }
  }

  lemma OldestOlder(s: Space, id: int)
    requires WellOrdered(s) && s.order != [] && s.order[0] in s.live && s.live[s.order[0]].id != id
    ensures Older(s, s.live[s.order[0]].id, id)
  {
    hide Rank, WellOrdered;
    forall c | c in s.live && s.live[c].id == id ensures Rank(s, s.order[0]) < Rank(s, c) {
      FirstIsOldest(s, c);
    }
    assert OldestOf(s, s.order[0], s.live[s.order[0]].id, id);
  }

  lemma OlderSame(s: Space, o: int, x: int, id: int)
    requires WellOrdered(s) && x != o && id != o
    ensures Older(Without(s, o), x, id) == Older(s, x, id)
  {
    hide Rank, WellOrdered, Settled, Filter;
    RanksKept(s);
    var s1 := Without(s, o);
    forall b | b in s.live && s.live[b].id == x ensures OldestOf(s1, b, x, id) == OldestOf(s, b, x, id) {
      assert s1.live[b] == s.live[b];
      forall c | c in s.live && s.live[c].id == id ensures (Rank(s1, b) < Rank(s1, c)) == (Rank(s, b) < Rank(s, c)) {
        RankByHead(s1, s.(head := s1.head), b);
        RankByHead(s1, s.(head := s1.head), c);
      }
    }
  }

  lemma RankByHead(s: Space, s': Space, b: nat)
    requires s.head == s'.head && s.size == s'.size
    ensures Rank(s, b) == Rank(s', b)
  {
  }

  lemma RoomSettled(s: Space, live: Blocks, n: nat, id: int)
    requires !HasRoomFor(s, n) && forall b :: b in live ==> b in s.live
    ensures HasRoom(live, Without(s, id).head, n, s.size) <==> HasRoom(live, s.head, n, s.size)
  {
    hide RB.NotOwnedBy, Filter;
  }

  /** The blocks in use of a ring buffer are in that order. */
  lemma ArenaOrdered(rb: RB.Ringbuffer)
    requires rb.Valid()
    ensures WellOrdered(SpaceOf(rb))
  {
    hide Rank, Filter, Arranged, LiveAt, BlockAt;
    var m, r, s := rb.data[..], rb.R(), SpaceOf(rb);
    ArrangedWhole(m, r);
    forall b ensures b in s.live <==> b in s.order {
      FilterMember(r.Circ(), Alive(m), b);
    }
    forall b | b in s.live ensures b < s.size {
      Inside(m, r, b);
    }
    CircRanked(m, r, s);
    FilterRanked(s, r.Circ(), Alive(m));
  }

  lemma Inside(m: seq<Byte>, r: Ring, b: nat)
    requires Arranged(m, r) && b in r.Circ()
    ensures b < |m|
  {
    BlockFits(m, r, b);
  }

  lemma CircRanked(m: seq<Byte>, r: Ring, s: Space)
    requires Arranged(m, r) && s.head == r.head && s.size == |m|
    ensures Ranked(s, r.Circ())
  {
    hide Arranged, Tiles, Room, Len;
    var q := r.Circ();
    forall i, j | 0 <= i < j < |q| ensures Rank(s, q[i]) < Rank(s, q[j]) {
      InOrder(m, r, i, j);
    }
  }

  lemma InOrder(m: seq<Byte>, r: Ring, i: nat, j: nat)
    requires Arranged(m, r) && i < j < |r.Circ()|
    ensures var q := r.Circ();
      if j < |r.after| then r.head <= q[i] < q[j] else if i >= |r.after| then q[i] < q[j] < r.head
      else q[j] < r.head <= q[i] < |m|
  {
    hide Tiles, Room, Len;
    var q, n := r.Circ(), |r.after|;
    if j < n {
      TilesApartAt(m, r.after, r.head, |m|, i, j);
      TileInside(m, r.after, r.head, |m|, q[i]);
      RoomAboveZero(m, q[i]);
    } else if i >= n {
      TilesApartAt(m, r.before, 0, r.head, i - n, j - n);
      TileInside(m, r.before, 0, r.head, q[i]);
      TileInside(m, r.before, 0, r.head, q[j]);
      RoomAboveZero(m, q[i]);
      RoomAboveZero(m, q[j]);
    } else {
      TileInside(m, r.after, r.head, |m|, q[i]);
      TileInside(m, r.before, 0, r.head, q[j]);
      RoomAboveZero(m, q[i]);
      RoomAboveZero(m, q[j]);
    }
  }
}
