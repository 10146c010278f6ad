/** struct map of src_code/gate/map.c: a coalesced hash table from file descriptors to connection
    ids, proved to be a finite map. */
module FdMap {
  import opened Bits
  import opened Chains
  import opened Wrappers

  class Map {
    const size: nat
    const hash: array<Cell>
    ghost const bits: nat

    /** chains[h]: the slots of the keys whose main slot is h, in link order. */
    ghost var chains: seq<seq<nat>>
    /** The slot of every key. */
    ghost var at: map<int, nat>

    ghost predicate Valid()
      reads this, hash
    {
      && hash.Length == size == Pow2(bits)
      && Threaded(hash[..], chains)
      && Located(hash[..], at)
    }

    ghost function Contents(): map<int, int>
      requires Valid()
      reads this, hash
    {
      Chains.Contents(hash[..], at)
    }

    /** map_new: the size is the first power of two above max. */
    constructor (max: nat)
      ensures Valid() && fresh(hash)
      ensures Contents() == map[] && max < size == Pow2(bits) && (size > 1 ==> size / 2 <= max)
    {
      var sz := 1;
      ghost var k := 0;
      while sz <= max
        invariant sz == Pow2(k) && (sz > 1 ==> sz / 2 <= max)
        decreases max - sz
      {
        sz := sz * 2;
        k := k + 1;
      }
      size, bits := sz, k;
      hash := new Cell[sz](_ => Cell(NULL, 0, NULL));
      chains := seq(sz, _ => []);
      at := map[];
    }

    /** The slot a key hashes to: the low bits of the key. */
    method MainSlot(fd: nat) returns (h: nat)
      requires Valid()
      ensures h == Main(fd, size)
    {
      AndMask(fd, bits);
      h := BitAnd(fd, size - 1);
    }

    /** map_search */
    method Search(fd: nat) returns (id: int)
      requires Valid()
      ensures fd in Contents() ==> id == Contents()[fd]
      ensures fd !in Contents() ==> id == NULL
    {
      hide Main, NextOn, Located, ChainOk;
      var h := MainSlot(fd);
      ghost var cells := hash[..];
      ghost var held := cells[h].fd >= 0;
      ghost var o, p0 := h, 0;
      if held {
        o, p0 := WalkStart(cells, chains, h);
      }
      ghost var p := p0;
      var n := h;
      while true
        invariant n < size && |chains| == size && o < size
        invariant !held ==> n == h
        invariant held ==> p0 <= p < |chains[o]| && chains[o][p] == n
        invariant held ==> forall i :: p0 <= i < p ==> chains[o][i] < size && cells[chains[o][i]].fd != fd
        decreases |chains[o]| - p
      {
        if hash[n].fd == fd {
          Found(cells, at, n);
          return hash[n].id;
        }
        if held {
          OnChainOf(cells, chains, o, p);
        } else {
          FreeLeadsNowhere(cells, chains, h);
        }
        if hash[n].next == NULL {
          break;
        }
        n := hash[n].next;
        p := p + 1;
      }
      Missed(cells, chains, at, fd, o, p0, p);
      id := NULL;
    }

    /** map_insert. A key that squats in the new key's main slot is inserted again elsewhere;
        that happens at most once. Without a free slot the source stops at assert(0). */
    method Insert(fd: nat, id: int) returns (ghost displaced: nat)
      requires Valid() && fd !in Contents() && HasFree(hash[..])
      modifies hash, `chains, `at
      ensures Valid()
      ensures Contents() == old(Contents())[fd := id]
      ensures displaced <= 1
      ensures displaced == 1 <==>
        old(hash[Main(fd, size)]).fd >= 0 && Main(old(hash[Main(fd, size)]).fd, size) != Main(fd, size)
      decreases if hash[Main(fd, size)].fd >= 0 && Main(hash[Main(fd, size)].fd, size) != Main(fd, size) then 1 else 0
    {
      hide Main, NextOn, Located, ChainOk, Displaced;
      var h := MainSlot(fd);
      ghost var cells := hash[..];
      if hash[h].fd < 0 {
        FreeLeadsNowhere(cells, chains, h);
        PlaceInFree(cells, chains, h, Cell(fd, id, NULL));
        LocatePlaced(cells, at, h, Cell(fd, id, NULL));
        hash[h] := hash[h].(fd := fd, id := id);
        assert hash[..] == cells[h := Cell(fd, id, NULL)];
        chains := chains[h := [h]];
        at := at[fd := h];
        return 0;
      }
      var ohash := MainSlot(hash[h].fd);
      ghost var o, p := WalkStart(cells, chains, h);
      if h != ohash {
        var last := Predecessor(ohash, h, p);
        var ofd, oid := hash[h].fd, hash[h].id;
        TakeOver(last, h, fd, id, o, p);
        ghost var more := Insert(ofd, oid);
        return more + 1;
      }
      ghost var k;
      var f;
      f, k := Probe(h * 2);
      LinkAfterHead(cells, chains, h, f, fd, id);
      LocatePlaced(cells, at, f, Cell(fd, id, hash[h].next));
      LocateRelinked(cells[f := Cell(fd, id, hash[h].next)], at[fd := f], h, f);
      hash[f] := Cell(fd, id, hash[h].next);
      hash[h] := hash[h].(next := f);
      assert hash[..] == cells[f := Cell(fd, id, cells[h].next)][h := cells[h].(next := f)];
      assert hash[..] == Linked(cells, h, f, fd, id);
      chains := chains[h := [h, f] + chains[h][1..]];
      at := at[fd := f];
      displaced := 0;
    }

    /** map_erase */
    method Erase(fd: nat)
      requires Valid()
      modifies hash, `chains, `at
      ensures Valid()
      ensures Contents() == old(Contents()) - {fd}
    {
      hide Main, NextOn, Located, ChainOk;
      var h := MainSlot(fd);
      ghost var cells := hash[..];
      if hash[h].fd == fd {
        ghost var o, p := WalkStart(cells, chains, h);
        OnChainOf(cells, chains, o, 0);
        if hash[h].next == NULL {
          EraseOnlyNode(h, fd);
          return;
        }
        EraseHeadNode(h, fd);
        return;
      }
      if hash[h].next == NULL {
        NotAlone(cells, chains, at, fd);
        return;
      }
      ghost var o, p0 := WalkOn(cells, chains, h);
      ghost var p := p0 + 1;
      OnChainOf(cells, chains, o, p0);
      var last, n := h, hash[h].next;
      while true
        invariant hash[..] == cells && unchanged(`chains) && unchanged(`at)
        invariant 0 <= p0 < p < |chains[o]| && n < size && last < size
        invariant chains[o][p] == n && chains[o][p - 1] == last
        invariant forall i :: p0 <= i < p ==> chains[o][i] < size && cells[chains[o][i]].fd != fd
        decreases |chains[o]| - p
      {
        if hash[n].fd == fd {
          EraseInnerNode(last, n, fd, o, p);
          return;
        }
        OnChainOf(cells, chains, o, p);
        if hash[n].next == NULL {
          Missed(cells, chains, at, fd, o, p0, p);
          return;
        }
        last, n := n, hash[n].next;
        p := p + 1;
      }
    }

    method EraseOnlyNode(h: nat, fd: nat)
      requires Valid() && h < size && h == Main(fd, size) && hash[h].fd == fd && hash[h].next == NULL
      modifies hash, `chains, `at
      ensures Valid() && Contents() == old(Contents()) - {fd}
    {
      hide Main, NextOn, Located, ChainOk;
      ghost var cells := hash[..];
      ghost var o, p := WalkStart(cells, chains, h);
      OnChainOf(cells, chains, h, 0);
      assert chains[h] == [h];
      EraseOnly(cells, chains, h);
      LocateFreed(cells, at, h, Freed(cells[h]));
      hash[h] := hash[h].(fd := -1);
      assert hash[..] == cells[h := Freed(cells[h])];
      chains := chains[h := []];
      at := at - {fd};
    }

    /** The second node's data moves into the main slot, and the second node becomes free. */
    method EraseHeadNode(h: nat, fd: nat)
      requires Valid() && h < size && h == Main(fd, size) && hash[h].fd == fd && hash[h].next != NULL
      modifies hash, `chains, `at
      ensures Valid() && Contents() == old(Contents()) - {fd}
    {
      hide Main, NextOn, ChainOk, Located, Without;
      ghost var cells := hash[..];
      ghost var o, p := WalkStart(cells, chains, h);
      OnChainOf(cells, chains, h, 0);
      OnChainOf(cells, chains, h, 1);
      ChainRepeatsNot(cells, chains, h, 0, 1);
      EraseHead(cells, chains, h);
      var next := hash[h].next;
      LocateHeadRemoved(cells, at, h, next);
      hash[h] := hash[h].(fd := hash[next].fd, id := hash[next].id, next := hash[next].next);
      hash[next] := hash[next].(fd := -1, next := NULL);
      assert hash[..] == HeadRemoved(cells, h, next);
      chains := chains[h := Without(chains[h], 1)];
      at := (at - {fd})[cells[next].fd := h];
    }

    method EraseInnerNode(last: nat, n: nat, fd: nat, ghost o: nat, ghost p: nat)
      requires Valid() && o < size && 1 <= p < |chains[o]| && chains[o][p] == n < size
      requires chains[o][p - 1] == last < size && hash[n].fd == fd
      modifies hash, `chains, `at
      ensures Valid() && Contents() == old(Contents()) - {fd}
    {
      hide Main, NextOn, Located, ChainOk, Without;
      ghost var cells := hash[..];
      ChainRepeatsNot(cells, chains, o, p - 1, p);
      EraseInner(cells, chains, o, p);
      LocateRelinked(cells, at, last, cells[n].next);
      LocateFreed(cells[last := cells[last].(next := cells[n].next)], at, n, Freed(cells[n]));
      hash[n] := hash[n].(fd := -1);
      hash[last] := hash[last].(next := hash[n].next);
      hash[n] := hash[n].(next := NULL);
      assert hash[..] == Displaced(cells, last, n, Freed(cells[n]));
      chains := chains[o := Without(chains[o], p)];
      at := at - {fd};
    }

    /** The chain walk of map_insert to the node that links to slot h. */
    method Predecessor(o: nat, h: nat, ghost p: nat) returns (last: nat)
      requires Valid() && o < size && 1 <= p < |chains[o]| && chains[o][p] == h
      ensures last < size && last == chains[o][p - 1]
    {
      hide Main, NextOn, Located, ChainOk;
      ghost var q := 0;
      OnChainOf(hash[..], chains, o, 0);
      last := o;
      while hash[last].next != h
        invariant q < p && last < size && last == chains[o][q]
        decreases p - q
      {
        OnChainOf(hash[..], chains, o, q);
        ChainRepeatsNot(hash[..], chains, o, q + 1, p);
        last := hash[last].next;
        q := q + 1;
      }
      OnChainOf(hash[..], chains, o, q);
      ChainRepeatsNot(hash[..], chains, o, q + 1, p);
    }

    /** The second case of map_insert up to the recursive call: bypass the squatter in slot h,
        then give its slot to the new key. */
    method TakeOver(last: nat, h: nat, fd: nat, id: int, ghost o: nat, ghost p: nat)
      requires Valid() && o < size && 1 <= p < |chains[o]|
      requires chains[o][p] == h && chains[o][p - 1] == last && h < size && last < size
      requires h == Main(fd, size) && fd !in Contents()
      modifies hash, `chains, `at
      ensures Valid() && HasFree(hash[..]) == old(HasFree(hash[..]))
      ensures old(hash[h].fd) >= 0 && Main(old(hash[h].fd), size) == o != h
      ensures old(hash[h].fd) !in Contents() && old(hash[h].fd) in old(Contents())
      ensures old(Contents())[old(hash[h].fd)] == old(hash[h].id)
      ensures Contents() == (old(Contents()) - {old(hash[h].fd)})[fd := id]
      ensures hash[o].fd >= 0 && Main(hash[o].fd, size) == o
    {
      hide Main, NextOn, ChainOk, Without;
      ghost var cells, free := hash[..], Cell(NULL, 0, NULL);
      OnChainOf(cells, chains, o, p);
      OnChainOf(cells, chains, o, p - 1);
      OnChainOf(cells, chains, o, 0);
      ChainRepeatsNot(cells, chains, o, 0, p);
      ChainRepeatsNot(cells, chains, o, p - 1, p);
      Displace(cells, chains, o, p, Cell(fd, id, NULL));
      Found(cells, at, h);
      ghost var relinked := cells[last := cells[last].(next := cells[h].next)];
      LocateRelinked(cells, at, last, cells[h].next);
      LocateFreed(relinked, at, h, free);
      LocatePlaced(relinked[h := free], at - {cells[h].fd}, h, Cell(fd, id, NULL));
      assert relinked[h := free][h := Cell(fd, id, NULL)] == relinked[h := Cell(fd, id, NULL)];
      hash[last] := hash[last].(next := hash[h].next);
      hash[h] := Cell(fd, id, NULL);
      assert hash[..] == Displaced(cells, last, h, Cell(fd, id, NULL));
      SameFree(cells, hash[..]);
      chains := chains[o := Without(chains[o], p)][h := [h]];
      at := (at - {cells[h].fd})[fd := h];
    }

    /** The probe loop of map_insert: visits every slot once, so it finds the first free one. */
    method Probe(last: nat) returns (f: nat, ghost k: nat)
      requires Valid() && HasFree(hash[..])
      ensures f < size && hash[f].fd < 0
      ensures k < size && f == Main(last + 1 + k, size) && forall j :: 0 <= j < k ==> Used(hash[..], last, j)
    {
      hide Main, Threaded, Located;
      ghost var s: nat :| s < size && hash[s].fd < 0;
      ghost var goal := ProbeReaches(last + 1, s, size);
      var i := 0;
      while i < size
        invariant i <= goal && forall j :: 0 <= j < i ==> Used(hash[..], last, j)
        decreases size - i
      {
        f := MainSlot(i + last + 1);
        if hash[f].fd < 0 {
          return f, i;
        }
        assert Used(hash[..], last, i);
        i := i + 1;
      }
      assert false;
    }
  }

  /** The j-th slot behind `last` holds a key. */
  predicate Used(cells: seq<Cell>, last: nat, j: nat)
    requires cells != []
  {
    cells[Main(last + 1 + j, |cells|)].fd >= 0
  }

  ghost predicate HasFree(cells: seq<Cell>) {
    exists s :: 0 <= s < |cells| && cells[s].fd < 0
  }

  lemma SameFree(cells: seq<Cell>, cells': seq<Cell>)
    requires |cells| == |cells'|
    requires forall s :: 0 <= s < |cells| ==> (cells[s].fd < 0) == (cells'[s].fd < 0)
    ensures HasFree(cells) == HasFree(cells')
  {
  }

  /** A walk from an occupied slot starts on the chain of the key it holds. */
  lemma WalkStart(cells: seq<Cell>, chains: seq<seq<nat>>, h: nat) returns (o: nat, p: nat)
    requires Threaded(cells, chains) && h < |cells| && cells[h].fd >= 0
    ensures o < |chains| && o == Main(cells[h].fd, |cells|) && p < |chains[o]| && chains[o][p] == h
    ensures o == h <==> p == 0
  {
    hide Main;
    o := Main(cells[h].fd, |cells|);
    p :| 0 <= p < |chains[o]| && chains[o][p] == h;
    assert ChainOk(cells, chains[o], o);
  }

  lemma OnChainOf(cells: seq<Cell>, chains: seq<seq<nat>>, o: nat, p: nat)
    requires Threaded(cells, chains) && o < |chains| && p < |chains[o]|
    ensures chains[o][p] < |cells| && cells[chains[o][p]].fd >= 0 && Main(cells[chains[o][p]].fd, |cells|) == o
    ensures cells[chains[o][p]].next == if p + 1 < |chains[o]| then chains[o][p + 1] else NULL
    ensures p + 1 < |chains[o]| ==> chains[o][p + 1] < |cells|
    ensures chains[o][0] == o
  {
  }

  /** A slot that leads on is held by a key. */
  lemma WalkOn(cells: seq<Cell>, chains: seq<seq<nat>>, h: nat) returns (o: nat, p: nat)
    requires Threaded(cells, chains) && h < |cells| && cells[h].next != NULL
    ensures cells[h].fd >= 0 && o < |chains| && o == Main(cells[h].fd, |cells|)
    ensures p < |chains[o]| && chains[o][p] == h && (o == h <==> p == 0)
  {
    o, p := WalkStart(cells, chains, h);
  }

  /** If the main slot holds another key and leads nowhere, the key is absent. */
  lemma NotAlone(cells: seq<Cell>, chains: seq<seq<nat>>, at: map<int, nat>, fd: nat)
    requires Threaded(cells, chains) && Located(cells, at)
    requires cells[Main(fd, |cells|)].fd != fd && cells[Main(fd, |cells|)].next == NULL
    ensures fd !in at
  {
  }

  lemma ChainRepeatsNot(cells: seq<Cell>, chains: seq<seq<nat>>, o: nat, i: nat, j: nat)
    requires Threaded(cells, chains) && o < |chains| && i < |chains[o]| && j < |chains[o]|
    ensures chains[o][i] == chains[o][j] <==> i == j
  {
  }

  lemma ProbeReaches(start: nat, s: nat, size: nat) returns (i: nat)
    requires s < size
    ensures i < size && Main(i + start, size) == s
  {
    var r := start % size;
    if s >= r {
      i := s - r;
      SameRemainder(start, size, i, s, 0);
    } else {
      i := s + size - r;
      SameRemainder(start, size, i, s, 1);
    }
  }

  lemma SameRemainder(start: nat, size: nat, i: nat, s: nat, extra: nat)
    requires s < size && start % size + i == s + size * extra
    ensures Main(i + start, size) == s
  {
    var q := start / size;
    assert size * (q + extra) == size * q + size * extra;
    DivisionIsUnique(i + start, size, q + extra, s);
  }

  lemma FreeLeadsNowhere(cells: seq<Cell>, chains: seq<seq<nat>>, h: nat)
    requires Threaded(cells, chains) && h < |cells| && cells[h].fd < 0
    ensures cells[h].next == NULL && chains[h] == []
  {
  }

  lemma Found(cells: seq<Cell>, at: map<int, nat>, n: nat)
    requires Located(cells, at) && n < |cells| && cells[n].fd >= 0
    ensures cells[n].fd in at && at[cells[n].fd] == n
  {
  }

  /** A key whose chain was walked to its end without meeting it is not in the map. */
  lemma Missed(cells: seq<Cell>, chains: seq<seq<nat>>, at: map<int, nat>, fd: nat, o: nat, p0: nat, p: nat)
    requires Threaded(cells, chains) && Located(cells, at)
    requires var h := Main(fd, |cells|);
      cells[h].fd < 0 || (o == Main(cells[h].fd, |cells|) && p0 <= p == |chains[o]| - 1 && (o == h ==> p0 == 0)
        && forall i :: p0 <= i <= p ==> chains[o][i] < |cells| && cells[chains[o][i]].fd != fd)
    ensures fd !in at
  {
  }

  // ---------- where the keys are after each rewiring

  lemma LocatePlaced(cells: seq<Cell>, at: map<int, nat>, h: nat, c: Cell)
    requires Located(cells, at) && h < |cells| && cells[h].fd < 0
    requires c.fd >= 0 && c.fd !in at
    ensures Located(cells[h := c], at[c.fd := h])
    ensures Chains.Contents(cells[h := c], at[c.fd := h]) == Chains.Contents(cells, at)[c.fd := c.id]
  {
    var cells', at' := cells[h := c], at[c.fd := h];
    assert forall k :: k in at ==> at[k] != h && cells'[at[k]].fd == k;
    forall s | 0 <= s < |cells'| && cells'[s].fd >= 0 ensures cells'[s].fd in at' && at'[cells'[s].fd] == s {
      if s != h { assert cells[s].fd in at; }
    }
  }

  lemma LocateRelinked(cells: seq<Cell>, at: map<int, nat>, last: nat, next: int)
    requires Located(cells, at) && last < |cells|
    ensures Located(cells[last := cells[last].(next := next)], at)
    ensures Chains.Contents(cells[last := cells[last].(next := next)], at) == Chains.Contents(cells, at)
  {
    var cells' := cells[last := cells[last].(next := next)];
    assert forall s :: 0 <= s < |cells| ==> cells'[s].fd == cells[s].fd && cells'[s].id == cells[s].id;
    assert forall k :: k in at ==> cells'[at[k]].fd == k;
  }

  lemma LocateFreed(cells: seq<Cell>, at: map<int, nat>, h: nat, c: Cell)
    requires Located(cells, at) && h < |cells| && cells[h].fd >= 0 && c.fd < 0
    ensures Located(cells[h := c], at - {cells[h].fd})
    ensures Chains.Contents(cells[h := c], at - {cells[h].fd}) == Chains.Contents(cells, at) - {cells[h].fd}
  {
    var cells', at' := cells[h := c], at - {cells[h].fd};
    assert forall k :: k in at' ==> at[k] != h && cells'[at[k]].fd == k;
    forall s | 0 <= s < |cells'| && cells'[s].fd >= 0 ensures cells'[s].fd in at' && at'[cells'[s].fd] == s {
      assert s != h && cells[s].fd in at;
    }
  }

  lemma LocateHeadRemoved(cells: seq<Cell>, at: map<int, nat>, h: nat, n: nat)
    requires Located(cells, at) && h < |cells| && n < |cells| && h != n
    requires cells[h].fd >= 0 && cells[n].fd >= 0
    ensures var at' := (at - {cells[h].fd})[cells[n].fd := h];
      && Located(HeadRemoved(cells, h, n), at')
      && Chains.Contents(HeadRemoved(cells, h, n), at') == Chains.Contents(cells, at) - {cells[h].fd}
  {
    var cells', at' := HeadRemoved(cells, h, n), (at - {cells[h].fd})[cells[n].fd := h];
    assert cells[n].fd in at && at[cells[n].fd] == n && at[cells[h].fd] == h;
    forall k | k in at'
      ensures k >= 0 && at'[k] < |cells'| && cells'[at'[k]].fd == k && cells'[at'[k]].id == cells[at[k]].id
    {
      assert k != cells[n].fd ==> at[k] != h && at[k] != n;
    }
    forall s | 0 <= s < |cells'| && cells'[s].fd >= 0 ensures cells'[s].fd in at' && at'[cells'[s].fd] == s {
      assert s != n;
      if s != h { assert cells[s].fd in at && cells[s].fd != cells[h].fd && cells[s].fd != cells[n].fd; }
    }
  }

  // ---------- how full the table is

  function Occupied(cells: seq<Cell>): nat {
    if cells == [] then 0
    else Occupied(cells[..|cells| - 1]) + if cells[|cells| - 1].fd >= 0 then 1 else 0
  }

  lemma {:induction false} OccupiedFull(cells: seq<Cell>)
    ensures Occupied(cells) <= |cells|
    ensures Occupied(cells) < |cells| <==> HasFree(cells)
  {
    if cells != [] {
      var init, last := cells[..|cells| - 1], cells[|cells| - 1];
      OccupiedFull(init);
      if HasFree(init) {
        var s :| 0 <= s < |init| && init[s].fd < 0;
        assert cells[s].fd < 0;
      }
      if last.fd < 0 { assert cells[|cells| - 1].fd < 0; }
      if HasFree(cells) && !HasFree(init) {
        var s :| 0 <= s < |cells| && cells[s].fd < 0;
        assert s < |init| ==> init[s].fd < 0;
      }
    }
  }

  lemma LocateInit(cells: seq<Cell>, at: map<int, nat>)
    requires Located(cells, at) && cells != []
    ensures Located(cells[..|cells| - 1], at - {cells[|cells| - 1].fd})
  {
  }

  lemma {:induction false} KeyCount(cells: seq<Cell>, at: map<int, nat>)
    requires Located(cells, at)
    ensures |at| == Occupied(cells)
  {
    if cells == [] {
      assert forall k :: k !in at;
      assert at == map[];
    } else {
      var init, last := cells[..|cells| - 1], cells[|cells| - 1];
      LocateInit(cells, at);
      KeyCount(init, at - {last.fd});
      DropKey(at, last.fd, last.fd >= 0);
    }
  }

  lemma DropKey(at: map<int, nat>, k: int, present: bool)
    requires present == (k in at)
    ensures |at| == |at - {k}| + if present then 1 else 0
  {
  }

  /** There is room for another key exactly when the map holds fewer keys than it has slots. */
  lemma RoomIff(m: Map)
    requires m.Valid()
    ensures HasFree(m.hash[..]) <==> |m.Contents()| < m.size
  {
    KeyCount(m.hash[..], m.at);
    OccupiedFull(m.hash[..]);
    assert m.Contents().Keys == m.at.Keys;
  }
}
