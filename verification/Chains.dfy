/** The node array of src_code/gate/map.c as a value: keys hash to a main slot, and all keys of one
    main slot are threaded through a chain of slots that starts there. Every lemma here says that
    one rewiring the source performs keeps that structure. */
module Chains {
  import opened Wrappers

  /** struct node; `next` is an index into the array, or NULL. A negative fd marks a free slot. */
  datatype Cell = Cell(fd: int, id: int, next: int)

  function Main(fd: int, size: nat): (h: nat)
    requires size > 0
    ensures h < size
  {
    fd % size
  }

  /** What the node at position i of a chain must point to. */
  ghost function NextOn(chain: seq<nat>, i: nat): int
    requires i < |chain|
  {
    if i + 1 < |chain| then chain[i + 1] else NULL
  }

  ghost predicate ChainOk(cells: seq<Cell>, chain: seq<nat>, h: nat)
    requires |cells| > 0
  {
    && (chain != [] ==> chain[0] == h)
    && (forall i :: 0 <= i < |chain| ==>
      chain[i] < |cells| && cells[chain[i]].fd >= 0 && Main(cells[chain[i]].fd, |cells|) == h)
    && (forall i :: 0 <= i < |chain| ==> cells[chain[i]].next == NextOn(chain, i))
    && (forall i, j :: 0 <= i < j < |chain| ==> chain[i] != chain[j])
  }

  /** `at` says which slot holds each key, so no key is held twice. */
  ghost predicate Located(cells: seq<Cell>, at: map<int, nat>) {
    && (forall k :: k in at ==> k >= 0 && at[k] < |cells| && cells[at[k]].fd == k)
    && (forall s :: 0 <= s < |cells| && cells[s].fd >= 0 ==> cells[s].fd in at && at[cells[s].fd] == s)
  }

  ghost predicate Threaded(cells: seq<Cell>, chains: seq<seq<nat>>) {
    && |cells| == |chains| > 0
    && (forall h :: 0 <= h < |chains| ==> ChainOk(cells, chains[h], h))
    && (forall s :: 0 <= s < |cells| && cells[s].fd >= 0 ==> s in chains[Main(cells[s].fd, |cells|)])
    && (forall s :: 0 <= s < |cells| && cells[s].fd < 0 ==> cells[s].next == NULL)
  }

  ghost function Contents(cells: seq<Cell>, at: map<int, nat>): map<int, int>
    requires Located(cells, at)
  {
    map k | k in at :: cells[at[k]].id
  }

  lemma FrameChain(cells: seq<Cell>, cells': seq<Cell>, chain: seq<nat>, h: nat)
    requires |cells| == |cells'| > 0 && ChainOk(cells, chain, h)
    requires forall i :: 0 <= i < |chain| ==> cells'[chain[i]] == cells[chain[i]]
    ensures ChainOk(cells', chain, h)
  {
  }

  /** Rewriting slots held by keys of other chains, or by none, leaves a chain alone. */
  lemma ApartChain(cells: seq<Cell>, cells': seq<Cell>, chain: seq<nat>, k: nat)
    requires |cells| == |cells'| > 0 && ChainOk(cells, chain, k)
    requires forall s :: 0 <= s < |cells| && cells'[s] != cells[s] ==>
      cells[s].fd < 0 || Main(cells[s].fd, |cells|) != k
    ensures ChainOk(cells', chain, k)
  {
  }

  lemma OnChain(cells: seq<Cell>, chain: seq<nat>, k: nat, i: nat)
    requires |cells| > 0 && ChainOk(cells, chain, k) && i < |chain|
    ensures chain[0] == k && chain[i] < |cells|
    ensures cells[chain[i]].fd >= 0 && Main(cells[chain[i]].fd, |cells|) == k
    ensures cells[chain[i]].next == NextOn(chain, i)
    ensures i > 0 ==> chain[i] != k
  {
  }

  /** A chain is headed by its main slot, and a slot held by a foreign key heads none. */
  lemma ChainExistsIff(cells: seq<Cell>, chains: seq<seq<nat>>, h: nat)
    requires Threaded(cells, chains) && h < |cells|
    ensures chains[h] != [] <==> cells[h].fd >= 0 && Main(cells[h].fd, |cells|) == h
  {
  }

  // ---------- map_insert, first case: the main slot is free

  lemma PlaceInFree(cells: seq<Cell>, chains: seq<seq<nat>>, h: nat, c: Cell)
    requires Threaded(cells, chains) && h < |cells|
    requires c.fd >= 0 && c.next == NULL && h == Main(c.fd, |cells|) && cells[h].fd < 0
    ensures Threaded(cells[h := c], chains[h := [h]])
  {
  }

  // ---------- map_insert, second case: the main slot is held by a key of another chain

  ghost function Without(chain: seq<nat>, p: nat): seq<nat>
    requires p < |chain|
  {
    chain[..p] + chain[p + 1..]
  }

  /** The squatter at position p is bypassed and its slot is taken over by the new key. */
  ghost function Displaced(cells: seq<Cell>, before: nat, h: nat, c: Cell): seq<Cell>
    requires before < |cells| && h < |cells|
  {
    cells[before := cells[before].(next := cells[h].next)][h := c]
  }

  lemma WithoutAt(chain: seq<nat>, p: nat, i: nat)
    requires 1 <= p < |chain| && i + 1 < |chain|
    ensures Without(chain, p)[i] == chain[if i < p then i else i + 1]
    ensures NextOn(Without(chain, p), i) == NextOn(chain, if i < p - 1 then i else i + 1)
  {
  }

  lemma BypassChain(cells: seq<Cell>, chain: seq<nat>, o: nat, p: nat, c: Cell)
    requires |cells| > 0 && ChainOk(cells, chain, o) && 1 <= p < |chain|
    ensures ChainOk(Displaced(cells, chain[p - 1], chain[p], c), Without(chain, p), o)
  {
    hide Main, NextOn, Without;
    var rest, cells' := Without(chain, p), Displaced(cells, chain[p - 1], chain[p], c);
    assert |rest| == |chain| - 1 by { WithoutLength(chain, p); }
    assert rest[0] == o by { WithoutAt(chain, p, 0); }
    forall i | 0 <= i < |rest|
      ensures rest[i] < |cells'| && cells'[rest[i]].fd >= 0 && Main(cells'[rest[i]].fd, |cells'|) == o
      ensures cells'[rest[i]].next == NextOn(rest, i)
    {
      WithoutAt(chain, p, i);
      var j := if i < p then i else i + 1;
      assert cells[chain[j]].next == NextOn(chain, j) && cells[chain[p]].next == NextOn(chain, p);
    }
    forall i, j | 0 <= i < j < |rest| ensures rest[i] != rest[j] {
      WithoutAt(chain, p, i);
      WithoutAt(chain, p, j);
    }
  }

  lemma WithoutLength(chain: seq<nat>, p: nat)
    requires p < |chain|
    ensures |Without(chain, p)| == |chain| - 1
  {
  }

  lemma Displace(cells: seq<Cell>, chains: seq<seq<nat>>, o: nat, p: nat, c: Cell)
    requires Threaded(cells, chains) && o < |chains| && 1 <= p < |chains[o]|
    requires c.fd >= 0 && c.next == NULL && Main(c.fd, |cells|) == chains[o][p]
    ensures var h := chains[o][p];
      Threaded(Displaced(cells, chains[o][p - 1], h, c), chains[o := Without(chains[o], p)][h := [h]])
  {
    hide Main, ChainOk, NextOn, Without;
    var h := chains[o][p];
    OnChain(cells, chains[o], o, p);
    OnChain(cells, chains[o], o, p - 1);
    ChainExistsIff(cells, chains, h);
    var cells' := Displaced(cells, chains[o][p - 1], h, c);
    var chains' := chains[o := Without(chains[o], p)][h := [h]];
    forall k | 0 <= k < |chains'| ensures ChainOk(cells', chains'[k], k) {
      if k == o {
        BypassChain(cells, chains[o], o, p, c);
      } else if k == h {
        SingleChain(cells', h);
      } else {
        ApartChain(cells, cells', chains[k], k);
      }
    }
    forall s | 0 <= s < |cells'| && cells'[s].fd >= 0 ensures s in chains'[Main(cells'[s].fd, |cells'|)] {
      if s != h && Main(cells[s].fd, |cells|) == o {
        MemberOfWithout(chains[o], p, s);
      }
    }
  }

  lemma SingleChain(cells: seq<Cell>, h: nat)
    requires h < |cells| && cells[h].fd >= 0 && Main(cells[h].fd, |cells|) == h && cells[h].next == NULL
    ensures ChainOk(cells, [h], h)
  {
  }

  lemma MemberOfWithout(chain: seq<nat>, p: nat, s: nat)
    requires p < |chain| && s in chain && s != chain[p]
    ensures s in Without(chain, p)
  {
  }

  // ---------- map_insert, third case: the main slot heads the key's own chain

  ghost function Linked(cells: seq<Cell>, h: nat, f: nat, fd: int, id: int): seq<Cell>
    requires h < |cells| && f < |cells| && h != f
  {
    cells[f := Cell(fd, id, cells[h].next)][h := cells[h].(next := f)]
  }

  lemma LinkAfterHead(cells: seq<Cell>, chains: seq<seq<nat>>, h: nat, f: nat, fd: int, id: int)
    requires Threaded(cells, chains) && h < |cells| && f < |cells| && h != f
    requires cells[h].fd >= 0 && Main(cells[h].fd, |cells|) == h == Main(fd, |cells|)
    requires fd >= 0 && cells[f].fd < 0
    ensures Threaded(Linked(cells, h, f, fd, id), chains[h := [h, f] + chains[h][1..]])
  {
    hide Main;
    ChainExistsIff(cells, chains, h);
    var cells' := Linked(cells, h, f, fd, id);
    var chains' := chains[h := [h, f] + chains[h][1..]];
    forall k | 0 <= k < |chains'| ensures ChainOk(cells', chains'[k], k) {
      if k == h {
        LinkedChain(cells, chains[h], h, f, fd, id);
      } else {
        FrameChain(cells, cells', chains[k], k);
      }
    }
    forall s | 0 <= s < |cells'| && cells'[s].fd >= 0 ensures s in chains'[Main(cells'[s].fd, |cells'|)] {
      if s == f || s == h {
        assert chains'[h][0] == h && chains'[h][1] == f;
      } else if Main(cells[s].fd, |cells|) == h {
        var i :| 0 <= i < |chains[h]| && chains[h][i] == s;
        assert chains'[h][i + 1] == s;
      }
    }
  }

  lemma LinkedChain(cells: seq<Cell>, chain: seq<nat>, h: nat, f: nat, fd: int, id: int)
    requires h < |cells| && f < |cells| && h != f && ChainOk(cells, chain, h) && chain != []
    requires fd >= 0 && Main(fd, |cells|) == h && cells[f].fd < 0
    ensures ChainOk(Linked(cells, h, f, fd, id), [h, f] + chain[1..], h)
  {
    hide Main, NextOn;
    var longer, cells' := [h, f] + chain[1..], Linked(cells, h, f, fd, id);
    forall i | 0 <= i < |longer|
      ensures longer[i] < |cells'| && cells'[longer[i]].fd >= 0 && Main(cells'[longer[i]].fd, |cells'|) == h
      ensures cells'[longer[i]].next == NextOn(longer, i)
    {
      LinkedAt(chain, h, f, i);
      assert cells[chain[0]].next == NextOn(chain, 0);
      if i >= 2 {
        assert cells[chain[i - 1]].next == NextOn(chain, i - 1);
        assert chain[i - 1] != chain[0];
      }
    }
    forall i, j | 0 <= i < j < |longer| ensures longer[i] != longer[j] {
      LinkedAt(chain, h, f, i);
      LinkedAt(chain, h, f, j);
    }
  }

  lemma LinkedAt(chain: seq<nat>, h: nat, f: nat, i: nat)
    requires chain != [] && chain[0] == h && i <= |chain|
    ensures var longer := [h, f] + chain[1..];
      && longer[i] == (if i == 0 then h else if i == 1 then f else chain[i - 1])
      && NextOn(longer, i) == (if i == 0 then f else NextOn(chain, i - 1))
  {
  }

  // ---------- map_erase

  ghost function Freed(c: Cell): Cell { Cell(NULL, c.id, NULL) }

  /** map_erase at position p >= 1 of a chain: the node is bypassed and freed. */
  lemma EraseInner(cells: seq<Cell>, chains: seq<seq<nat>>, h: nat, p: nat)
    requires Threaded(cells, chains) && h < |chains| && 1 <= p < |chains[h]|
    ensures Threaded(Displaced(cells, chains[h][p - 1], chains[h][p], Freed(cells[chains[h][p]])),
                     chains[h := Without(chains[h], p)])
  {
    hide Main, ChainOk, NextOn, Without;
    var n := chains[h][p];
    OnChain(cells, chains[h], h, p);
    OnChain(cells, chains[h], h, p - 1);
    var cells' := Displaced(cells, chains[h][p - 1], n, Freed(cells[n]));
    var chains' := chains[h := Without(chains[h], p)];
    forall k | 0 <= k < |chains'| ensures ChainOk(cells', chains'[k], k) {
      if k == h {
        BypassChain(cells, chains[h], h, p, Freed(cells[n]));
      } else {
        ApartChain(cells, cells', chains[k], k);
      }
    }
    forall s | 0 <= s < |cells'| && cells'[s].fd >= 0 ensures s in chains'[Main(cells'[s].fd, |cells'|)] {
      if Main(cells[s].fd, |cells|) == h {
        MemberOfWithout(chains[h], p, s);
      }
    }
  }

  /** map_erase of a chain's only node. */
  lemma EraseOnly(cells: seq<Cell>, chains: seq<seq<nat>>, h: nat)
    requires Threaded(cells, chains) && h < |chains| && chains[h] == [h]
    ensures Threaded(cells[h := Freed(cells[h])], chains[h := []])
  {
  }

  ghost function HeadRemoved(cells: seq<Cell>, h: nat, n: nat): seq<Cell>
    requires h < |cells| && n < |cells|
  {
    cells[h := cells[n]][n := Cell(NULL, cells[n].id, NULL)]
  }

  /** map_erase of a chain's head: the second node moves into the main slot. */
  lemma EraseHead(cells: seq<Cell>, chains: seq<seq<nat>>, h: nat)
    requires Threaded(cells, chains) && h < |chains| && |chains[h]| >= 2
    ensures chains[h][0] == h && chains[h][1] < |cells|
    ensures Threaded(HeadRemoved(cells, h, chains[h][1]), chains[h := Without(chains[h], 1)])
  {
    hide Main;
    var chain := chains[h];
    assert ChainOk(cells, chain, h);
    var cells', chains' := HeadRemoved(cells, h, chain[1]), chains[h := Without(chain, 1)];
    forall k | 0 <= k < |chains'| ensures ChainOk(cells', chains'[k], k) {
      if k == h {
        HeadRemovedChain(cells, chain, h);
      } else {
        FrameChain(cells, cells', chains[k], k);
      }
    }
    forall s | 0 <= s < |cells'| && cells'[s].fd >= 0 ensures s in chains'[Main(cells'[s].fd, |cells'|)] {
      if s == h {
        assert chains'[h][0] == h;
      } else if Main(cells[s].fd, |cells|) == h {
        MemberOfWithout(chain, 1, s);
      }
    }
  }

  lemma HeadRemovedChain(cells: seq<Cell>, chain: seq<nat>, h: nat)
    requires h < |cells| && ChainOk(cells, chain, h) && |chain| >= 2
    ensures ChainOk(HeadRemoved(cells, h, chain[1]), Without(chain, 1), h)
  {
    hide Main;
    var rest := Without(chain, 1);
    assert cells[chain[1]].next == NextOn(chain, 1);
    forall i | 1 <= i < |rest|
      ensures rest[i] == chain[i + 1] && cells[rest[i]].fd >= 0 && Main(cells[rest[i]].fd, |cells|) == h
      ensures cells[rest[i]].next == NextOn(rest, i)
    {
      assert i + 1 < |rest| ==> rest[i + 1] == chain[i + 2];
      assert cells[chain[i + 1]].next == NextOn(chain, i + 1);
    }
    assert rest[0] == h && cells[chain[1]].fd >= 0 && Main(cells[chain[1]].fd, |cells|) == h;
  }
}
