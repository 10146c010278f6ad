/** struct ringbuffer of win_skynet's ringbuffer.c: a byte arena tiled by headed blocks. */
module RingBuffer {
  import opened Bytes
  import opened Filters
  import opened Arena
  import opened Layout
  import opened Streams
  import opened Wrappers

  datatype ScanResult = Blocked | Fits(total: nat) | Exhausted

  class Ringbuffer {
    const data: array<Byte>
    var head: nat

    ghost var before: seq<nat>
    ghost var after: seq<nat>

    ghost function R(): Ring
      reads this
    {
      Ring(head, before, after)
    }

    ghost predicate Valid()
      reads this, data
    {
      Arranged(data[..], R())
    }

    /** The blocks in use. */
    ghost function Live(): map<nat, Block>
      reads this, data
    {
      LiveBlocks(data[..], R().Circ())
    }

    /** The blocks in use, reading circularly from head. */
    ghost function Order(): seq<nat>
      reads this, data
    {
      LiveStarts(data[..], R().Circ())
    }

    /** b is a block cut for n payload bytes and not owned by anyone yet. */
    ghost predicate Fresh(b: nat, n: nat)
      reads this, data
    {
      Newest(R(), b) && FreshAt(data[..], b, n)
    }

    /** ringbuffer_new */
    constructor (size: nat)
      requires HEADER <= size <= MAX_INT && size % 4 == 0
      ensures Valid() && fresh(data) && data.Length == size
      ensures R() == Ring(0, [], [0]) && Live() == map[] && Order() == []
    {
      hide Arranged, LiveBlocks, LiveStarts, Get, Put, Tiles, Room, Len, LiveAt;
      data := new Byte[size](_ => 0);
      head := 0;
      before, after := [], [0];
      new;
      ghost var m := data[..];
      Store(0, size);
      Store(8, -1);
      assert data[..] == FreeBlock(m, 0, size);
      OneFreeBlock(m, size);
    }

    /** An assignment to one int in the arena. */
    method Store(o: nat, v: int)
      requires o + 4 <= data.Length && IsInt(v)
      modifies data
      ensures data[..] == Put(old(data[..]), o, v)
    {
      var b := IntBytes(v);
      data[o], data[o + 1], data[o + 2], data[o + 3] := b[0], b[1], b[2], b[3];
      assert b == [b[0], b[1], b[2], b[3]];
    }

    /** block_next */
    method BlockNext(s: nat) returns (n: int)
      requires Len(data[..], s) > 0 && s + Room(data[..], s) <= data.Length
      ensures n == if s + Room(data[..], s) == data.Length then NULL else s + Room(data[..], s)
    {
      var room := Align(Len(data[..], s));
      if room + s == data.Length {
        return NULL;
      }
      assert room + s < data.Length;
      n := s + room;
    }

    /** The scan of ringbuffer_alloc: adds up free blocks from head. */
    method Scan(need: nat) returns (res: ScanResult, ghost k: nat)
      requires Valid() && need > 0
      ensures res.Fits? ==> FreeRun(data[..], R(), k, res.total) && need <= res.total
      ensures res.Blocked? ==> k < |after| && AllFree(data[..], after[..k]) && LiveAt(data[..], after[k])
      ensures res.Blocked? ==> after[k] - head < need
      ensures res.Exhausted? ==> AllFree(data[..], after) && data.Length - head < need
    {
      hide Tiles, BlockAt, Room;
      var blk, free := head, 0;
      k := 0;
      ArrangedWhole(data[..], R());
      while true
        invariant k < |after| && blk == after[k] && free == after[k] - head && free < need
        invariant AllFree(data[..], after[..k])
        decreases |after| - k
      {
        if LiveAt(data[..], blk) {
          return Blocked, k;
        }
        TileStep(data[..], after, head, data.Length, k);
        ArrangedMember(data[..], R(), blk);
        assert after[..k + 1] == after[..k] + [blk];
        free := free + Align(Len(data[..], blk));
        RoomIs(data[..], blk);
        if free >= need {
          return Fits(free), k;
        }
        var next := BlockNext(blk);
        if next == NULL {
          assert after[..k + 1] == after by { LastTile(data[..], after, head, data.Length, k); }
          return Exhausted, k;
        }
        NotLastTile(data[..], after, head, data.Length, k);
        blk := next;
        k := k + 1;
      }
    }

    /** _alloc: cuts the block off the front of the free run at head. */
    method Carve(total: nat, size: nat, ghost k: nat) returns (blk: nat)
      requires Valid() && FreeRun(data[..], R(), k, total) && Align(HEADER + size) <= total
      modifies data, `head, `before, `after
      ensures Valid() && Fresh(blk, size)
      ensures Live() == old(Live()) && Order() == old(Order())
      ensures blk == old(head) && head == Wrapped(blk + Align(HEADER + size), data.Length)
    {
      hide Tiles, BlockAt, LiveAt, Get, Put, LiveBlocks, LiveStarts, Newest;
      ghost var m, r := data[..], R();
      CarveKeepsLive(m, r, k, size, total);
      CarveArranged(m, r, k, size, total);
      CarvedFacts(m, r.head, size, total);
      blk := head;
      var room := Align(HEADER + size);
      Store(blk, HEADER + size);
      Store(blk + 4, 0);
      Store(blk + 12, -1);
      Store(blk + 8, -1);
      assert data[..] == NewHeader(m, blk, size);
      NewHeaderFacts(m, blk, size);
      RoomIs(data[..], blk);
      var next := BlockNext(blk);
      if next != NULL {
        head := next;
        if room < total {
          Store(next, total - room);
          if total - room >= HEADER {
            Store(next + 8, -1);
          }
        }
      } else {
        head := 0;
      }
      assert data[..] == Carved(m, blk, size, total);
      before, after := CarvedRing(|m|, r, k, room, total).before, CarvedRing(|m|, r, k, room, total).after;
    }

    /** rb->head = 0 after a scan that met no block in use. */
    method Rewind()
      requires Valid() && AllFree(data[..], after)
      modifies `head, `before, `after
      ensures Valid() && head == 0 && before == [] && after == old(before + after)
      ensures Live() == old(Live()) && Order() == old(Order())
    {
      ArrangedWhole(data[..], R());
      RewindKeepsOrder(data[..], R());
      head := 0;
      before, after := [], before + after;
    }

    /** ringbuffer_alloc: succeeds exactly if there is room from head on or, with everything behind head
        free, from the start on, and the block is put there. */
    method Alloc(size: nat) returns (blk: int)
      requires Valid()
      modifies data, `head, `before, `after
      ensures Valid() && Live() == old(Live()) && Order() == old(Order())
      ensures blk != NULL <==> HasRoom(Live(), old(head), Align(HEADER + size), data.Length)
      ensures blk != NULL ==> blk == PlaceFor(Live(), old(head), Align(HEADER + size), data.Length)
      ensures blk != NULL ==> Fresh(blk, size) && head == Wrapped(blk + Align(HEADER + size), data.Length)
      ensures blk == NULL ==> head == Settled(Live(), old(head))
      ensures blk == NULL ==> Order() != [] || data.Length < Align(HEADER + size)
    {
      hide Tiles, Arranged, BlockAt, LiveAt, LiveBlocks, LiveStarts, FreshAt, Newest, FreeRun, RoomAt, NoneFrom;
      var need := Align(HEADER + size);
      var i := 0;
      while i < 2
        invariant i <= 2 && Valid() && Live() == old(Live()) && Order() == old(Order())
        invariant i == 0 ==> head == old(head)
        invariant i > 0 ==> head == 0 && NoneFrom(Live(), old(head)) && !RoomAt(Live(), old(head), need, data.Length)
        invariant i == 2 ==> data.Length < need
      {
        var res, k := Scan(need);
        match res {
          case Blocked =>
            BlockedNoRoom(data[..], R(), k, need);
            InUse(data[..], R(), k);
            return NULL;
          case Fits(total) =>
            RunIsRoom(data[..], R(), k, total, need);
            blk := Carve(total, size, k);
            return;
          case Exhausted =>
            NoneFromHead(data[..], R());
            TooLittleRoom(Live(), head, need, data.Length);
            Rewind();
        }
        i := i + 1;
      }
      TooLittleRoom(Live(), 0, need, data.Length);
      blk := NULL;
    }

    // ---------- eviction

    /** The scan of _last_id: the first block in use from head to the end. */
    method FindLive() returns (blk: int, ghost k: nat)
      requires Valid()
      ensures blk != NULL ==>
        k < |after| && after[k] == blk && AllFree(data[..], after[..k]) && LiveAt(data[..], after[k])
      ensures blk == NULL ==> AllFree(data[..], after)
    {
      hide Tiles, BlockAt, Room;
      k := 0;
      blk := head;
      ArrangedWhole(data[..], R());
      while true
        invariant k < |after| && blk == after[k] && AllFree(data[..], after[..k])
        decreases |after| - k
      {
        if LiveAt(data[..], blk) {
          return;
        }
        TileStep(data[..], after, head, data.Length, k);
        ArrangedMember(data[..], R(), blk);
        assert after[..k + 1] == after[..k] + [blk];
        var next := BlockNext(blk);
        if next == NULL {
          assert after[..k + 1] == after by { LastTile(data[..], after, head, data.Length, k); }
          return NULL, k;
        }
        NotLastTile(data[..], after, head, data.Length, k);
        blk := next;
        k := k + 1;
      }
    }

    /** _last_id: the owner of the oldest block in use. */
    method LastId() returns (id: int)
      requires Valid()
      modifies `head, `before, `after
      ensures Valid() && Live() == old(Live()) && Order() == old(Order())
      ensures head == Settled(Live(), old(head))
      ensures Order() == [] ==> id == -1
      ensures Order() != [] ==> Order()[0] in Live() && id == Live()[Order()[0]].id >= 0
    {
      hide Arranged, LiveBlocks, LiveStarts, LiveAt, Get, NoneFrom, RoomAt;
      var i := 0;
      while i < 2
        invariant i <= 2 && Valid() && Live() == old(Live()) && Order() == old(Order())
        invariant i == 0 ==> head == old(head)
        invariant i > 0 ==> before == [] && head == 0 && NoneFrom(Live(), old(head))
        invariant i == 2 ==> AllFree(data[..], R().Circ())
      {
        var blk, k := FindLive();
        if blk != NULL {
          FirstLive(data[..], R(), k);
          BehindHead(data[..], R(), k);
          OrderIsLive(data[..], R().Circ(), blk);
          return Id(data[..], blk);
        }
        RewoundCirc(R());
        NoneFromHead(data[..], R());
        Rewind();
        i := i + 1;
      }
      NoneLive(data[..], R());
      id := -1;
    }

    /** ringbuffer_collect: evicts the owner of the oldest block in use, and nobody else. */
    method Collect() returns (id: int)
      requires Valid()
      modifies data, `head, `before, `after
      ensures Valid()
      ensures old(Order()) == [] ==> id == -1
      ensures old(Order()) != [] ==>
        old(Order())[0] in old(Live()) && id == old(Live())[old(Order())[0]].id >= 0
      ensures Live() == NotOwnedBy(old(Live()), id)
      ensures Order() == Filter(old(Order()), OwnerIsNot(old(Live()), id))
      ensures head == Settled(old(Live()), old(head))
    {
      hide Arranged, LiveBlocks, LiveStarts, LiveAt, Get, NotOwnedBy, Filter, NoneFrom;
      id := LastId();
      Sweep(id);
    }

    /** The loop of ringbuffer_collect over the whole arena. */
    method Sweep(id: int)
      requires Valid()
      modifies data
      ensures Valid()
      ensures Live() == NotOwnedBy(old(Live()), id)
      ensures Order() == Filter(old(Order()), OwnerIsNot(old(Live()), id))
    {
      hide Arranged, LiveBlocks, LiveStarts, LiveAt, Get, Tiles, Room, BlockAt, Put, Swept, Filter, NotOwnedBy;
      ghost var m, whole := data[..], before + after;
      var blk: int := 0;
      ghost var k := 0;
      WholeStartsAtZero(m, R());
      SweptNone(m, whole, id);
      while blk != NULL
        invariant blk != NULL ==> k < |whole| && blk == whole[k]
        invariant blk == NULL ==> k == |whole|
        invariant Arranged(data[..], R()) && whole == before + after
        invariant Swept(m, data[..], whole, k, id)
        decreases |whole| - k
      {
        ghost var m1 := data[..];
        assert blk in R().Circ();
        if Len(data[..], blk) >= HEADER && Id(data[..], blk) == id {
          WordRewritten(m1, R(), blk, 8, -1);
          Store(blk + 8, -1);
          LiveIff(data[..], blk);
        }
        SweepStep(m, m1, data[..], R(), k, id);
        NextInWhole(data[..], R(), k);
        blk := BlockNext(blk);
        k := k + 1;
      }
      SweptAll(m, data[..], R(), id);
    }

    // ---------- assignments to a block's header

    /** The payload of a block, whoever owns it. */
    ghost function Body(b: nat): seq<Byte>
      reads data
    {
      BlockAt(data[..], b).body
    }

    /** blk->id = id, for a block nobody owns yet or one in use. */
    method Own(b: nat, id: nat, ghost n: nat)
      requires Valid() && (b !in Live() ==> Fresh(b, n)) && id <= MAX_INT
      modifies data
      ensures Valid()
      ensures b in old(Live()) ==>
        Live() == old(Live())[b := old(Live())[b].(id := id)] && Order() == old(Order())
      ensures b !in old(Live()) ==>
        Live() == old(Live())[b := Block(id, -1, 0, old(Body(b)))] && Order() == old(Order()) + [b]
    {
      hide Arranged, LiveBlocks, LiveStarts, Put, LiveAt, BlockAt, FreshAt, Len, Newest;
      ghost var m := data[..];
      if b in LiveBlocks(m, R().Circ()) {
        LiveMember(m, R().Circ(), b);
      } else {
        NewestMember(m, R(), b);
        FreshIff(m, b, n);
      }
      WordRewritten(m, R(), b, 8, id);
      Store(b + 8, id);
      LiveIff(m, b);
      LiveIff(data[..], b);
      if b in LiveBlocks(m, R().Circ()) {
        StaysInOrder(m, data[..], R().Circ(), b);
      } else {
        NewestJoins(m, data[..], R(), b);
      }
    }

    /** An assignment to the offset or next of a block in use. */
    method SetWord(b: nat, w: nat, v: int)
      requires Valid() && b in Live() && w in {4, 12} && IsInt(v)
      modifies data
      ensures Valid() && Order() == old(Order())
      ensures w == 4 ==> Live() == old(Live())[b := old(Live())[b].(offset := v)]
      ensures w == 12 ==> Live() == old(Live())[b := old(Live())[b].(next := v)]
    {
      hide Arranged, LiveBlocks, LiveStarts, Put, LiveAt, BlockAt, Len;
      ghost var m := data[..];
      LiveMember(m, R().Circ(), b);
      WordRewritten(m, R(), b, w, v);
      Store(b + w, v);
      LiveIff(m, b);
      LiveIff(data[..], b);
      StaysInOrder(m, data[..], R().Circ(), b);
    }

    /** blk->id = -1 for a block in use. */
    method Disown(b: nat)
      requires Valid() && b in Live()
      modifies data
      ensures Valid()
      ensures Live() == old(Live()) - {b}
      ensures Order() == Filter(old(Order()), NotAmong([b]))
      ensures NextOf(b) == old(Live())[b].next
    {
      hide Arranged, LiveBlocks, LiveStarts, Put, LiveAt, BlockAt, Len;
      ghost var m := data[..];
      LiveMember(m, R().Circ(), b);
      WordRewritten(m, R(), b, 8, -1);
      Store(b + 8, -1);
      LiveIff(data[..], b);
      NextIs(data[..], b);
      LeavesOrder(m, data[..], R().Circ(), b);
      FilterCongruent(LiveStarts(m, R().Circ()), (t: nat) => t != b, NotAmong([b]));
    }

    // ---------- payload bytes

    /** memcpy and recv: bytes written at an address. */
    method Write(at: nat, bytes: seq<Byte>)
      requires at + |bytes| <= data.Length
      modifies data
      ensures data[..] == Patch(old(data[..]), at, bytes)
    {
      var i := 0;
      while i < |bytes|
        invariant i <= |bytes|
        invariant forall j :: 0 <= j < data.Length ==>
          data[j] == if at <= j < at + i then bytes[j - at] else old(data[j])
      {
        data[at + i] := bytes[i];
        i := i + 1;
      }
    }

    /** recv into a block nobody owns yet. */
    method Receive(b: nat, bytes: seq<Byte>, ghost n: nat)
      requires Valid() && Fresh(b, n) && |bytes| <= n
      modifies data
      ensures Valid() && Fresh(b, n) && Live() == old(Live()) && Order() == old(Order())
      ensures |Body(b)| == n && Take(Body(b), |bytes|) == bytes
    {
      hide Arranged, LiveBlocks, LiveStarts, LiveAt, BlockAt, FreshAt, Len, Patch;
      ghost var m := data[..];
      NewestMember(m, R(), b);
      FreshIff(m, b, n);
      PayloadRewritten(m, R(), b, 0, bytes);
      Write(b + HEADER, bytes);
      FreshIff(data[..], b, n);
      LiveIff(m, b);
      LiveIff(data[..], b);
      UnownedKeepsLive(m, data[..], R().Circ(), b);
      PatchPrefix(BlockAt(m, b).body, bytes);
    }

    /** memcpy into a block in use. */
    method Fill(b: nat, off: nat, bytes: seq<Byte>)
      requires Valid() && b in Live() && off + |bytes| <= |Live()[b].body|
      modifies data
      ensures Valid() && Order() == old(Order())
      ensures Live() == old(Live())[b := old(Live())[b].(body := Patch(old(Live())[b].body, off, bytes))]
    {
      hide Arranged, LiveBlocks, LiveStarts, LiveAt, BlockAt, Len, Patch;
      ghost var m := data[..];
      LiveMember(m, R().Circ(), b);
      BlockFits(m, R(), b);
      PayloadRewritten(m, R(), b, off, bytes);
      Write(b + HEADER + off, bytes);
      LiveIff(m, b);
      LiveIff(data[..], b);
      StaysInOrder(m, data[..], R().Circ(), b);
    }

    /** ringbuffer_shrink, right after the allocation it undoes in part or in full. */
    method Shrink(b: nat, size: nat, ghost n: nat)
      requires Valid() && Fresh(b, n) && size <= n
      modifies data, `head, `before, `after
      ensures Valid() && Live() == old(Live()) && Order() == old(Order())
      ensures size == 0 ==> head == b && data[..] == old(data[..])
      ensures size > 0 ==> Fresh(b, size) && Body(b) == Take(old(Body(b)), size)
      ensures size > 0 ==>
        head == if Align(HEADER + size) < Align(HEADER + n) then b + Align(HEADER + size) else old(head)
    {
      hide Arranged, Tiles, LiveBlocks, LiveStarts, LiveAt, BlockAt, FreshAt, Len, Room, Put, FreeBlock;
      ghost var m, r := data[..], R();
      ghost var pre, rest := SplitNewest(m, r, b);
      FreshIff(m, b, n);
      LiveIff(m, b);
      if size == 0 {
        UndoNewest(m, r, b, pre, rest);
        head := b;
        before, after := pre, [b] + rest;
        return;
      }
      ShrinkTo(b, size, n, pre, rest);
    }

    method ShrinkTo(b: nat, size: nat, ghost n: nat, ghost pre: seq<nat>, ghost rest: seq<nat>)
      requires Valid() && Fresh(b, n) && 0 < size <= n
      requires R().Circ() == rest + (pre + [b]) && Tiles(data[..], pre, 0, b)
      requires Tiles(data[..], rest, b + Room(data[..], b), data.Length)
      modifies data, `head, `before, `after
      ensures Valid() && Live() == old(Live()) && Order() == old(Order())
      ensures Fresh(b, size) && Body(b) == Take(old(Body(b)), size)
      ensures head == if Align(HEADER + size) < Align(HEADER + n) then b + Align(HEADER + size) else old(head)
    {
      hide Arranged, Tiles, LiveBlocks, LiveStarts, LiveAt, BlockAt, FreshAt, Get, Room, Put, Take;
      ghost var m, r := data[..], R();
      ShrunkBlock(m, r, b, size, n);
      var room := Align(HEADER + size);
      var oldRoom := Align(Len(data[..], b));
      assert room <= oldRoom;
      Store(b, HEADER + size);
      if room != oldRoom {
        ShrinkArranged(m, Shrunk(m, b, size), r, b, room, pre, rest);
        ShrinkStep(m, b, HEADER + size);
        var next := BlockNext(b);
        Store(next, oldRoom - room);
        if oldRoom - room >= HEADER {
          Store(next + 8, -1);
        }
        head := next;
        before, after := pre + [b], [next] + rest;
      } else {
        assert data[..] == Shrunk(m, b, size);
        RewriteArranged(m, data[..], r, b);
        UnownedKeepsLive(m, data[..], r.Circ(), b);
      }
      assert data[..] == Shrunk(m, b, size);
    }

    // ---------- chains

    /** ringbuffer_link: `next` becomes the last block of the chain that starts at `first`. It is
        either a block nobody owns yet, or one of the same owner. */
    method Link(first: nat, next: nat, ghost chain: seq<nat>, ghost id: nat, ghost n: nat)
      requires Valid() && IsChain(Live(), chain, id) && chain != [] && chain[0] == first && next !in chain
      requires next !in Live() ==> Fresh(next, n)
      modifies data
      ensures Valid() && chain[|chain| - 1] in old(Live())
      ensures next in old(Live()) ==>
        Live() == Linked(old(Live()), chain, next, old(Live())[next].(id := id)) && Order() == old(Order())
      ensures next !in old(Live()) ==>
        && Live() == Linked(old(Live()), chain, next, Block(id, -1, 0, old(Body(next))))
        && Order() == old(Order()) + [next]
    {
      hide Arranged, LiveBlocks, LiveStarts, BlockAt, LiveAt, FreshAt, Get;
      ghost var m, live, i := data[..], Live(), 0;
      var head := first;
      while Next(data[..], head) >= 0
        invariant data[..] == m && i < |chain| && head == chain[i] && head in live
        decreases |chain| - i
      {
        LiveWords(data[..], R().Circ(), head);
        head := Next(data[..], head);
        i := i + 1;
      }
      LiveWords(data[..], R().Circ(), head);
      assert i == |chain| - 1;
      var owner := Id(data[..], head);
      BlockInRange(data[..], R(), next);
      Own(next, owner, n);
      SetWord(head, 12, next);
    }

    /** ringbuffer_free: gives up every block of a chain. */
    method Free(b: int, ghost chain: seq<nat>, ghost id: nat)
      requires Valid() && IsChain(Live(), chain, id)
      requires if chain == [] then b == NULL else b == chain[0]
      modifies data
      ensures Valid()
      ensures Live() == old(Live()) - Members(chain)
      ensures Order() == Filter(old(Order()), NotAmong(chain))
    {
      hide Arranged, LiveBlocks, LiveStarts, LiveAt, BlockAt, Get, Filter, IsChain, NotAmong, Members;
      if b == NULL {
        NoMembers();
        EverythingStays(Order());
        return;
      }
      ghost var live := Live();
      var blk: nat := b;
      NotYetFreed(live, chain, id, 0);
      NoMembers();
      Disown(blk);
      ghost var i := 1;
      MembersUpTo(chain, 0);
      assert chain[..1] == [chain[0]];
      while NextOf(blk) >= 0
        invariant 1 <= i <= |chain| && blk == chain[i - 1] && Valid()
        invariant NextOf(blk) == NextOn(chain, i - 1)
        invariant Live() == live - Members(chain[..i])
        invariant Order() == Filter(old(Order()), NotAmong(chain[..i]))
        decreases |chain| - i
      {
        blk := NextOf(blk);
        NotYetFreed(live, chain, id, i);
        Disown(blk);
        FreeOneMore(old(Order()), chain, i);
        MembersUpTo(chain, i);
        i := i + 1;
      }
      assert i == |chain| && chain[..i] == chain;
    }

    /** The n bytes at ptr are payload of block b. */
    ghost predicate Holds(b: nat, ptr: int, n: nat)
      reads this, data
    {
      b in Live() && b + HEADER <= ptr && ptr + n <= b + HEADER + |Live()[b].body|
    }

    /** ringbuffer_data: how many of `size` bytes are there after `skip`, and where they are if one
        block holds them all. */
    method Data(b: nat, size: nat, skip: nat, ghost chain: seq<nat>, ghost id: nat) returns (ret: nat,
                ptr: int, ghost at: nat)
      requires Valid() && IsChain(Live(), chain, id) && chain != [] && chain[0] == b
      requires skip <= |TextOf(Live(), chain)|
      ensures ptr != NULL ==> at in chain && Holds(at, ptr, size)
      ensures ptr != NULL <==> InOneBlock(Live(), chain, skip, size)
      ensures ret == Min(size, |TextOf(Live(), chain)| - skip)
      ensures ptr != NULL ==> ret == size && 0 <= ptr <= ptr + size <= data.Length
      ensures ptr != NULL ==> data[ptr..ptr + size] == TextOf(Live(), chain)[skip..skip + size]
    {
      hide Arranged, LiveBlocks, LiveAt, Get, Text, Unread, IsChain;
      ghost var live, text, i := Live(), TextOf(Live(), chain), 0;
      var blk, left := b, skip;
      ChainBlock(data[..], R(), chain, id, 0);
      TextParts(live, chain, id, 0);
      var length := Len(data[..], blk) - HEADER - Offset(data[..], blk);
      while true
        invariant i < |chain| && blk == chain[i] && blk in live && 0 <= left <= skip
        invariant length == |Unread(live[blk])|
        invariant skip - left == |TextOf(live, chain[..i])|
        decreases |chain| - i
      {
        ChainBlock(data[..], R(), chain, id, i);
        TextParts(live, chain, id, i);
        if length > left {
          if length - left >= size {
            ptr := blk + HEADER + Offset(data[..], blk) + left;
            UnreadBytes(data[..], R(), blk, left, size);
            SliceWithin(text, |TextOf(live, chain[..i])|, |TextOf(live, chain[..i + 1])|, left, size);
            assert data[ptr..ptr + size] == data[..][ptr..ptr + size];
            HeldBy(data[..], R(), blk, ptr, size);
            assert FitsIn(live, chain, i, skip, size);
            return size, ptr, blk;
          }
          ret := Gather(blk, length - left, size, chain, id, i, left);
          SpansBlocks(live, chain, id, i, skip, size);
          return ret, NULL, blk;
        }
        if Next(data[..], blk) < 0 {
          assert length == left;
          NothingLeft(live, chain, id, skip, size);
          return 0, NULL, blk;
        }
        blk := Next(data[..], blk);
        ChainBlock(data[..], R(), chain, id, i + 1);
        assert Offset(data[..], blk) == 0;
        left := left - length;
        length := Len(data[..], blk) - HEADER;
        i := i + 1;
      }
    }

    /** The counting loop of ringbuffer_data once the bytes are known to span blocks. */
    method Gather(from: nat, first: nat, size: nat, ghost chain: seq<nat>, ghost id: nat, ghost at: nat,
                  ghost left: nat)
      returns (ret: nat)
      requires Valid() && IsChain(Live(), chain, id) && at < |chain| && chain[at] == from && from in Live()
      requires first + left == |Unread(Live()[from])| && first < size
      ensures ret == Min(size, |TextOf(Live(), chain)| - |TextOf(Live(), chain[..at])| - left)
    {
      hide Arranged, LiveBlocks, LiveAt, Get, Text, Unread, IsChain;
      ghost var live, i := Live(), at;
      var blk := from;
      ret := first;
      TextParts(live, chain, id, at);
      ChainBlock(data[..], R(), chain, id, at);
      while Next(data[..], blk) >= 0
        invariant i < |chain| && blk == chain[i] && at <= i && ret < size
        invariant Next(data[..], blk) == NextOn(chain, i)
        invariant ret == |TextOf(live, chain[..i + 1])| - |TextOf(live, chain[..at])| - left
        decreases |chain| - i
      {
        blk := Next(data[..], blk);
        i := i + 1;
        ChainBlock(data[..], R(), chain, id, i);
        TextParts(live, chain, id, i);
        ret := ret + (Len(data[..], blk) - HEADER);
        if ret >= size {
          return size;
        }
      }
      assert chain[..i + 1] == chain;
    }

    /** ringbuffer_copy: gathers the bytes after `skip` into the payload of block `to`. */
    method Copy(from: nat, skip: nat, to: nat, ghost chain: seq<nat>, ghost id: nat) returns (ptr: nat)
      requires Valid() && IsChain(Live(), chain, id) && chain != [] && chain[0] == from
      requires to in Live() && to !in chain
      requires skip < |TextOf(Live(), chain)| && skip + |Live()[to].body| <= |TextOf(Live(), chain)|
      modifies data
      ensures Valid() && Order() == old(Order())
      ensures Live() == old(Live())[to := old(Live())[to].(id := id,
                          body := TextOf(old(Live()), chain)[skip..skip + |old(Live())[to].body|])]
      ensures ptr == to + HEADER && ptr + |old(Live())[to].body| <= data.Length
      ensures data[ptr..ptr + |old(Live())[to].body|]
           == TextOf(old(Live()), chain)[skip..skip + |old(Live())[to].body|]
    {
      hide Arranged, LiveBlocks, LiveStarts, LiveAt, BlockAt, Get, Text, Unread, IsChain;
      ghost var live, text, i := Live(), TextOf(Live(), chain), 0;
      BodyLength(data[..], R(), to);
      var size := Len(data[..], to) - HEADER;
      var blk, left := from, skip;
      ChainBlock(data[..], R(), chain, id, 0);
      TextParts(live, chain, id, 0);
      var length := Len(data[..], blk) - HEADER - Offset(data[..], blk);
      while length <= left
        invariant data[..] == old(data[..]) && i < |chain| && blk == chain[i] && blk in live && 0 <= left <= skip
        invariant length == |Unread(live[blk])|
        invariant skip - left == |TextOf(live, chain[..i])|
        decreases |chain| - i
      {
        ChainBlock(data[..], R(), chain, id, i);
        TextParts(live, chain, id, i);
        assert Next(data[..], blk) >= 0;
        blk := Next(data[..], blk);
        ChainBlock(data[..], R(), chain, id, i + 1);
        assert Offset(data[..], blk) == 0;
        left := left - length;
        length := Len(data[..], blk) - HEADER;
        i := i + 1;
      }
      CopyRest(blk, left, size, to, chain, id, i, skip);
      ptr := to + HEADER;
    }

    /** The copying half of ringbuffer_copy, from `left` bytes into the i-th block on. */
    method CopyRest(from: nat, left: nat, total: nat, to: nat, ghost chain: seq<nat>, ghost id: nat,
                    ghost at: nat, ghost skip: nat)
      requires Valid() && IsChain(Live(), chain, id) && at < |chain| && chain[at] == from && from in Live()
      requires to in Live() && to !in chain && total == |Live()[to].body|
      requires left < |Unread(Live()[from])| && skip == |TextOf(Live(), chain[..at])| + left
      requires skip + total <= |TextOf(Live(), chain)|
      modifies data
      ensures Valid() && Order() == old(Order())
      ensures Live() == old(Live())[to := old(Live())[to].(id := id,
                          body := TextOf(old(Live()), chain)[skip..skip + total])]
      ensures to + HEADER + total <= data.Length
      ensures data[to + HEADER..to + HEADER + total] == TextOf(old(Live()), chain)[skip..skip + total]
    {
      hide Arranged, LiveBlocks, LiveStarts, LiveAt, BlockAt, Get, Text, TextOf, Unread, IsChain, Patch,
           NextOn, Len, Offset, Next;
      ghost var live, text, i := Live(), TextOf(Live(), chain), at;
      ghost var body := live[to].body;
      var blk, size, off := from, total, 0;
      ChainBlock(data[..], R(), chain, id, at);
      TextParts(live, chain, id, at);
      ghost var k := left;
      var src := blk + HEADER + Offset(data[..], blk) + left;
      var length := Len(data[..], blk) - HEADER - Offset(data[..], blk) - left;
      EmptyPrefix(body, text, skip);
      while length < size
        invariant Valid() && Order() == old(Order())
        invariant Live() == live[to := live[to].(body := body)] && |body| == total
        invariant 0 <= off <= off + size == total && Take(body, off) == Slice(text, skip, off)
        invariant i < |chain| && blk == chain[i] && blk in live && 0 <= length
        invariant 0 <= k <= k + length == |Unread(live[blk])| && 0 <= src == blk + HEADER + Offset(data[..], blk) + k
        invariant skip + off == |TextOf(live, chain[..i])| + k
        decreases |chain| - i
      {
        TextParts(live, chain, id, i);
        body := CopyBlock(src, length, to, off, live, body, chain, id, i, k, skip);
        OtherBlocksKept(live, to, body, chain, id);
        ChainBlock(data[..], R(), chain, id, i);
        NextOnIs(chain, i);
        assert Next(data[..], blk) >= 0;
        i := i + 1;
        blk := Next(data[..], blk);
        ChainBlock(data[..], R(), chain, id, i);
        assert Offset(data[..], blk) == 0;
        off, size, k := off + length, size - length, 0;
        length := Len(data[..], blk) - HEADER;
        src := blk + HEADER;
      }
      TextParts(live, chain, id, i);
      body := CopyBlock(src, size, to, off, live, body, chain, id, i, k, skip);
      assert Take(body, total) == body;
      OtherBlocksKept(live, to, body, chain, id);
      OwnerOf(live, chain, id, i);
      LiveWords(data[..], R().Circ(), blk);
      Own(to, Id(data[..], blk), 0);
      BodyBytes(data[..], R(), to);
      assert data[to + HEADER..to + HEADER + total] == data[..][to + HEADER..to + HEADER + total];
    }

    /** One memcpy of ringbuffer_copy: n bytes of the i-th block, from k on. */
    method CopyBlock(src: nat, n: nat, to: nat, off: nat, ghost live: Blocks, ghost body: seq<Byte>,
                     ghost chain: seq<nat>, ghost id: nat, ghost i: nat, ghost k: nat, ghost skip: nat)
      returns (ghost body': seq<Byte>)
      requires Valid() && IsChain(live, chain, id) && i < |chain| && to in live && to !in chain
      requires Live() == live[to := live[to].(body := body)]
      requires chain[i] in live && k + n <= |Unread(live[chain[i]])|
      requires src == chain[i] + HEADER + Offset(data[..], chain[i]) + k
      requires skip + off == |TextOf(live, chain[..i])| + k && off + n <= |body|
      requires Take(body, off) == Slice(TextOf(live, chain), skip, off)
      modifies data
      ensures Valid() && Order() == old(Order()) && |body'| == |body|
      ensures Live() == live[to := live[to].(body := body')]
      ensures Take(body', off + n) == Slice(TextOf(live, chain), skip, off + n)
    {
      hide Arranged, LiveBlocks, LiveStarts, LiveAt, BlockAt, Get, Text, Unread, IsChain, Patch, Offset, Slice, Take;
      CopyPiece(data[..], R(), live, to, chain, id, i, k, n);
      var bytes := data[src..src + n];
      assert bytes == data[..][src..src + n];
      Fill(to, off, bytes);
      PatchExtends(body, off, bytes, TextOf(live, chain), skip);
      body' := Patch(body, off, bytes);
    }

    /** blk->offset += skip */
    method AdvanceInto(blk: nat, left: nat, ghost live: Blocks, ghost chain: seq<nat>, ghost id: nat, ghost i: nat)
      requires Valid() && IsChain(live, chain, id) && i < |chain| && blk == chain[i] && blk in live
      requires Live() == live - Members(chain[..i]) && left < |Unread(live[blk])|
      modifies data
      ensures Valid() && Live() == Dropped(live, chain, i, left) && Order() == old(Order())
    {
      hide Arranged, LiveBlocks, LiveStarts, LiveAt, BlockAt, Get, Text, Unread, IsChain, Members, NextOn;
      NotYetFreed(live, chain, id, i);
      StoredOffset(data[..], R(), live, chain, id, i);
      SetWord(blk, 4, Offset(data[..], blk) + left);
      assert Live() == Dropped(live, chain, i, left);
    }

    /** ringbuffer_yield: gives up whole blocks while they fit in `skip`, then advances into the
        next one. `i` is how many blocks went. */
    method Yield(b: nat, skip: nat, ghost chain: seq<nat>, ghost id: nat) returns (n: int, ghost i: nat)
      requires Valid() && IsChain(Live(), chain, id) && chain != [] && chain[0] == b
      requires skip <= |TextOf(Live(), chain)|
      modifies data
      ensures Valid() && i <= |chain|
      ensures n == if i < |chain| then chain[i] else NULL
      ensures IsChain(Live(), chain[i..], id)
      ensures TextOf(Live(), chain[i..]) == TextOf(old(Live()), chain)[skip..]
      ensures i < |chain| ==> chain[i] in Live() && Unread(Live()[chain[i]]) != []
      ensures Live().Keys == old(Live()).Keys - Members(chain[..i])
      ensures forall s :: s in Live() && s != n ==> Live()[s] == old(Live())[s]
      ensures Order() == Filter(old(Order()), NotAmong(chain[..i]))
    {
      hide Arranged, LiveBlocks, LiveStarts, LiveAt, BlockAt, Get, Text, Unread, IsChain, NotAmong, Members,
           Filter, NextOn, Dropped, TextOf;
      ghost var live, text, order := Live(), TextOf(Live(), chain), Order();
      i := 0;
      var blk, left := b, skip;
      ChainBlock(data[..], R(), chain, id, 0);
      TextParts(live, chain, id, 0);
      var length := Len(data[..], blk) - HEADER - Offset(data[..], blk);
      NoneDropped(live, order, chain);
      while true
        invariant Valid() && i < |chain| && blk == chain[i] && 0 <= left <= skip
        invariant blk in live && length == |Unread(live[blk])|
        invariant Live() == live - Members(chain[..i])
        invariant Order() == Filter(order, NotAmong(chain[..i]))
        invariant skip - left == |TextOf(live, chain[..i])|
        decreases |chain| - i
      {
        NotYetFreed(live, chain, id, i);
        TextParts(live, chain, id, i);
        if length > left {
          AdvanceInto(blk, left, live, chain, id, i);
          Landed(live, chain, id, i, left, skip);
          return blk, i;
        }
        Disown(blk);
        FreeOneMore(order, chain, i);
        MembersUpTo(chain, i);
        NextOnIs(chain, i);
        if NextOf(blk) < 0 {
          i := i + 1;
          AllDropped(live, Live(), chain, id, i);
          return NULL, i;
        }
        blk := NextOf(blk);
        i := i + 1;
        StoredOffset(data[..], R(), live, chain, id, i);
        assert Offset(data[..], blk) == 0;
        left := left - length;
        length := Len(data[..], blk) - HEADER;
      }
    }

    function NextOf(b: nat): int
      reads data
    {
      Next(data[..], b)
    }

  }

  lemma ShrinkStep(m: seq<Byte>, b: nat, len: nat)
    requires b + 4 <= |m| && 0 < len <= MAX_INT
    ensures Len(Put(m, b, len), b) == len && Room(Put(m, b, len), b) == Align(len)
  {
    hide Get, Put;
    PutGet(m, b, len);
  }

  /** What ShrinkTo leaves in memory for the shortened block. */
  lemma ShrunkBlock(m: seq<Byte>, r: Ring, b: nat, size: nat, n: nat)
    requires Arranged(m, r) && Newest(r, b) && FreshAt(m, b, n) && 0 < size <= n
    ensures b in r.Circ() && Len(m, b) == HEADER + n && b % 4 == 0 && !LiveAt(m, b)
    ensures Align(HEADER + size) <= Room(m, b) == Align(Len(m, b)) && b + Room(m, b) <= |m| <= MAX_INT
    ensures var m' := Shrunk(m, b, size);
      && FreshAt(m', b, size) && BlockAt(m', b).body == Take(BlockAt(m, b).body, size) && !LiveAt(m', b)
      && SameOutside(m, m', b, b + Room(m, b))
      && Tiles(m', CutStarts(b, Align(HEADER + size), Room(m, b)), b, b + Room(m, b))
      && AllFree(m', CutStarts(b, Align(HEADER + size), Room(m, b)))
      && Len(m', b) > 0 && Room(m', b) == Align(HEADER + size)
  {
    hide Get, Tiles, Shrunk, LiveAt;
    NewestMember(m, r, b);
    BlockFits(m, r, b);
    FreshUnowned(m, b, n);
    RoomIs(m, b);
    AlignMonotone(HEADER + size, HEADER + n);
    ShrunkFacts(m, b, size, n);
    FreshUnowned(Shrunk(m, b, size), b, size);
    ShrunkBody(m, Shrunk(m, b, size), b, size, n);
  }

  lemma ShrunkBody(m: seq<Byte>, m': seq<Byte>, b: nat, size: nat, n: nat)
    requires FreshAt(m, b, n) && FreshAt(m', b, size) && size <= n && b + HEADER + n <= |m| == |m'|
    requires m'[b + HEADER..b + HEADER + size] == m[b + HEADER..b + HEADER + size]
    ensures BlockAt(m', b).body == Take(BlockAt(m, b).body, size)
  {
    hide Get;
    assert m[b + HEADER..b + HEADER + n][..size] == m[b + HEADER..b + HEADER + size];
  }

  function Min(a: int, b: int): int { if a < b then a else b }

  /** The text of a chain, for chains not yet known to be in use. */
  ghost function TextOf(live: Blocks, chain: seq<nat>): seq<Byte> {
    if forall s :: s in chain ==> s in live then Text(live, chain) else []
  }

  /** How long the text is up to and including block i. */
  lemma TextParts(live: Blocks, chain: seq<nat>, id: nat, i: nat)
    requires IsChain(live, chain, id) && i < |chain|
    ensures chain[i] in live
    ensures |TextOf(live, chain[..i + 1])| == |TextOf(live, chain[..i])| + |Unread(live[chain[i]])|
    ensures |TextOf(live, chain[..i + 1])| <= |TextOf(live, chain)|
    ensures TextOf(live, chain)[|TextOf(live, chain[..i])|..|TextOf(live, chain[..i + 1])|] == Unread(live[chain[i]])
    ensures i + 1 == |chain| ==> |TextOf(live, chain[..i + 1])| == |TextOf(live, chain)|
    ensures |TextOf(live, chain[..0])| == 0
  {
    hide Unread;
    ChainMembers(live, chain, id);
    TextAt(live, chain, id, i);
    if i + 1 == |chain| {
      assert chain[..i + 1] == chain;
    }
  }

  /** The n bytes after skip, and at least the first of them, lie in the i-th block. */
  ghost predicate FitsIn(live: Blocks, chain: seq<nat>, i: nat, skip: nat, n: nat)
    requires i < |chain|
  {
    && |TextOf(live, chain[..i])| <= skip < |TextOf(live, chain[..i + 1])|
    && skip + n <= |TextOf(live, chain[..i + 1])|
  }

  ghost predicate InOneBlock(live: Blocks, chain: seq<nat>, skip: nat, n: nat) {
    exists i :: 0 <= i < |chain| && FitsIn(live, chain, i, skip, n)
  }

  lemma {:induction false} PrefixGrows(live: Blocks, chain: seq<nat>, id: nat, i: nat, j: nat)
    requires IsChain(live, chain, id) && i <= j <= |chain|
    ensures |TextOf(live, chain[..i])| <= |TextOf(live, chain[..j])| <= |TextOf(live, chain)|
    decreases j - i
  {
    hide TextOf, IsChain;
    if j < |chain| {
      TextParts(live, chain, id, j);
    } else {
      assert chain[..j] == chain;
    }
    if i < j {
      TextParts(live, chain, id, j - 1);
      PrefixGrows(live, chain, id, i, j - 1);
    }
  }

  lemma SpansBlocks(live: Blocks, chain: seq<nat>, id: nat, i: nat, skip: nat, n: nat)
    requires IsChain(live, chain, id) && i < |chain|
    requires |TextOf(live, chain[..i])| <= skip < |TextOf(live, chain[..i + 1])| < skip + n
    ensures !InOneBlock(live, chain, skip, n)
  {
    hide TextOf, IsChain;
    forall j | 0 <= j < |chain| ensures !FitsIn(live, chain, j, skip, n) {
      if j < i {
        PrefixGrows(live, chain, id, j + 1, i);
      } else if i < j {
        PrefixGrows(live, chain, id, i + 1, j);
      }
    }
  }

  lemma NothingLeft(live: Blocks, chain: seq<nat>, id: nat, skip: nat, n: nat)
    requires IsChain(live, chain, id) && skip == |TextOf(live, chain)|
    ensures !InOneBlock(live, chain, skip, n)
  {
    hide TextOf, IsChain;
    forall j | 0 <= j < |chain| ensures !FitsIn(live, chain, j, skip, n) {
      PrefixGrows(live, chain, id, j + 1, j + 1);
    }
  }

  /** What the code reads from the header of the i-th block of a chain. */
  lemma ChainBlock(m: seq<Byte>, r: Ring, chain: seq<nat>, id: nat, i: nat)
    requires Arranged(m, r) && IsChain(LiveBlocks(m, r.Circ()), chain, id) && i < |chain|
    ensures var live, s := LiveBlocks(m, r.Circ()), chain[i];
      && s in live && Next(m, s) == NextOn(chain, i) && 0 <= Offset(m, s) && (i > 0 ==> Offset(m, s) == 0)
      && |Unread(live[s])| == Len(m, s) - HEADER - Offset(m, s)
  {
    hide Arranged;
    var s := chain[i];
    BlockFits(m, r, s);
  }

  lemma UnreadBytes(m: seq<Byte>, r: Ring, s: nat, left: nat, size: nat)
    requires Arranged(m, r) && s in LiveBlocks(m, r.Circ())
    requires 0 <= Offset(m, s) <= Len(m, s) - HEADER
    requires left + size <= |Unread(LiveBlocks(m, r.Circ())[s])|
    ensures var p := s + HEADER + Offset(m, s) + left;
      p + size <= |m| && m[p..p + size] == Unread(LiveBlocks(m, r.Circ())[s])[left..left + size]
  {
    hide Arranged, LiveBlocks, Len, Offset, Room, LiveAt, Unread, BlockAt;
    LiveMember(m, r.Circ(), s);
    BlockFits(m, r, s);
    var off, n := Offset(m, s), Len(m, s);
    UnreadIs(m, s);
    UnreadSlice(m[s + HEADER..s + n], off, left, size);
    SliceWithin(m, s + HEADER, s + n, off + left, size);
  }

  lemma HeldBy(m: seq<Byte>, r: Ring, s: nat, ptr: int, size: nat)
    requires Arranged(m, r) && s in LiveBlocks(m, r.Circ()) && 0 <= Offset(m, s)
    requires s + HEADER + Offset(m, s) <= ptr && ptr + size <= s + Len(m, s)
    ensures ptr + size <= s + HEADER + |LiveBlocks(m, r.Circ())[s].body|
  {
    hide Arranged;
    BlockFits(m, r, s);
  }

  lemma UnreadIs(m: seq<Byte>, s: nat)
    requires HEADER <= Len(m, s) && s + Len(m, s) <= |m| && 0 <= Offset(m, s) <= Len(m, s) - HEADER
    ensures Unread(BlockAt(m, s)) == m[s + HEADER..s + Len(m, s)][Offset(m, s)..]
  {
  }

  lemma UnreadSlice(body: seq<Byte>, off: nat, left: nat, size: nat)
    requires off + left + size <= |body|
    ensures body[off..][left..left + size] == body[off + left..off + left + size]
  {
  }

  lemma SliceWithin(t: seq<Byte>, lo: nat, hi: nat, left: nat, size: nat)
    requires lo + left + size <= hi <= |t|
    ensures t[lo..hi][left..left + size] == t[lo + left..lo + left + size]
  {
    var u := t[lo..hi];
    assert forall i :: 0 <= i < |u| ==> u[i] == t[lo + i];
  }

  function Slice(t: seq<Byte>, lo: nat, n: nat): seq<Byte> {
    if lo + n <= |t| then t[lo..lo + n] else []
  }

  lemma EmptyPrefix(body: seq<Byte>, text: seq<Byte>, skip: nat)
    ensures Take(body, 0) == Slice(text, skip, 0)
  {
  }

  lemma PatchExtends(body: seq<Byte>, off: nat, bytes: seq<Byte>, text: seq<Byte>, skip: nat)
    requires off + |bytes| <= |body| && skip + off + |bytes| <= |text|
    requires Take(body, off) == Slice(text, skip, off) && bytes == Slice(text, skip + off, |bytes|)
    ensures Take(Patch(body, off, bytes), off + |bytes|) == Slice(text, skip, off + |bytes|)
  {
  }

  lemma NoneDropped(live: Blocks, order: seq<nat>, chain: seq<nat>)
    ensures Members(chain[..0]) == {} && live - Members(chain[..0]) == live
    ensures Filter(order, NotAmong(chain[..0])) == order
  {
  }

  lemma TextOfIs(live: Blocks, chain: seq<nat>)
    requires forall s :: s in chain ==> s in live
    ensures TextOf(live, chain) == Text(live, chain)
  {
  }

  lemma NextOnIs(chain: seq<nat>, i: nat)
    requires i < |chain|
    ensures NextOn(chain, i) >= 0 <==> i + 1 < |chain|
    ensures i + 1 < |chain| ==> NextOn(chain, i) == chain[i + 1]
  {
  }

  /** The header of the i-th block of a chain, after the blocks before it were given up. */
  lemma StoredOffset(m: seq<Byte>, r: Ring, live: Blocks, chain: seq<nat>, id: nat, i: nat)
    requires Arranged(m, r) && IsChain(live, chain, id) && i < |chain|
    requires LiveBlocks(m, r.Circ()) == live - Members(chain[..i])
    ensures var s := chain[i];
      && s in LiveBlocks(m, r.Circ()) && s in live && Offset(m, s) == live[s].offset >= 0
      && (i > 0 ==> Offset(m, s) == 0)
      && Len(m, s) == HEADER + Offset(m, s) + |Unread(live[s])| && s + Len(m, s) <= |m| <= MAX_INT
  {
    hide Arranged;
    NotYetFreed(live, chain, id, i);
    BlockFits(m, r, chain[i]);
    MaxSize(m, r);
  }

  lemma MaxSize(m: seq<Byte>, r: Ring)
    requires Arranged(m, r)
    ensures |m| <= MAX_INT
  {
  }

  /** The chain after its first i blocks were given up and `left` bytes of the next consumed. */
  lemma Landed(live: Blocks, chain: seq<nat>, id: nat, i: nat, left: nat, skip: nat)
    requires IsChain(live, chain, id) && i < |chain| && chain[i] in live && left < |Unread(live[chain[i]])|
    requires skip == |TextOf(live, chain[..i])| + left
    ensures skip <= |TextOf(live, chain)|
    ensures var live' := Dropped(live, chain, i, left); chain[i] in live' && Unread(live'[chain[i]]) != []
    ensures var live' := Dropped(live, chain, i, left);
      && IsChain(live', chain[i..], id) && TextOf(live', chain[i..]) == TextOf(live, chain)[skip..]
      && live'.Keys == live.Keys - Members(chain[..i])
      && (forall s :: s in live' && s != chain[i] ==> s in live && live'[s] == live[s])
  {
    hide Text, Unread, IsChain, TextOf;
    NotYetFreed(live, chain, id, i);
    StillUnread(live, chain, id, i, left);
    DropKeepsChain(live, chain, id, i, left);
    TextOfIs(live, chain[..i]);
    TextOfIs(live, chain);
    TextOfIs(Dropped(live, chain, i, left), chain[i..]);
  }

  lemma StillUnread(live: Blocks, chain: seq<nat>, id: nat, i: nat, left: nat)
    requires IsChain(live, chain, id) && i < |chain| && chain[i] in live && left < |Unread(live[chain[i]])|
    ensures Unread(Dropped(live, chain, i, left)[chain[i]]) != []
  {
    UnreadAdvance(live[chain[i]], left);
  }

  lemma AllDropped(live: Blocks, live': Blocks, chain: seq<nat>, id: nat, i: nat)
    requires IsChain(live, chain, id) && i == |chain| && live' == live - Members(chain[..i])
    ensures IsChain(live', chain[i..], id) && TextOf(live', chain[i..]) == []
    ensures |TextOf(live, chain[..i])| == |TextOf(live, chain)|
  {
    assert chain[..i] == chain && chain[i..] == [];
  }

  lemma OwnerOf(live: Blocks, chain: seq<nat>, id: nat, i: nat)
    requires IsChain(live, chain, id) && i < |chain|
    ensures chain[i] in chain && chain[i] in live && live[chain[i]].id == id
  {
  }

  lemma BodyLength(m: seq<Byte>, r: Ring, b: nat)
    requires Arranged(m, r) && b in LiveBlocks(m, r.Circ())
    ensures Len(m, b) == HEADER + |LiveBlocks(m, r.Circ())[b].body|
  {
    hide Arranged;
    BlockFits(m, r, b);
  }

  lemma BodyBytes(m: seq<Byte>, r: Ring, b: nat)
    requires Arranged(m, r) && b in LiveBlocks(m, r.Circ())
    ensures var body := LiveBlocks(m, r.Circ())[b].body;
      b + HEADER + |body| <= |m| && m[b + HEADER..b + HEADER + |body|] == body
  {
    hide Arranged;
    BlockFits(m, r, b);
  }

  /** Rewriting the body of a block off the chain does not touch the chain. */
  lemma OtherBlocksKept(live: Blocks, to: nat, body: seq<Byte>, chain: seq<nat>, id: nat)
    requires IsChain(live, chain, id) && to in live && to !in chain
    ensures var cur := live[to := live[to].(body := body)];
      IsChain(cur, chain, id) && forall s :: s in chain ==> s in live && s in cur && cur[s] == live[s]
  {
  }

  /** The bytes a memcpy reads from the i-th block are the bytes of the text there. */
  lemma CopyPiece(m: seq<Byte>, r: Ring, live: Blocks, to: nat, chain: seq<nat>, id: nat, i: nat, k: nat, n: nat)
    requires Arranged(m, r) && IsChain(live, chain, id) && i < |chain| && to in live && to !in chain
    requires exists body :: LiveBlocks(m, r.Circ()) == live[to := live[to].(body := body)]
    requires chain[i] in live && k + n <= |Unread(live[chain[i]])|
    ensures var p := chain[i] + HEADER + Offset(m, chain[i]) + k;
      && 0 <= p <= p + n <= |m|
      && m[p..p + n] == Slice(TextOf(live, chain), |TextOf(live, chain[..i])| + k, n)
    ensures |TextOf(live, chain[..i])| + k + n <= |TextOf(live, chain)|
    ensures Len(m, chain[i]) == HEADER + Offset(m, chain[i]) + |Unread(live[chain[i]])|
  {
    hide Arranged, LiveBlocks, IsChain, Text, Unread, BlockAt, LiveAt, Get, Offset, Len;
    var body :| LiveBlocks(m, r.Circ()) == live[to := live[to].(body := body)];
    OtherBlocksKept(live, to, body, chain, id);
    ChainBlock(m, r, chain, id, i);
    UnreadBytes(m, r, chain[i], k, n);
    TextParts(live, chain, id, i);
    SliceWithin(TextOf(live, chain), |TextOf(live, chain[..i])|, |TextOf(live, chain[..i + 1])|, k, n);
  }

  lemma NextIs(m: seq<Byte>, b: nat)
    ensures Next(m, b) == BlockAt(m, b).next
  {
  }

  ghost function NotAmong(gone: seq<nat>): nat -> bool {
    (t: nat) => t !in gone
  }

  lemma NoMembers()
    ensures Members([]) == {}
  {
  }

  lemma EverythingStays(order: seq<nat>)
    ensures Filter(order, NotAmong([])) == order
  {
  }

  lemma FreeOneMore(order: seq<nat>, chain: seq<nat>, i: nat)
    requires i < |chain|
    ensures Filter(Filter(order, NotAmong(chain[..i])), NotAmong([chain[i]])) == Filter(order, NotAmong(chain[..i + 1]))
  {
    assert chain[..i + 1] == chain[..i] + [chain[i]];
    FilterTwice(order, NotAmong(chain[..i]), NotAmong([chain[i]]), NotAmong(chain[..i + 1]));
  }

  lemma NotYetFreed(live: Blocks, chain: seq<nat>, id: nat, i: nat)
    requires IsChain(live, chain, id) && i < |chain|
    ensures chain[i] in live - Members(chain[..i]) && chain[i] !in chain[..i]
    ensures live[chain[i]].next == NextOn(chain, i)
  {
  }

  /** What the header words of a block in use say. */
  lemma LiveWords(m: seq<Byte>, starts: seq<nat>, b: nat)
    requires b in LiveBlocks(m, starts)
    ensures Next(m, b) == LiveBlocks(m, starts)[b].next && Id(m, b) == LiveBlocks(m, starts)[b].id
    ensures Offset(m, b) == LiveBlocks(m, starts)[b].offset
  {
  }

  lemma BlockInRange(m: seq<Byte>, r: Ring, b: nat)
    requires Arranged(m, r) && (b in LiveBlocks(m, r.Circ()) || Newest(r, b))
    ensures b < |m| <= MAX_INT
  {
    BlockFits(m, r, b);
  }

  lemma AlignMonotone(a: nat, b: nat)
    requires a <= b
    ensures Align(a) <= Align(b)
  {
  }

  lemma NewestMember(m: seq<Byte>, r: Ring, b: nat)
    requires Newest(r, b)
    ensures b in r.Circ()
  {
  }

  lemma FreshUnowned(m: seq<Byte>, b: nat, n: nat)
    requires FreshAt(m, b, n)
    ensures !LiveAt(m, b) && Len(m, b) == HEADER + n
  {
  }

  lemma FreshLen(m: seq<Byte>, b: nat, n: nat)
    requires FreshAt(m, b, n)
    ensures Len(m, b) == HEADER + n
  {
  }

  lemma UnownedKeepsLive(m: seq<Byte>, m': seq<Byte>, starts: seq<nat>, b: nat)
    requires OthersSame(m, m', starts, b) && !LiveAt(m, b) && !LiveAt(m', b)
    ensures LiveStarts(m', starts) == LiveStarts(m, starts) && LiveBlocks(m', starts) == LiveBlocks(m, starts)
  {
    LiveStartsSame(m, m', starts, b);
    LiveBlocksAgree(m, m', starts, starts);
  }

  lemma PatchPrefix(body: seq<Byte>, bytes: seq<Byte>)
    requires |bytes| <= |body|
    ensures Take(Patch(body, 0, bytes), |bytes|) == bytes
  {
  }

  lemma TooLittleRoom(live: Blocks, head: nat, n: nat, size: nat)
    requires size - head < n
    ensures !RoomAt(live, head, n, size)
  {
  }

  lemma BehindHead(m: seq<Byte>, r: Ring, k: nat)
    requires Arranged(m, r) && k < |r.after| && LiveAt(m, r.after[k])
    ensures !NoneFrom(LiveBlocks(m, r.Circ()), r.head)
  {
    hide Arranged, LiveAt;
    TileOrder(m, r, r.after[k], k);
    BlockedNoRoom(m, r, k, r.after[k] - r.head + 1);
  }

  lemma InUse(m: seq<Byte>, r: Ring, k: nat)
    requires k < |r.after| && LiveAt(m, r.after[k])
    ensures LiveStarts(m, r.Circ()) != []
  {
    FilterMember(r.Circ(), Alive(m), r.after[k]);
  }

  lemma RewoundCirc(r: Ring)
    ensures r.Rewound().Circ() == r.before + r.after
  {
  }

  lemma OrderIsLive(m: seq<Byte>, starts: seq<nat>, b: nat)
    requires b in LiveStarts(m, starts)
    ensures b in LiveBlocks(m, starts) && LiveBlocks(m, starts)[b].id == Id(m, b) >= 0
  {
    FilterMember(starts, Alive(m), b);
  }

  ghost function NotOwnedBy(live: Blocks, id: int): Blocks {
    map s | s in live && live[s].id != id :: live[s]
  }

  ghost function OwnerIsNot(live: Blocks, id: int): nat -> bool {
    (s: nat) => s in live && live[s].id != id
  }

  lemma WholeStartsAtZero(m: seq<Byte>, r: Ring)
    requires Arranged(m, r)
    ensures r.before + r.after != [] && (r.before + r.after)[0] == 0
  {
  }

  /** The first k blocks no longer name id as their owner; all else is as in m. */
  ghost predicate Swept(m: seq<Byte>, m': seq<Byte>, whole: seq<nat>, k: nat, id: int) {
    && (forall i :: 0 <= i < k && i < |whole| ==>
      LiveAt(m', whole[i]) == (LiveAt(m, whole[i]) && BlockAt(m, whole[i]).id != id))
    && (forall i :: k <= i < |whole| ==> LiveAt(m', whole[i]) == LiveAt(m, whole[i]))
    && (forall i :: 0 <= i < |whole| && LiveAt(m', whole[i]) ==> BlockAt(m', whole[i]) == BlockAt(m, whole[i]))
  }

  lemma SweptNone(m: seq<Byte>, whole: seq<nat>, id: int)
    ensures Swept(m, m, whole, 0, id)
  {
  }

  lemma NextInWhole(m: seq<Byte>, r: Ring, k: nat)
    requires Arranged(m, r) && k < |r.before + r.after|
    ensures var whole := r.before + r.after;
      && Len(m, whole[k]) > 0 && whole[k] + Room(m, whole[k]) <= |m|
      && (k + 1 < |whole| ==> whole[k] + Room(m, whole[k]) == whole[k + 1] < |m|)
      && (k + 1 == |whole| ==> whole[k] + Room(m, whole[k]) == |m|)
  {
    hide Tiles, Get;
    var whole := r.before + r.after;
    ArrangedWhole(m, r);
    TileStep(m, whole, 0, |m|, k);
    RoomIs(m, whole[k]);
    if k + 1 < |whole| {
      TileStep(m, whole, 0, |m|, k + 1);
    }
  }

  lemma SweepStep(m: seq<Byte>, m1: seq<Byte>, m2: seq<Byte>, r: Ring, k: nat, id: int)
    requires var whole := r.before + r.after;
      && Arranged(m1, r) && k < |whole| && Swept(m, m1, whole, k, id)
      && (if Len(m1, whole[k]) >= HEADER && Id(m1, whole[k]) == id
          then OthersSame(m1, m2, r.Circ(), whole[k]) && !LiveAt(m2, whole[k]) else m2 == m1)
    ensures Swept(m, m2, r.before + r.after, k + 1, id)
  {
    hide Tiles, Get, Len, Room;
    var whole := r.before + r.after;
    forall i | 0 <= i < |whole|
      ensures whole[i] in r.Circ()
      ensures i != k ==> whole[i] != whole[k]
    {
      WholeDistinct(m1, r, i, k);
    }
  }

  lemma WholeDistinct(m: seq<Byte>, r: Ring, i: nat, k: nat)
    requires Arranged(m, r) && i < |r.before + r.after| && k < |r.before + r.after|
    ensures var whole := r.before + r.after; whole[i] == whole[k] <==> i == k
  {
    hide Tiles, Get, Len, Room;
    var whole := r.before + r.after;
    ArrangedWhole(m, r);
    TileStep(m, whole, 0, |m|, i);
    TileStep(m, whole, 0, |m|, k);
    if i < k {
      TilesApartAt(m, whole, 0, |m|, i, k);
      RoomPositive(m, whole[i]);
    } else if k < i {
      TilesApartAt(m, whole, 0, |m|, k, i);
      RoomPositive(m, whole[k]);
    }
  }

  lemma RoomPositive(m: seq<Byte>, s: nat)
    requires Len(m, s) > 0
    ensures Room(m, s) > 0
  {
  }

  lemma SweptAll(m: seq<Byte>, m': seq<Byte>, r: Ring, id: int)
    requires Swept(m, m', r.before + r.after, |r.before + r.after|, id)
    ensures LiveBlocks(m', r.Circ()) == NotOwnedBy(LiveBlocks(m, r.Circ()), id)
    ensures LiveStarts(m', r.Circ()) == Filter(LiveStarts(m, r.Circ()), OwnerIsNot(LiveBlocks(m, r.Circ()), id))
  {
    hide LiveAt, BlockAt;
    var whole := r.before + r.after;
    forall s | s in r.Circ()
      ensures LiveAt(m', s) == (LiveAt(m, s) && BlockAt(m, s).id != id)
      ensures LiveAt(m', s) ==> BlockAt(m', s) == BlockAt(m, s)
    {
      assert s in whole;
      var i :| 0 <= i < |whole| && whole[i] == s;
    }
    FilterTwice(r.Circ(), Alive(m), OwnerIsNot(LiveBlocks(m, r.Circ()), id), Alive(m'));
  }

  lemma OneFreeBlock(m: seq<Byte>, size: nat)
    requires |m| == size && HEADER <= size <= MAX_INT && size % 4 == 0
    ensures var m' := FreeBlock(m, 0, size);
      && Arranged(m', Ring(0, [], [0])) && LiveStarts(m', Ring(0, [], [0]).Circ()) == []
      && LiveBlocks(m', Ring(0, [], [0]).Circ()) == map[]
  {
    hide Get, FreeBlock;
    var m' := FreeBlock(m, 0, size);
    FreeBlockFacts(m, 0, size);
    WholeRun(m', 0, size);
    assert CutStarts(0, size, size) == [0] == Ring(0, [], [0]).Circ();
    NoTiles(m');
    NoneLive(m', Ring(0, [], [0]));
  }

  lemma RoomIs(m: seq<Byte>, s: nat)
    requires Len(m, s) > 0
    ensures Room(m, s) == Align(Len(m, s))
  {
  }

  lemma LastTile(m: seq<Byte>, starts: seq<nat>, lo: nat, hi: nat, k: nat)
    requires Tiles(m, starts, lo, hi) && k < |starts| && starts[k] + Room(m, starts[k]) == hi
    ensures k + 1 == |starts|
  {
    TileStep(m, starts, lo, hi, k);
    if k + 1 < |starts| {
      TileStep(m, starts, lo, hi, k + 1);
    }
  }

  lemma NotLastTile(m: seq<Byte>, starts: seq<nat>, lo: nat, hi: nat, k: nat)
    requires Tiles(m, starts, lo, hi) && k < |starts| && starts[k] + Room(m, starts[k]) != hi
    ensures k + 1 < |starts| && starts[k + 1] == starts[k] + Room(m, starts[k])
  {
    TileStep(m, starts, lo, hi, k);
  }

  lemma ArrangedMember(m: seq<Byte>, r: Ring, s: nat)
    requires Arranged(m, r) && s in r.Circ()
    ensures Len(m, s) > 0 && s + Room(m, s) <= |m| && s % 4 == 0
  {
    ArrangedWhole(m, r);
    TileInside(m, r.before + r.after, 0, |m|, s);
  }
}
