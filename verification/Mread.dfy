/** struct mread_pool of mread.c: connections share one ring buffer; the pool hands out contiguous
    pieces of each connection's byte stream and evicts the owner of the oldest data when full. */
module Mread {
  import opened Bytes
  import opened Filters
  import opened Arena
  import opened Streams
  import opened Connections
  import opened Eviction
  import Layout
  import RB = RingBuffer
  import opened Wrappers

  const READBLOCKSIZE: nat := 2048

  const RINGBUFFER_DEFAULT: nat := 1024 * 1024

  /** What recv reports once it is not interrupted (EINTR only repeats the call): some bytes, end of
      stream, nothing yet, or another error. */
  datatype Recv = Got(bytes: seq<Byte>) | Eof | WouldBlock | Failed

  /** What epoll_wait reports: somebody wants to connect, or the connection in a slot is readable. */
  datatype Event = Listening | Ready(slot: nat)

  /** The first event for a connection is at i, if there is any. */
  predicate FirstReady(q: seq<Event>, i: nat) {
    i <= |q| && (forall j :: 0 <= j < i ==> q[j].Listening?) && (i < |q| ==> q[i].Ready?)
  }

  const NEW_SOCKET: Socket := Socket(Suspend, NULL, NULL)

  /** The sockets, and the connections, after clients were given some slots. */
  ghost function WithClients(s: seq<Socket>, slots: seq<int>): seq<Socket> {
    seq(|s|, i requires 0 <= i < |s| => if i in slots then NEW_SOCKET else s[i])
  }

  ghost function WithStreams(cs: seq<Conn>, slots: seq<int>): seq<Conn> {
    seq(|cs|, i requires 0 <= i < |cs| => if i in slots then NO_DATA else cs[i])
  }

  lemma NoClients(s: seq<Socket>, cs: seq<Conn>)
    ensures WithClients(s, []) == s && WithStreams(cs, []) == cs
  {
  }

  lemma OneMoreClient(s: seq<Socket>, cs: seq<Conn>, slots: seq<int>, k: nat)
    requires k < |slots| && -1 <= slots[k] < |s| == |cs|
    ensures WithClients(s, slots[..k + 1])
         == if slots[k] < 0 then WithClients(s, slots[..k]) else WithClients(s, slots[..k])[slots[k] := NEW_SOCKET]
    ensures WithStreams(cs, slots[..k + 1])
         == if slots[k] < 0 then WithStreams(cs, slots[..k]) else WithStreams(cs, slots[..k])[slots[k] := NO_DATA]
  {
    assert slots[..k + 1] == slots[..k] + [slots[k]];
  }

  predicate FirstClosed(s: seq<Socket>, i: nat) {
    i < |s| && s[i].status.Closed? && forall j :: 0 <= j < i ==> !s[j].status.Closed?
  }

  class Pool {
    const rb: RB.Ringbuffer
    const sockets: array<Socket>
    var active: int
    var skip: nat
    var closed: nat
    /** The events fetched and not taken yet. */
    var queue: seq<Event>

    ghost var conns: seq<Conn>
    /** The pieces of the active connection handed out since the last poll or yield. */
    ghost var handed: seq<Piece>

    ghost predicate Valid()
      reads this, sockets, rb, rb.data
    {
      && rb.Valid() && 2 * READBLOCKSIZE <= rb.data.Length
      && |conns| == sockets.Length <= MAX_INT && -1 <= active < sockets.Length
      && AllOk(rb.Live(), conns, sockets[..])
      && closed == ClosedCount(sockets[..]) && InRange(queue)
      && (active >= 0 ==>
        && !sockets[active].status.Invalid?
        && (Alive(sockets[active]) ==>
          && conns[active].consumed + skip <= |conns[active].received|
          && HandedOk(rb.Live(), conns[active], handed)))
    }

    /** The assertion of mread_poll: events name slots of this pool. */
    predicate InRange(events: seq<Event>) { forall e :: e in events ==> e.Ready? ==> e.slot < sockets.Length }

    /** The state part of mread_create: every socket slot is unused. */
    constructor (max: nat, bufferSize: nat)
      requires 0 < max <= MAX_INT && bufferSize <= MAX_INT - 3
      ensures Valid() && fresh(sockets) && fresh(rb) && fresh(rb.data)
      ensures active == -1 && closed == 0 && queue == [] && sockets.Length == max
      ensures var size := Align(if bufferSize == 0 then RINGBUFFER_DEFAULT else bufferSize);
        rb.data.Length == if size < READBLOCKSIZE * 2 then READBLOCKSIZE * 2 else size
      ensures forall i :: 0 <= i < max ==> conns[i] == NO_DATA && sockets[i].status.Invalid?
    {
      hide RB.TextOf, Layout.LiveBlocks, Layout.LiveStarts, Layout.Arranged, Text;
      var size := Align(if bufferSize == 0 then RINGBUFFER_DEFAULT else bufferSize);
      rb := new RB.Ringbuffer(if size < READBLOCKSIZE * 2 then READBLOCKSIZE * 2 else size);
      sockets := new Socket[max](_ => Socket(Invalid, NULL, NULL));
      active, skip, closed, queue := -1, 0, 0, [];
      conns := seq(max, _ => NO_DATA);
      handed := [];
      new;
      NoneClosed(sockets[..]);
    }

    /** One round of the eviction loop of mread_pull: the owner of the oldest data is closed. */
    method EvictOldest() returns (id: nat)
      requires Valid() && rb.Order() != []
      modifies `conns, `closed, sockets, rb, rb.data
      ensures Valid() && active == old(active) && skip == old(skip) && handed == old(handed)
      ensures id < sockets.Length && old(Alive(sockets[id]))
      ensures old(rb.Order())[0] in old(rb.Live()) && id == old(rb.Live())[old(rb.Order())[0]].id
      ensures rb.Live() == RB.NotOwnedBy(old(rb.Live()), id) && |rb.Live()| < |old(rb.Live())|
      ensures SpaceOf(rb) == Without(old(SpaceOf(rb)), id)
      ensures sockets[..] == old(sockets[..])[id := CLOSED_SOCKET]
      ensures conns == old(conns)[id := Emptied(old(conns)[id])]
    {
      hide AllOk, RB.NotOwnedBy, RB.TextOf, Layout.LiveBlocks, Layout.LiveStarts, Layout.Arranged,
           ClosedCount, Layout.FreshAt, Layout.Newest, HandedOk, Filter, Layout.Settled;
      ghost var live, was, oldest := rb.Live(), sockets[..], rb.Order()[0];
      var collected := rb.Collect();
      OwnerAlive(live, conns, was, oldest);
      id := collected;
      CloseKeepsOk(live, rb.Live(), conns, was, id);
      FewerLive(live, oldest, id);
      if active >= 0 && active != id && Alive(sockets[active]) {
        HandedSurvives(live, conns, was, active, id, handed);
      }
      ClosedCountUpdate(was, id, CLOSED_SOCKET);
      conns := conns[id := Emptied(conns[id])];
      CloseClient(id);
    }

    /** The state part of mread_close_client. */
    method CloseClient(id: nat)
      requires id < sockets.Length
      modifies sockets, `closed
      ensures sockets[..] == old(sockets[..])[id := CLOSED_SOCKET] && closed == old(closed) + 1
    {
      sockets[id] := Socket(Closed, NULL, NULL);
      closed := closed + 1;
    }

    /** The allocation loops of mread_pull: evict until the block fits, or until the connection
        being read was evicted itself. */
    method AllocEvicting(n: nat) returns (blk: int)
      requires Valid() && active >= 0 && Alive(sockets[active]) && Align(HEADER + n) <= rb.data.Length
      modifies `conns, `closed, sockets, rb, rb.data
      ensures Valid() && active == old(active) && skip == old(skip) && handed == old(handed)
      ensures blk == NULL <==> active in old(EvictedFor(n)).ids
      ensures Evictions(old(conns), old(sockets[..]), conns, sockets[..], old(EvictedFor(n)).ids)
      ensures old(HasRoomFor(SpaceOf(rb), Align(HEADER + n))) ==> conns == old(conns) && sockets[..] == old(sockets[..])
      ensures rb.Live() == old(EvictedFor(n)).space.live && rb.Order() == old(EvictedFor(n)).space.order
      ensures blk != NULL ==> blk >= 0 && Placed(old(EvictedFor(n)).space, n, blk, SpaceOf(rb)) && rb.Fresh(blk, n)
    {
      hide AllOk, RB.NotOwnedBy, RB.TextOf, Layout.LiveBlocks, Layout.LiveStarts, Layout.Arranged, Filter,
           ClosedCount, Layout.FreshAt, Layout.Newest, HandedOk, Evict, Layout.Settled, Evictions,
           HasRoomFor, Placed, RB.Ringbuffer.Fresh, Without;
      ghost var s, need := SpaceOf(rb), Align(HEADER + n);
      ghost var gone: seq<int> := [];
      RoomForAll(s, need, active);
      NobodyEvicted(conns, sockets[..]);
      blk := TryAlloc(n);
      while blk == NULL
        invariant Valid() && active == old(active) && skip == old(skip) && handed == old(handed)
        invariant Evictions(old(conns), old(sockets[..]), conns, sockets[..], gone) && active !in gone
        invariant old(EvictedFor(n)) == Outcome(gone + Evict(s, need, active).ids, Evict(s, need, active).space)
        invariant Alive(sockets[active]) && s.size == rb.data.Length
        invariant rb.Live() == s.live && rb.Order() == s.order
        invariant blk != NULL <==> HasRoomFor(s, need)
        invariant blk != NULL ==> blk >= 0 && Placed(s, n, blk, SpaceOf(rb)) && rb.Fresh(blk, n)
        invariant blk == NULL ==> rb.Order() != [] && rb.head == Layout.Settled(s.live, s.head)
        decreases |rb.Live()|, blk == NULL
      {
        ghost var was, sock := conns, sockets[..];
        OldestInUse(rb);
        OneRound(gone, s, need, active);
        SettledAlready(s, SpaceOf(rb));
        var id := EvictOldest();
        OneMoreEviction(old(conns), old(sockets[..]), was, sock, gone, id);
        gone := gone + [id];
        s := Without(s, id);
        if id == active {
          return NULL;
        }
        blk := TryAlloc(n);
      }
      NothingMore(gone, s, need, active);
      EvictedNobody(old(conns), old(sockets[..]), conns, sockets[..]);
    }

    /** ringbuffer_alloc. */
    method TryAlloc(n: nat) returns (blk: int)
      requires Valid() && Align(HEADER + n) <= rb.data.Length
      modifies rb, rb.data
      ensures Valid() && rb.Live() == old(rb.Live()) && rb.Order() == old(rb.Order())
      ensures blk != NULL <==> HasRoomFor(old(SpaceOf(rb)), Align(HEADER + n))
      ensures blk != NULL ==> blk >= 0 && Placed(old(SpaceOf(rb)), n, blk, SpaceOf(rb)) && rb.Fresh(blk, n)
      ensures blk == NULL ==> rb.Order() != [] && rb.head == Layout.Settled(rb.Live(), old(rb.head))
    {
      hide AllOk, Layout.LiveBlocks, Layout.LiveStarts, Layout.Arranged, ClosedCount, HandedOk, Layout.HasRoom,
           Layout.PlaceFor, Layout.Settled, RB.Ringbuffer.Fresh;
      blk := rb.Alloc(n);
    }

    /** Who is evicted so that a block for n bytes can be allocated, and what is left in use then. */
    ghost function EvictedFor(n: nat): Outcome
      reads this, rb, rb.data
    {
      Evict(SpaceOf(rb), Align(HEADER + n), active)
    }

    /** The connection being read loses its data to an allocation exactly if there would be no room even
        with everybody gone who has older data. */
    lemma LosesDataIff(n: nat)
      requires Valid() && Align(HEADER + n) <= rb.data.Length
      ensures active in EvictedFor(n).ids <==>
        !Layout.HasRoom(Spared(SpaceOf(rb), active), rb.head, Align(HEADER + n), rb.data.Length)
    {
      hide RB.TextOf, Layout.LiveBlocks, Layout.LiveStarts, Layout.Arranged, Text, HandedOk, ClosedCount,
           AllOk, Layout.HasRoom, Spared, Evict;
      ArenaOrdered(rb);
      EvictedIff(SpaceOf(rb), Align(HEADER + n), active);
    }

    // ---------- the pieces of mread_pull

    /** _ringbuffer_read: how many of `size` unread bytes are there, and where if contiguous. */
    method RingbufferRead(size: nat) returns (rd: nat, ptr: int, ghost blk: nat)
      requires Valid() && active >= 0
      ensures ptr != NULL ==> rd == size && Alive(sockets[active]) && Delivers(blk, ptr, size)
      ensures ptr != NULL <==> RB.InOneBlock(rb.Live(), conns[active].chain, skip, size)
      ensures ptr == NULL && Alive(sockets[active]) ==>
        rd == RB.Min(size, |conns[active].received| - conns[active].consumed - skip)
    {
      hide RB.TextOf, Layout.LiveBlocks, Layout.LiveStarts, Layout.Arranged, Text, IsChain, HandedOk,
           ClosedCount, AllOk;
      ghost var c := conns[active];
      OkAt(rb.Live(), conns, sockets[..], active);
      if sockets[active].node == NULL {
        if Alive(sockets[active]) {
          NoUnread(rb.Live(), c);
        }
        return 0, NULL, 0;
      }
      rd, ptr, blk := rb.Data(sockets[active].node, size, skip, c.chain, active);
      if ptr != NULL {
        SliceOfRest(c.received, c.consumed, skip, size);
      }
    }

    /** The n bytes at ptr are the next ones of the active connection's stream. */
    ghost predicate Delivers(blk: nat, ptr: int, n: nat)
      requires Valid() && active >= 0 && Alive(sockets[active])
      reads this, sockets, rb, rb.data
    {
      var c := conns[active];
      && Owns(c, blk) && rb.Holds(blk, ptr, n) && 0 <= ptr <= ptr + n <= rb.data.Length
      && c.consumed + skip + n <= |c.received|
      && rb.data[ptr..ptr + n] == c.received[c.consumed + skip..c.consumed + skip + n]
    }

    /** _link_node: the bytes just received become the end of the active connection's chain. */
    method LinkNode(blk: nat, ghost bytes: seq<Byte>)
      requires Valid() && active >= 0 && Alive(sockets[active])
      requires rb.Fresh(blk, |bytes|) && rb.Body(blk) == bytes
      modifies sockets, rb.data, `conns
      ensures Valid()
      ensures conns == old(conns)[active := WithData(old(conns)[active], blk, bytes)]
      ensures sockets[..] == old(sockets[..])[active := old(sockets[active]).(node := sockets[active].node)]
      ensures rb.Live() == Grown(old(rb.Live()), old(conns)[active].chain, blk, Block(active, -1, 0, bytes))
      ensures rb.Order() == old(rb.Order()) + [blk]
    {
      hide RB.TextOf, Layout.LiveBlocks, Layout.LiveStarts, Layout.Arranged, Text, HandedOk, ClosedCount,
           AllOk, IsChain, Layout.FreshAt, Layout.Newest, InStep, Owns;
      ghost var live, c, s, socks := rb.Live(), conns[active], sockets[active], sockets[..];
      OkAt(live, conns, socks, active);
      FreshNotLive(rb, blk, |bytes|);
      GrowKeepsOk(live, conns, socks, active, blk, bytes);
      GrowChain(live, c, s, active, blk, bytes);
      if sockets[active].node != NULL {
        rb.Link(sockets[active].node, blk, c.chain, active, |bytes|);
      } else {
        rb.Own(blk, active, |bytes|);
        sockets[active] := sockets[active].(node := blk);
      }
      assert rb.Live() == Grown(live, c.chain, blk, Block(active, -1, 0, bytes));
      assert sockets[..] == socks[active := s.(node := First(WithData(c, blk, bytes).chain))];
      conns := conns[active := WithData(c, blk, bytes)];
      OwnsMore(c, blk, bytes);
      HandedFrame(live, rb.Live(), c, conns[active], handed);
      ClosedCountUpdate(socks, active, sockets[active]);
    }

    /** _close_active */
    method CloseActive()
      requires Valid() && active >= 0 && Alive(sockets[active])
      modifies sockets, rb.data, `conns, `closed
      ensures Valid()
      ensures conns == old(conns)[active := Emptied(old(conns)[active])]
      ensures sockets[..] == old(sockets[..])[active := CLOSED_SOCKET]
    {
      hide RB.TextOf, Layout.LiveBlocks, Layout.LiveStarts, Layout.Arranged, Text, HandedOk, ClosedCount,
           AllOk, IsChain, InStep, Owns, RB.NotOwnedBy;
      ghost var live, c, socks := rb.Live(), conns[active], sockets[..];
      OkAt(live, conns, socks, active);
      rb.Free(sockets[active].temp, c.temp, active);
      ChainOutlives(live, rb.Live(), c, active);
      rb.Free(sockets[active].node, c.chain, active);
      AllGivenUp(live, conns, socks, active);
      assert rb.Live() == RB.NotOwnedBy(live, active);
      CloseKeepsOk(live, rb.Live(), conns, socks, active);
      ClosedCountUpdate(socks, active, CLOSED_SOCKET);
      conns := conns[active := Emptied(c)];
      CloseClient(active);
    }

    /** The end of mread_pull when the bytes span blocks: they are gathered in a block of their
        own, for which others may have to be evicted. */
    method CopyOut(size: nat) returns (ptr: int)
      requires Valid() && active >= 0 && Alive(sockets[active])
      requires conns[active].consumed + skip < |conns[active].received|
      requires conns[active].consumed + skip + size <= |conns[active].received|
      requires Align(HEADER + size) <= rb.data.Length
      modifies `conns, `closed, `skip, `handed, sockets, rb, rb.data
      ensures Valid() && active == old(active)
      ensures ptr == NULL <==> active in old(EvictedFor(size)).ids
      ensures ptr == NULL ==> sockets[active] == CLOSED_SOCKET && skip == old(skip)
      ensures ptr != NULL ==> Alive(sockets[active]) && skip == old(skip) + size && ReturnsRead(ptr, size)
      ensures ptr != NULL ==> sockets[active].status == old(sockets[active].status)
      ensures SameStream(old(conns)[active], conns[active])
      ensures Elsewhere(old(conns), old(sockets[..]), conns, sockets[..], active, old(EvictedFor(size)).ids)
    {
      hide RB.TextOf, Layout.LiveBlocks, Layout.LiveStarts, Layout.Arranged, Text, HandedOk, ClosedCount,
           Filter, AllOk, IsChain, InStep, Owns, RB.NotOwnedBy, Layout.FreshAt, Layout.Newest, Evictions,
           Emptied, Evict;
      var temp := AllocEvicting(size);
      ghost var ids := old(EvictedFor(size)).ids;
      SomeEvicted(old(conns), old(sockets[..]), conns, sockets[..], active, ids);
      if temp == NULL {
        return NULL;
      }
      ghost var c, before, socks := conns[active], conns, sockets[..];
      ptr := FillCopy(temp, size);
      StillElsewhere(old(conns), old(sockets[..]), before, socks, conns, sockets[..], active, ids);
    }

    /** The rest of CopyOut once a block is there: it is owned, linked and filled. */
    method FillCopy(temp: nat, size: nat) returns (ptr: int)
      requires Valid() && active >= 0 && Alive(sockets[active]) && rb.Fresh(temp, size)
      requires conns[active].consumed + skip < |conns[active].received|
      requires conns[active].consumed + skip + size <= |conns[active].received|
      modifies sockets, rb.data, `conns, `skip, `handed
      ensures Valid() && ptr != NULL && skip == old(skip) + size && ReturnsRead(ptr, size)
      ensures conns == old(conns)[active := WithCopy(old(conns)[active], temp)]
      ensures sockets[..] == old(sockets[..])[active := old(sockets[active]).(temp := temp)]
    {
      hide RB.TextOf, Layout.LiveBlocks, Layout.LiveStarts, Layout.Arranged, Text, HandedOk, ClosedCount,
           AllOk, IsChain, RB.NotOwnedBy, Layout.FreshAt, Layout.Newest, Owns, PieceOk, CopyAdded, ConnOk;
      ghost var live, c, s, socks := rb.Live(), conns[active], sockets[active], sockets[..];
      FreshNotLive(rb, temp, size);
      ghost var body := c.received[c.consumed + skip..c.consumed + skip + size];
      var to := GatherInto(temp, size, body);
      sockets[active] := sockets[active].(temp := temp);
      CopyKeepsOk(live, conns, socks, active, temp, body);
      assert sockets[..] == socks[active := s.(temp := temp)];
      conns := conns[active := WithCopy(c, temp)];
      CopyOwns(c, temp);
      CopyBlocks(live, c, active, temp, body);
      HandedFrame(live, rb.Live(), c, conns[active], handed);
      WholePiece(live, c, active, temp, body);
      HandOver(rb.Live(), conns[active], handed, Piece(temp, 0, body));
      handed := handed + [Piece(temp, 0, body)];
      ClosedCountUpdate(socks, active, sockets[active]);
      skip := skip + size;
      ptr := to;
    }

    /** temp->id = id, the link to the older copies, and ringbuffer_copy. */
    method GatherInto(temp: nat, size: nat, ghost body: seq<Byte>) returns (ptr: nat)
      requires Valid() && active >= 0 && Alive(sockets[active]) && rb.Fresh(temp, size) && temp !in rb.Live()
      requires conns[active].consumed + skip < |conns[active].received|
      requires conns[active].consumed + skip + size <= |conns[active].received|
      requires body == conns[active].received[conns[active].consumed + skip..conns[active].consumed + skip + size]
      modifies rb.data
      ensures rb.Valid() && rb.Live() == CopyAdded(old(rb.Live()), conns[active], active, temp, body)
      ensures ptr == temp + HEADER && ptr + size <= rb.data.Length && rb.data[ptr..ptr + size] == body
    {
      hide RB.TextOf, Layout.LiveBlocks, Layout.LiveStarts, Layout.Arranged, Text, HandedOk, ClosedCount,
           AllOk, IsChain, RB.NotOwnedBy, Layout.FreshAt, Layout.Newest, Owns;
      ghost var live, c, s := rb.Live(), conns[active], sockets[active];
      OkAt(live, conns, sockets[..], active);
      FreshBody(rb, temp, size);
      ghost var junk := rb.Body(temp);
      rb.Own(temp, active, size);
      OneBlockChain(rb.Live(), temp, active);
      if sockets[active].temp != NULL {
        NotYetCopied(live, c, s, active, temp);
        rb.Link(temp, sockets[active].temp, [temp] + [], active, 0);
      }
      assert rb.Live() == CopyAdded(live, c, active, temp, junk);
      CopySource(live, c, s, active, temp, junk);
      ptr := rb.Copy(sockets[active].node, skip, temp, c.chain, active);
      SliceOfRest(c.received, c.consumed, skip, size);
      assert rb.Live() == CopyAdded(live, c, active, temp, body);
    }

    /** The last n bytes read are at ptr, which lies in the arena. */
    ghost predicate ReturnsRead(ptr: int, n: nat)
      reads this, sockets, rb, rb.data
    {
      && 0 <= active < |conns| && n <= skip && conns[active].consumed + skip <= |conns[active].received|
      && 0 <= ptr <= ptr + n <= rb.data.Length
      && rb.data[ptr..ptr + n]
         == conns[active].received[conns[active].consumed + skip - n..conns[active].consumed + skip]
      && handed != [] && handed[|handed| - 1].Ptr() == ptr && |handed[|handed| - 1].bytes| == n
    }

    // ---------- mread_pull

    /** s->status = st, within the life of a connection. */
    method SetStatus(st: Status)
      requires Valid() && active >= 0 && Alive(sockets[active]) && !st.Invalid? && !st.Closed?
      modifies sockets
      ensures Valid()
      ensures sockets[..] == old(sockets[..])[active := old(sockets[active]).(status := st)]
    {
      hide RB.TextOf, Layout.LiveBlocks, Layout.LiveStarts, Layout.Arranged, Text, HandedOk, ClosedCount,
           AllOk, IsChain, InStep, Owns, RB.NotOwnedBy, Layout.FreshAt, Layout.Newest, Evictions;
      ghost var socks := sockets[..];
      StatusKeepsOk(rb.Live(), conns, socks, active, st);
      ClosedCountUpdate(socks, active, sockets[active].(status := st));
      sockets[active] := sockets[active].(status := st);
      assert sockets[..] == socks[active := socks[active].(status := st)];
    }

    /** Who is evicted while `size` bytes are pulled. */
    ghost function Evicted(size: nat, input: Recv): seq<int>
      requires 0 <= active < |conns|
      reads this, rb, rb.data
    {
      EvictedByPull(SpaceOf(rb), conns[active], active, skip, size, input)
    }

    /** The part of mread_pull after a readable connection turned out to lack the bytes: one block
        is allocated, recv called until it is not interrupted, and the result handed out if it suffices. */
    method Fetch(size: nat, rdSize: nat, input: Recv) returns (ptr: int)
      requires Valid() && active >= 0 && sockets[active].status.PollIn?
      requires input.Got? ==> input.bytes != []
      requires rdSize == RB.Min(size, |conns[active].received| - conns[active].consumed - skip)
      requires Align(HEADER + size) <= rb.data.Length
      modifies `conns, `closed, `skip, `handed, sockets, rb, rb.data
      ensures Valid() && active == old(active)
      ensures ptr == NULL ==> skip == old(skip)
      ensures ptr != NULL ==> Alive(sockets[active]) && skip == old(skip) + size && ReturnsRead(ptr, size)
      ensures Elsewhere(old(conns), old(sockets[..]), conns, sockets[..], active, old(Evicted(size, input)))
      ensures GotMore(old(conns)[active], conns[active], input)
      ensures sockets[active].status.Closed? <==> input.Eof? || input.Failed? || active in old(Evicted(size, input))
      ensures sockets[active].status.Closed? ==> ptr == NULL
      ensures input.WouldBlock? && Alive(sockets[active]) ==>
        ptr == NULL && conns[active] == old(conns[active]) && sockets[active] == Paused(old(sockets[active]))
      ensures input.Got? && Alive(sockets[active]) ==>
        && conns[active].received == old(conns[active].received) + Accepted(input, size - rdSize)
        && (ptr != NULL <==> |Accepted(input, size - rdSize)| >= size - rdSize)
        && sockets[active].status == if ptr == NULL then Suspend else Read
    {
      hide RB.TextOf, Layout.LiveBlocks, Layout.LiveStarts, Layout.Arranged, Text, HandedOk, ClosedCount,
           Filter, AllOk, IsChain, InStep, Owns, RB.NotOwnedBy, Layout.FreshAt, Layout.Newest, Evictions,
           Evict, Elsewhere, EvictedByPull, Grew, EvictedByCopy, Accepted, Placed;
      var sz := size - rdSize;
      var rd := if READBLOCKSIZE < sz then sz else READBLOCKSIZE;
      BlockSizeFits(rd, size, rb.data.Length);
      ghost var s, c := SpaceOf(rb), conns[active];
      ghost var e := EvictedFor(rd);
      var blk := AllocEvicting(rd);
      ghost var conns1, socks1 := conns, sockets[..];
      SomeEvicted(old(conns), old(sockets[..]), conns, sockets[..], active, e.ids);
      if blk == NULL {
        PullEnds(s, c, active, skip, size, input);
        return NULL;
      }
      PullGoesOn(s, c, active, skip, size, input, blk, SpaceOf(rb));
      ghost var more := EvictedAfter(blk, input, size, sz);
      PlacedHead(e.space, rd, blk, SpaceOf(rb));
      ptr := Receive(blk, rd, size, sz, input);
      NowElsewhere(old(conns), old(sockets[..]), conns1, socks1, conns, sockets[..], active, e.ids, more);
    }

    /** What mread_pull does with the outcome of recv into block blk. */
    method Receive(blk: nat, rd: nat, size: nat, sz: nat, input: Recv) returns (ptr: int)
      requires Valid() && active >= 0 && Alive(sockets[active]) && (input.Got? ==> input.bytes != [])
      requires rb.Fresh(blk, rd) && rd == ReadSize(sz)
      requires rb.head == Layout.Wrapped(blk + Align(HEADER + rd), rb.data.Length)
      requires sz == size - RB.Min(size, |conns[active].received| - conns[active].consumed - skip)
      requires Align(HEADER + size) <= rb.data.Length
      modifies `conns, `closed, `skip, `handed, sockets, rb, rb.data
      ensures Valid() && active == old(active)
      ensures ptr == NULL ==> skip == old(skip)
      ensures ptr != NULL ==> Alive(sockets[active]) && skip == old(skip) + size && ReturnsRead(ptr, size)
      ensures Elsewhere(old(conns), old(sockets[..]), conns, sockets[..], active,
                        old(EvictedAfter(blk, input, size, sz)))
      ensures GotMore(old(conns)[active], conns[active], input)
      ensures sockets[active].status.Closed? <==>
        input.Eof? || input.Failed? || active in old(EvictedAfter(blk, input, size, sz))
      ensures sockets[active].status.Closed? ==> ptr == NULL
      ensures input.WouldBlock? ==>
        ptr == NULL && conns[active] == old(conns[active]) && sockets[active] == Paused(old(sockets[active]))
      ensures input.Got? && Alive(sockets[active]) ==>
        && conns[active].received == old(conns[active].received) + Accepted(input, sz)
        && (ptr != NULL <==> |Accepted(input, sz)| >= sz)
        && sockets[active].status == if ptr == NULL then Suspend else Read
    {
      hide RB.TextOf, Layout.LiveBlocks, Layout.LiveStarts, Layout.Arranged, Text, HandedOk, ClosedCount,
           Filter, AllOk, IsChain, InStep, Owns, RB.NotOwnedBy, Layout.FreshAt, Layout.Newest, Evictions,
           Evict, Elsewhere, EvictedByCopy, Grew;
      match input {
        case Got(available) =>
          var bytes := if |available| < rd then available else available[..rd];
          PrefixGot(conns[active], conns[active], blk, bytes, input);
          ptr := Deliver(blk, bytes, rd, size, sz, input);
        case WouldBlock =>
          rb.Shrink(blk, 0, rd);
          SetStatus(Suspend);
          ptr := NULL;
          OneChanged(old(conns), old(sockets[..]), conns, sockets[..], active);
        case _ =>
          rb.Shrink(blk, 0, rd);
          CloseActive();
          ptr := NULL;
          OneChanged(old(conns), old(sockets[..]), conns, sockets[..], active);
      }
    }

    /** Who is evicted once recv reported its outcome for block blk. */
    ghost function EvictedAfter(blk: nat, input: Recv, size: nat, sz: nat): seq<int>
      requires 0 <= active < |conns|
      reads this, rb, rb.data
    {
      EvictedAfterRecv(SpaceOf(rb), conns[active], active, skip, size, input, sz, blk)
    }

    /** What mread_pull does with the bytes of a successful recv. */
    method Deliver(blk: nat, bytes: seq<Byte>, rd: nat, size: nat, sz: nat, ghost input: Recv) returns (ptr: int)
      requires Valid() && active >= 0 && Alive(sockets[active])
      requires rb.Fresh(blk, rd) && 0 < |bytes| <= rd
      requires rb.head == Layout.Wrapped(blk + Align(HEADER + rd), rb.data.Length)
      requires sz == size - RB.Min(size, |conns[active].received| - conns[active].consumed - skip)
      requires Align(HEADER + size) <= rb.data.Length && input.Got? && bytes == Accepted(input, sz)
      modifies `conns, `closed, `skip, `handed, sockets, rb, rb.data
      ensures Valid() && active == old(active)
      ensures ptr == NULL ==> skip == old(skip)
      ensures ptr != NULL ==> Alive(sockets[active]) && skip == old(skip) + size && ReturnsRead(ptr, size)
      ensures Elsewhere(old(conns), old(sockets[..]), conns, sockets[..], active,
                        old(EvictedAfter(blk, input, size, sz)))
      ensures sockets[active].status.Closed? <==> active in old(EvictedAfter(blk, input, size, sz))
      ensures Alive(sockets[active]) ==>
        (ptr != NULL <==> |bytes| >= sz) && sockets[active].status == if ptr == NULL then Suspend else Read
      ensures SameStream(WithData(old(conns)[active], blk, bytes), conns[active])
      ensures sockets[active].status.Closed? ==> ptr == NULL
    {
      hide RB.TextOf, Layout.LiveBlocks, Layout.LiveStarts, Layout.Arranged, Text, HandedOk, ClosedCount,
           Filter, AllOk, IsChain, InStep, Owns, RB.NotOwnedBy, Layout.FreshAt, Layout.Newest, Evictions,
           EvictedByCopy, Grew, Elsewhere;
      var enough := Take(blk, bytes, rd, sz <= |bytes|);
      ghost var conns2, socks2 := conns, sockets[..];
      OneChanged(old(conns), old(sockets[..]), conns, sockets[..], active);
      if |bytes| < sz {
        return NULL;
      }
      ghost var ids := EvictedToCopy(size);
      ptr := HandOut(size);
      NowElsewhere(old(conns), old(sockets[..]), conns2, socks2, conns, sockets[..], active, [], ids);
      assert [] + ids == ids;
    }

    /** A successful recv: the block shrinks to what came and joins the chain. */
    method Take(blk: nat, bytes: seq<Byte>, rd: nat, enough: bool) returns (done: bool)
      requires Valid() && active >= 0 && Alive(sockets[active])
      requires rb.Fresh(blk, rd) && 0 < |bytes| <= rd
      requires rb.head == Layout.Wrapped(blk + Align(HEADER + rd), rb.data.Length)
      modifies sockets, rb, rb.data, `conns
      ensures Valid() && done == enough
      ensures conns == old(conns)[active := WithData(old(conns)[active], blk, bytes)]
      ensures Alive(sockets[active]) && sockets[..] == old(sockets[..])[active := sockets[active]]
      ensures sockets[active].status == if enough then Read else Suspend
      ensures SpaceOf(rb) == Grew(old(SpaceOf(rb)), old(conns)[active], active, blk, bytes)
    {
      hide RB.TextOf, Layout.LiveBlocks, Layout.LiveStarts, Layout.Arranged, Text, HandedOk, ClosedCount,
           AllOk, IsChain, InStep, Owns, RB.NotOwnedBy, Layout.FreshAt, Layout.Newest, Evictions, Grown, Grew,
           Layout.Wrapped, RB.Ringbuffer.Fresh, Accepted, WithData;
      FreshFits(rb, blk, rd);
      ghost var s, c := SpaceOf(rb), conns[active];
      rb.Receive(blk, bytes, rd);
      rb.Shrink(blk, |bytes|, rd);
      LinkNode(blk, bytes);
      SetStatus(if enough then Read else Suspend);
      GrewByTake(s, c, active, blk, bytes, rd, SpaceOf(rb));
      done := enough;
    }

    /** Who is evicted to hand out the next n bytes, which have arrived. */
    ghost function EvictedToCopy(n: nat): seq<int>
      requires 0 <= active < |conns|
      reads this, rb, rb.data
    {
      EvictedByCopy(SpaceOf(rb), conns[active], active, skip, n)
    }

    /** The end of mread_pull: the bytes are there, in one block or across several. */
    method HandOut(size: nat) returns (ptr: int)
      requires Valid() && active >= 0 && Alive(sockets[active])
      requires conns[active].consumed + skip < |conns[active].received|
      requires conns[active].consumed + skip + size <= |conns[active].received|
      requires Align(HEADER + size) <= rb.data.Length
      modifies `conns, `closed, `skip, `handed, sockets, rb, rb.data
      ensures Valid() && active == old(active)
      ensures ptr == NULL <==> active in old(EvictedToCopy(size))
      ensures ptr == NULL ==> skip == old(skip) && sockets[active].status.Closed?
      ensures ptr != NULL ==> Alive(sockets[active]) && skip == old(skip) + size && ReturnsRead(ptr, size)
      ensures ptr != NULL ==> sockets[active].status == old(sockets[active].status)
      ensures Elsewhere(old(conns), old(sockets[..]), conns, sockets[..], active, old(EvictedToCopy(size)))
      ensures SameStream(old(conns)[active], conns[active])
    {
      hide RB.TextOf, Layout.LiveBlocks, Layout.LiveStarts, Layout.Arranged, Text, HandedOk, ClosedCount,
           RB.InOneBlock, AllOk, IsChain, InStep, Owns, RB.NotOwnedBy, Layout.FreshAt, Layout.Newest,
           Evictions, Emptied, Evict;
      ghost var blk;
      var rd;
      rd, ptr, blk := RingbufferRead(size);
      if ptr != NULL {
        Advance(blk, ptr, size);
        return;
      }
      assert rd == size;
      ptr := CopyOut(size);
    }

    /** self->skip += size, for bytes that lie in one block. */
    method Advance(ghost blk: nat, ptr: int, size: nat)
      requires Valid() && active >= 0 && Alive(sockets[active]) && Delivers(blk, ptr, size)
      modifies `skip, `handed
      ensures Valid() && skip == old(skip) + size && ReturnsRead(ptr, size)
    {
      hide RB.TextOf, Layout.LiveBlocks, Layout.LiveStarts, Layout.Arranged, Text, HandedOk, ClosedCount,
           AllOk, IsChain, InStep, Owns, RB.NotOwnedBy, Layout.FreshAt, Layout.Newest, Evictions;
      ghost var p := Piece(blk, ptr - blk - HEADER, rb.data[ptr..ptr + size]);
      HeldPiece(rb, conns[active], blk, ptr, size);
      HandOver(rb.Live(), conns[active], handed, p);
      handed := handed + [p];
      skip := skip + size;
    }

    /** The next n unread bytes lie in one block. */
    ghost predicate Contiguous(n: nat)
      requires Valid() && active >= 0
      reads this, sockets, rb, rb.data
    {
      RB.InOneBlock(rb.Live(), conns[active].chain, skip, n)
    }

    /** How many of the next n bytes have not arrived yet. */
    ghost function Missing(n: nat): int
      requires active >= 0 && active < |conns|
      reads this
    {
      n - RB.Min(n, |conns[active].received| - conns[active].consumed - skip)
    }

    /** mread_pull: either the next `size` unread bytes of the active connection, or NULL. */
    method Pull(size: nat, input: Recv) returns (ptr: int)
      requires Valid() && Align(HEADER + size) <= rb.data.Length
      requires input.Got? ==> input.bytes != []
      modifies `conns, `closed, `skip, `handed, sockets, rb, rb.data
      ensures Valid() && active == old(active)
      ensures ptr == NULL ==> skip == old(skip)
      ensures ptr != NULL ==>
        active >= 0 && Alive(sockets[active]) && skip == old(skip) + size && ReturnsRead(ptr, size)
      ensures active == -1 ==> ptr == NULL && conns == old(conns) && sockets[..] == old(sockets[..])
      ensures active >= 0 ==> GotMore(old(conns)[active], conns[active], input)
      ensures active >= 0 && ptr == NULL ==> sockets[active].status.Suspend? || sockets[active].status.Closed?
      ensures active >= 0 && old(Contiguous(size)) ==>
        ptr != NULL && conns == old(conns) && sockets[..] == old(sockets[..])
      ensures active >= 0 && !old(Contiguous(size)) && !old(sockets[active].status.PollIn?) ==>
        && ptr == NULL && conns == old(conns)
        && sockets[..] == old(sockets[..])[active := Paused(old(sockets[active]))]
      ensures active >= 0 && !old(Contiguous(size)) && old(sockets[active].status.PollIn?) ==>
        && Elsewhere(old(conns), old(sockets[..]), conns, sockets[..], active, old(Evicted(size, input)))
        && (sockets[active].status.Closed? <==>
             input.Eof? || input.Failed? || active in old(Evicted(size, input)))
        && (input.WouldBlock? && Alive(sockets[active]) ==>
             ptr == NULL && conns[active] == old(conns[active]) && sockets[active] == Paused(old(sockets[active])))
        && (input.Got? && Alive(sockets[active]) ==> (
             && conns[active].received == old(conns[active].received) + Accepted(input, old(Missing(size)))
             && (ptr != NULL <==> |Accepted(input, old(Missing(size)))| >= old(Missing(size)))
             && sockets[active].status == if ptr == NULL then Suspend else Read))
    {
      hide RB.TextOf, Layout.LiveBlocks, Layout.LiveStarts, Layout.Arranged, Text, HandedOk, ClosedCount,
           EvictedByPull, AllOk, IsChain, InStep, Owns, RB.NotOwnedBy, Layout.FreshAt, Layout.Newest,
           Evictions, Elsewhere, Accepted;
      if active == -1 {
        return NULL;
      }
      ghost var blk;
      var rdSize;
      rdSize, ptr, blk := RingbufferRead(size);
      if ptr != NULL {
        Advance(blk, ptr, size);
        return;
      }
      if sockets[active].status.Read? {
        SetStatus(Suspend);
        return NULL;
      }
      if !sockets[active].status.PollIn? {
        return NULL;
      }
      ptr := Fetch(size, rdSize, input);
    }

    // ---------- between pulls

    /** mread_yield: what was handed out is consumed; a closed connection's slot becomes unused. */
    method Yield()
      requires Valid()
      modifies `conns, `closed, `skip, `handed, `active, sockets, rb.data
      ensures Valid()
      ensures old(active) == -1 ==> active == -1 && conns == old(conns) && sockets[..] == old(sockets[..])
      ensures old(active) >= 0 ==>
        && skip == 0
        && conns == old(conns)[old(active) := conns[old(active)]]
        && sockets[..] == old(sockets[..])[old(active) := sockets[old(active)]]
        && conns[old(active)].received == old(conns[active].received)
        && conns[old(active)].temp == [] && handed == []
      ensures old(active) >= 0 && old(Alive(sockets[active])) ==>
        && sockets[old(active)].status == old(sockets[active].status)
        && conns[old(active)].consumed == old(conns[active].consumed + skip)
        && active == (if conns[old(active)].chain == [] then -1 else old(active))
        && NotUsedUp(conns[old(active)].chain)
      ensures old(active) >= 0 && old(sockets[active].status.Closed?) ==>
        sockets[old(active)].status.Invalid? && active == -1 && closed == old(closed) - 1
    {
      hide RB.TextOf, Layout.LiveBlocks, Layout.LiveStarts, Layout.Arranged, Text, HandedOk, ClosedCount,
           AllOk, IsChain, InStep, Owns, RB.NotOwnedBy, Layout.FreshAt, Layout.Newest, Evictions;
      if active == -1 {
        return;
      }
      FreeCopies();
      OkAt(rb.Live(), conns, sockets[..], active);
      if sockets[active].status.Closed? && sockets[active].node == NULL {
        Recycle();
      } else {
        YieldData();
      }
    }

    /** The chain starts with a block that still has bytes to hand out. */
    ghost predicate NotUsedUp(chain: seq<nat>)
      reads rb, rb.data
    {
      chain != [] ==> chain[0] in rb.Live() && Unread(rb.Live()[chain[0]]) != []
    }

    method FreeCopies()
      requires Valid() && active >= 0
      modifies sockets, rb.data, `conns, `handed
      ensures Valid() && handed == []
      ensures conns == old(conns)[active := old(conns)[active].(temp := [])]
      ensures sockets[..] == old(sockets[..])[active := old(sockets[active]).(temp := NULL)]
    {
      hide RB.TextOf, Layout.LiveBlocks, Layout.LiveStarts, Layout.Arranged, Text, HandedOk, ClosedCount,
           AllOk, IsChain, InStep, Owns, RB.NotOwnedBy, Layout.FreshAt, Layout.Newest, Evictions;
      ghost var live, c, socks := rb.Live(), conns[active], sockets[..];
      OkAt(live, conns, socks, active);
      DropCopies(live, conns, socks, active);
      rb.Free(sockets[active].temp, c.temp, active);
      ClosedCountUpdate(socks, active, sockets[active].(temp := NULL));
      sockets[active] := sockets[active].(temp := NULL);
      assert sockets[..] == socks[active := socks[active].(temp := NULL)];
      conns := conns[active := c.(temp := [])];
      handed := [];
      NothingHanded(rb.Live(), conns[active]);
    }

    method Recycle()
      requires Valid() && active >= 0 && sockets[active].status.Closed?
      modifies `closed, `skip, `active, sockets
      ensures Valid() && active == -1 && skip == 0 && conns == old(conns) && closed == old(closed) - 1
      ensures sockets[..] == old(sockets[..])[old(active) := old(sockets[active]).(status := Invalid)]
    {
      hide RB.TextOf, Layout.LiveBlocks, Layout.LiveStarts, Layout.Arranged, Text, HandedOk, ClosedCount,
           AllOk, IsChain, InStep, Owns, RB.NotOwnedBy, Layout.FreshAt, Layout.Newest, Evictions;
      ghost var socks := sockets[..];
      StatusKeepsOk(rb.Live(), conns, socks, active, Invalid);
      ClosedCountUpdate(socks, active, sockets[active].(status := Invalid));
      CountedClosed(socks, active);
      closed := closed - 1;
      sockets[active] := sockets[active].(status := Invalid);
      assert sockets[..] == socks[active := socks[active].(status := Invalid)];
      skip := 0;
      active := -1;
    }

    method YieldData()
      requires Valid() && active >= 0 && Alive(sockets[active]) && conns[active].temp == [] && handed == []
      modifies `conns, `skip, `active, sockets, rb.data
      ensures Valid() && skip == 0
      ensures conns == old(conns)[old(active) := conns[old(active)]]
      ensures conns[old(active)].received == old(conns[active].received)
      ensures conns[old(active)].consumed == old(conns[active].consumed + skip)
      ensures sockets[..] == old(sockets[..])[old(active) := old(sockets[active]).(node := sockets[old(active)].node)]
      ensures active == if conns[old(active)].chain == [] then -1 else old(active)
      ensures conns[old(active)].temp == [] && handed == [] && NotUsedUp(conns[old(active)].chain)
    {
      hide RB.TextOf, Layout.LiveBlocks, Layout.LiveStarts, Layout.Arranged, Text, ClosedCount, AllOk,
           IsChain, Owns, RB.NotOwnedBy;
      ghost var live, c, socks := rb.Live(), conns[active], sockets[..];
      OkAt(live, conns, socks, active);
      if sockets[active].node != NULL {
        var n, i := rb.Yield(sockets[active].node, skip, c.chain, active);
        AdvanceKeepsOk(live, rb.Live(), conns, socks, active, skip, i);
        ClosedCountUpdate(socks, active, sockets[active].(node := n));
        sockets[active] := sockets[active].(node := n);
        assert sockets[..] == socks[active := socks[active].(node := n)];
        conns := conns[active := c.(chain := c.chain[i..], consumed := c.consumed + skip)];
      } else {
        NoUnread(live, c);
      }
      skip := 0;
      if sockets[active].node == NULL {
        active := -1;
      }
    }

    /** The next event is looked at only when the active connection has no data left over and no closed
        connection is to be reported. */
    ghost predicate TakesEvent()
      reads this, sockets
      requires -1 <= active < sockets.Length
    {
      closed == 0 && (active >= 0 ==> !sockets[active].status.Read?)
    }

    /** The events at hand, or those that epoll_wait reports, if it does not fail. */
    function Upcoming(fetched: Option<seq<Event>>): seq<Event>
      reads `queue
    {
      if queue != [] then queue else if fetched.Some? then fetched.value else []
    }

    /** For each event that the loop of mread_poll may take, the slot of the client that it brings, if it
        is one on the listening socket, or -1 if accept or epoll_ctl fails or every slot is used. */
    ghost predicate SlotsFor(events: seq<Event>, slots: seq<int>)
      reads sockets
    {
      && |slots| == |events|
      && (forall k :: 0 <= k < |slots| ==>
          -1 <= slots[k] < sockets.Length && (slots[k] >= 0 ==> sockets[slots[k]].status.Invalid?))
      && (forall j, k :: 0 <= j < k < |slots| && slots[k] >= 0 ==> slots[j] != slots[k])
    }

    /** mread_poll: `fetched` is what epoll_wait would report. What was not yielded will be handed out
        again. Clients are accepted up to the first event for a connection, which is at `at`. If its slot
        is unused, it is marked as readable as if a client had been accepted there; all other connections
        and their data stay as they are. */
    method Poll(fetched: Option<seq<Event>>, slots: seq<int>) returns (id: int, at: nat)
      requires Valid() && (fetched.Some? ==> InRange(fetched.value)) && SlotsFor(Upcoming(fetched), slots)
      modifies `skip, `handed, `active, `queue, `conns, sockets
      ensures Valid() && skip == 0 && -1 <= id == active < sockets.Length
      ensures old(active) >= 0 && old(sockets[active].status.Read?) ==> id == old(active)
      ensures !(old(active) >= 0 && old(sockets[active].status.Read?)) && closed > 0 ==>
        id >= 0 && FirstClosed(sockets[..], id)
      ensures !old(TakesEvent()) ==> queue == old(queue) && sockets[..] == old(sockets[..]) && conns == old(conns)
      ensures old(TakesEvent()) ==>
        && FirstReady(old(Upcoming(fetched)), at)
        && Taken(old(Upcoming(fetched)), at, slots, old(conns), old(sockets[..]))
    {
      hide RB.TextOf, Layout.LiveBlocks, Layout.LiveStarts, Layout.Arranged, Text, HandedOk, ClosedCount,
           AllOk, IsChain, InStep, Owns, RB.NotOwnedBy, Layout.FreshAt, Layout.Newest, Evictions, Taken,
           FirstReady;
      skip, at := 0, 0;
      handed := [];
      if active >= 0 {
        NothingHanded(rb.Live(), conns[active]);
        if sockets[active].status.Read? {
          return active, at;
        }
      }
      if closed > 0 {
        active := ReportClosed();
        return active, at;
      }
      if queue == [] && fetched.Some? {
        queue := fetched.value;
      }
      assert queue == old(Upcoming(fetched)) && sockets[..] == old(sockets[..]);
      id, at := TakeEvents(slots);
    }

    /** What is true after the events up to the one at `at`: clients were accepted, and the connection
        that this one is for, if there is one, is to be read. */
    ghost predicate Taken(q: seq<Event>, at: nat, slots: seq<int>, conns0: seq<Conn>, sockets0: seq<Socket>)
      reads this, sockets
      requires at <= |q| == |slots|
    {
      var socks, cs := WithClients(sockets0, slots[..at]), WithStreams(conns0, slots[..at]);
      if at == |q| then active == -1 && queue == [] && sockets[..] == socks && conns == cs
      else
        && q[at].Ready? && active == q[at].slot < |socks| && |cs| == |socks| && queue == q[at + 1..]
        && sockets[..] == socks[active := socks[active].(status := PollIn)]
        && conns == if socks[active].status.Invalid? then cs[active := NO_DATA] else cs
    }

    /** The loop of mread_poll. */
    method TakeEvents(slots: seq<int>) returns (id: int, at: nat)
      requires Valid() && closed == 0 && skip == 0 && handed == [] && SlotsFor(queue, slots)
      modifies `active, `queue, `conns, sockets
      ensures Valid() && -1 <= id == active < sockets.Length && FirstReady(old(queue), at)
      ensures Taken(old(queue), at, slots, old(conns), old(sockets[..]))
    {
      hide RB.TextOf, Layout.LiveBlocks, Layout.LiveStarts, Layout.Arranged, Text, HandedOk, ClosedCount,
           AllOk, IsChain, InStep, Owns, RB.NotOwnedBy, Layout.FreshAt, Layout.Newest, Evictions, WithClients,
           WithStreams;
      ghost var q, socks, cs := queue, sockets[..], conns;
      at := 0;
      NoClients(socks, cs);
      while queue != []
        invariant Valid() && active == old(active) && at <= |q| && queue == q[at..]
        invariant sockets[..] == WithClients(socks, slots[..at]) && conns == WithStreams(cs, slots[..at])
        invariant SlotsFor(queue, slots[at..])
        invariant forall j :: 0 <= j < at ==> q[j].Listening?
        decreases |q| - at
      {
        var event := queue[0];
        assert event in queue && event == q[at];
        queue := queue[1..];
        match event {
          case Listening =>
            OneMoreClient(socks, cs, slots, at);
            assert slots[at..][1..] == slots[at + 1..];
            if slots[at] >= 0 {
              Admit(queue, slots[at..]);
            }
          case Ready(ready) =>
            Mark(ready);
            return ready, at;
        }
        at := at + 1;
      }
      active := -1;
      id := -1;
    }

    /** A client is accepted into the first slot. */
    method Admit(ghost rest: seq<Event>, slots: seq<int>)
      requires Valid() && slots != [] && slots[0] >= 0 && SlotsFor([Listening] + rest, slots)
      modifies sockets, `conns
      ensures Valid() && SlotsFor(rest, slots[1..])
      ensures conns == old(conns)[slots[0] := NO_DATA]
      ensures sockets[..] == old(sockets[..])[slots[0] := NEW_SOCKET]
    {
      hide RB.TextOf, Layout.LiveBlocks, Layout.LiveStarts, Layout.Arranged, Text, HandedOk, ClosedCount,
           AllOk, IsChain, InStep, Owns, RB.NotOwnedBy, Layout.FreshAt, Layout.Newest, Evictions;
      Accept(slots[0]);
      assert forall k :: 0 <= k < |slots[1..]| ==> slots[1..][k] == slots[k + 1];
    }

    /** What mread_poll does with an event for a connection. */
    method Mark(id: nat)
      requires Valid() && id < sockets.Length && closed == 0 && skip == 0 && handed == []
      modifies `active, `conns, sockets
      ensures Valid() && active == id
      ensures sockets[..] == old(sockets[..])[id := old(sockets[id]).(status := PollIn)]
      ensures conns == if old(sockets[id].status.Invalid?) then old(conns)[id := NO_DATA] else old(conns)
    {
      hide RB.TextOf, Layout.LiveBlocks, Layout.LiveStarts, Layout.Arranged, Text, HandedOk, ClosedCount,
           AllOk, IsChain, InStep, Owns, RB.NotOwnedBy, Layout.FreshAt, Layout.Newest, Evictions;
      ghost var socks := sockets[..];
      active := id;
      if sockets[id].status.Invalid? {
        MarkUnused(rb.Live(), conns, socks, id);
        conns := conns[id := NO_DATA];
      } else {
        MarkKeepsOk(rb.Live(), conns, socks, id);
      }
      ClosedCountUpdate(socks, id, sockets[id].(status := PollIn));
      sockets[id] := sockets[id].(status := PollIn);
      assert sockets[..] == socks[id := socks[id].(status := PollIn)];
    }

    /** An event for an unused slot: it was fetched together with another, in whose course its connection was evicted;
        that was reported and yielded, so the slot is unused when the event is taken. */
    method StaleEvent(id: nat) returns (polled: int)
      requires Valid() && active == id && sockets[id].status.Closed? && closed == 1
      requires queue != [] && queue[0] == Ready(id)
      modifies `conns, `closed, `skip, `handed, `active, `queue, sockets, rb.data
      ensures Valid() && polled == id && active == id && sockets[id].status.PollIn?
      ensures forall i :: 0 <= i < sockets.Length && i != id ==>
        sockets[i] == old(sockets[i]) && conns[i] == old(conns[i])
    {
      hide RB.TextOf, Layout.LiveBlocks, Layout.LiveStarts, Layout.Arranged, Text, HandedOk, ClosedCount,
           AllOk, IsChain, InStep, Owns, RB.NotOwnedBy, Layout.FreshAt, Layout.Newest, Evictions;
      Yield();
      assert queue[0] in queue;
      var at;
      polled, at := Poll(None, seq(|queue|, _ => -1));
    }

    /** _report_closed */
    method ReportClosed() returns (i: nat)
      requires Valid() && closed > 0
      ensures FirstClosed(sockets[..], i)
    {
      hide RB.TextOf, Layout.LiveBlocks, Layout.LiveStarts, Layout.Arranged, Text, HandedOk, ClosedCount,
           AllOk, IsChain, InStep, Owns, RB.NotOwnedBy, Layout.FreshAt, Layout.Newest, Evictions;
      ghost var goal := SomeClosed(sockets[..]);
      i := 0;
      while !sockets[i].status.Closed?
        invariant i <= goal && forall j :: 0 <= j < i ==> !sockets[j].status.Closed?
        decreases goal - i
      {
        i := i + 1;
      }
    }

    /** The state part of _add_client. */
    method Accept(id: nat)
      requires Valid() && id < sockets.Length && sockets[id].status.Invalid?
      modifies sockets, `conns
      ensures Valid()
      ensures conns == old(conns)[id := NO_DATA]
      ensures sockets[..] == old(sockets[..])[id := NEW_SOCKET]
    {
      hide RB.TextOf, Layout.LiveBlocks, Layout.LiveStarts, Layout.Arranged, Text, HandedOk, ClosedCount,
           AllOk, IsChain, InStep, Owns, RB.NotOwnedBy, Layout.FreshAt, Layout.Newest, Evictions;
      ghost var socks := sockets[..];
      AcceptKeepsOk(rb.Live(), conns, socks, id);
      ClosedCountUpdate(socks, id, Socket(Suspend, NULL, NULL));
      sockets[id] := Socket(Suspend, NULL, NULL);
      assert sockets[..] == socks[id := Socket(Suspend, NULL, NULL)];
      conns := conns[id := NO_DATA];
    }

    /** Every piece handed out since the last poll or yield is still in place. */
    lemma HandedStillThere(i: nat)
      requires Valid() && active >= 0 && Alive(sockets[active]) && i < |handed|
      ensures handed[i].Ptr() + |handed[i].bytes| <= rb.data.Length
      ensures rb.data[handed[i].Ptr()..handed[i].Ptr() + |handed[i].bytes|] == handed[i].bytes
    {
      hide RB.TextOf, Layout.LiveBlocks, Layout.LiveStarts, Layout.Arranged, ClosedCount, AllOk, Owns;
      var p := handed[i];
      RB.BodyBytes(rb.data[..], rb.R(), p.blk);
      var n := |rb.Live()[p.blk].body|;
      RB.SliceWithin(rb.data[..], p.blk + HEADER, p.blk + HEADER + n, p.off, |p.bytes|);
      assert rb.data[..][p.Ptr()..p.Ptr() + |p.bytes|] == rb.data[p.Ptr()..p.Ptr() + |p.bytes|];
    }
  }

  /** The status of a connection that waits for more. */
  ghost function Paused(s: Socket): Socket { if s.status.Closed? then s else s.(status := Suspend) }

  // ---------- who is evicted, from the state before

  /** A block was received into `at` and joined the chain of connection id. */
  ghost function Grew(s: Space, c: Conn, id: nat, at: nat, bytes: seq<Byte>): Space {
    Space(Layout.Wrapped(at + Align(HEADER + |bytes|), s.size),
          Grown(s.live, c.chain, at, Block(id, -1, 0, bytes)), s.order + [at], s.size)
  }

  /** To hand out n bytes after `skip` that span blocks, a block is allocated for them. */
  ghost function EvictedByCopy(s: Space, c: Conn, id: nat, skip: nat, n: nat): seq<int> {
    if RB.InOneBlock(s.live, c.chain, skip, n) then [] else Evict(s, Align(HEADER + n), id).ids
  }

  /** Once recv reported its outcome for the block at `at`: if what it brought suffices, and spans
      blocks, another block is allocated. */
  ghost function EvictedAfterRecv(s: Space, c: Conn, id: nat, skip: nat, n: nat, input: Recv, missing: int,
                                  at: nat): seq<int> {
    var bytes := Accepted(input, missing);
    if !input.Got? || |bytes| < missing then []
    else EvictedByCopy(Grew(s, c, id, at, bytes), WithData(c, at, bytes), id, skip, n)
  }

  /** First a block is allocated for recv. */
  ghost function EvictedByPull(s: Space, c: Conn, id: nat, skip: nat, n: nat, input: Recv): seq<int> {
    var missing := n - RB.Min(n, |c.received| - c.consumed - skip);
    var room := Align(HEADER + ReadSize(missing));
    var e := Evict(s, room, id);
    var at := Layout.PlaceFor(e.space.live, e.space.head, room, e.space.size);
    if id in e.ids then e.ids
    else e.ids + EvictedAfterRecv(e.space, c, id, skip, n, input, missing, at)
  }

  lemma PullEnds(s: Space, c: Conn, id: nat, skip: nat, n: nat, input: Recv)
    ensures var missing := n - RB.Min(n, |c.received| - c.consumed - skip);
      var e := Evict(s, Align(HEADER + ReadSize(missing)), id);
      id in e.ids ==> EvictedByPull(s, c, id, skip, n, input) == e.ids
  {
    hide Evict, EvictedAfterRecv;
  }

  lemma PullGoesOn(s: Space, c: Conn, id: nat, skip: nat, n: nat, input: Recv, at: nat, s': Space)
    requires var missing := n - RB.Min(n, |c.received| - c.consumed - skip);
      var e := Evict(s, Align(HEADER + ReadSize(missing)), id);
      id !in e.ids && Placed(e.space, ReadSize(missing), at, s')
    ensures var missing := n - RB.Min(n, |c.received| - c.consumed - skip);
      var e := Evict(s, Align(HEADER + ReadSize(missing)), id);
      EvictedByPull(s, c, id, skip, n, input) == e.ids + EvictedAfterRecv(s', c, id, skip, n, input, missing, at)
  {
    hide Evict, EvictedByCopy, Grown, Accepted;
    var missing := n - RB.Min(n, |c.received| - c.consumed - skip);
    var e := Evict(s, Align(HEADER + ReadSize(missing)), id);
    assert Grew(e.space, c, id, at, Accepted(input, missing)) == Grew(s', c, id, at, Accepted(input, missing));
  }

  lemma PlacedHead(s: Space, n: nat, at: nat, s': Space)
    requires Placed(s, n, at, s')
    ensures s'.head == Layout.Wrapped(at + Align(HEADER + n), s'.size)
  {
  }

  /** The size of the block for recv. */
  ghost function ReadSize(missing: int): nat { if READBLOCKSIZE < missing then missing else READBLOCKSIZE }

  lemma FreshFits(rb: RB.Ringbuffer, b: nat, n: nat)
    requires rb.Valid() && rb.Fresh(b, n)
    ensures b + Align(HEADER + n) <= rb.data.Length
  {
    hide Layout.Arranged;
    RB.NewestMember(rb.data[..], rb.R(), b);
    RB.FreshLen(rb.data[..], b, n);
    Layout.BlockFits(rb.data[..], rb.R(), b);
  }

  lemma GrewByTake(s: Space, c: Conn, id: nat, at: nat, bytes: seq<Byte>, rd: nat, s': Space)
    requires |bytes| <= rd && at + Align(HEADER + rd) <= s.size == s'.size
    requires s.head == Layout.Wrapped(at + Align(HEADER + rd), s.size)
    requires s'.head == if Align(HEADER + |bytes|) < Align(HEADER + rd) then at + Align(HEADER + |bytes|) else s.head
    requires s'.live == Grown(s.live, c.chain, at, Block(id, -1, 0, bytes)) && s'.order == s.order + [at]
    ensures s' == Grew(s, c, id, at, bytes)
  {
    hide Grown;
    ShorterBlock(|bytes|, rd, at, s.size);
  }

  lemma ShorterBlock(n: nat, rd: nat, at: nat, size: nat)
    requires n <= rd && at + Align(HEADER + rd) <= size
    ensures Align(HEADER + n) <= Align(HEADER + rd)
    ensures Align(HEADER + n) < Align(HEADER + rd) ==>
      Layout.Wrapped(at + Align(HEADER + n), size) == at + Align(HEADER + n)
  {
  }

  lemma NobodyEvicted(conns: seq<Conn>, sockets: seq<Socket>)
    requires |conns| == |sockets|
    ensures Evictions(conns, sockets, conns, sockets, [])
  {
  }

  /** One owner more is gone. */
  lemma OneRound(gone: seq<int>, s: Space, n: nat, id: int)
    requires !HasRoomFor(s, n) && s.order != [] && s.order[0] in s.live
    ensures var oldest := s.live[s.order[0]].id; var rest, all := Without(s, oldest), Evict(s, n, id);
      && (oldest == id ==> gone + all.ids == gone + [oldest] && all.space == rest)
      && (oldest != id ==> gone + all.ids == (gone + [oldest]) + Evict(rest, n, id).ids
                           && all.space == Evict(rest, n, id).space)
  {
    hide Evict, Without, HasRoomFor;
    var oldest := s.live[s.order[0]].id;
    EvictStep(s, n, id);
    var more := Evict(Without(s, oldest), n, id).ids;
    assert gone + ([oldest] + more) == (gone + [oldest]) + more;
  }

  lemma SettledAlready(s: Space, s': Space)
    requires s' == s.(head := Layout.Settled(s.live, s.head))
    ensures forall id :: Without(s', id) == Without(s, id)
    ensures forall id :: Without(s, id).size == s.size
  {
    hide Without;
    SettledTwice(s);
    SameSize(s);
  }

  lemma SameSize(s: Space)
    ensures forall id :: Without(s, id).size == s.size
  {
  }

  lemma EvictedNobody(conns: seq<Conn>, sockets: seq<Socket>, conns': seq<Conn>, sockets': seq<Socket>)
    ensures Evictions(conns, sockets, conns', sockets', []) ==> conns' == conns && sockets' == sockets
  {
  }

  lemma RoomForAll(s: Space, n: nat, id: int)
    ensures HasRoomFor(s, n) ==> Evict(s, n, id).ids == []
  {
  }

  lemma OldestInUse(rb: RB.Ringbuffer)
    requires rb.Order() != []
    ensures rb.Order()[0] in rb.Live() && rb.Live()[rb.Order()[0]].id >= 0
  {
    RB.OrderIsLive(rb.data[..], rb.R().Circ(), rb.Order()[0]);
  }

  lemma NothingMore(gone: seq<int>, s: Space, need: nat, id: int)
    requires HasRoomFor(s, need)
    ensures gone + Evict(s, need, id).ids == gone && Evict(s, need, id).space == s
  {
  }

  /** The bytes one recv of a block for `missing` bytes takes of what the kernel offers. */
  ghost function Accepted(input: Recv, missing: int): seq<Byte> {
    var rd := ReadSize(missing);
    if !input.Got? then [] else if |input.bytes| < rd then input.bytes else input.bytes[..rd]
  }

  /** recv may have added to the stream, but only bytes it reported. */
  ghost predicate GotMore(c: Conn, c': Conn, input: Recv) {
    && c'.consumed == c.consumed && c.received <= c'.received
    && (c'.received != c.received ==> input.Got? && c'.received[|c.received|..] <= input.bytes)
  }

  ghost predicate SameStream(c: Conn, c': Conn) {
    c'.consumed == c.consumed && c'.received == c.received
  }

  /** Of the connections other than `at` exactly `ids` were evicted, and the others left alone. */
  ghost predicate Elsewhere(conns: seq<Conn>, sockets: seq<Socket>, conns': seq<Conn>, sockets': seq<Socket>,
                            at: nat, ids: seq<int>) {
    && |conns| == |conns'| == |sockets| == |sockets'|
    && forall i :: 0 <= i < |conns| && i != at ==> EvictedIf(i in ids, conns[i], sockets[i], conns'[i], sockets'[i])
  }

  lemma SomeEvicted(conns: seq<Conn>, sockets: seq<Socket>, conns': seq<Conn>, sockets': seq<Socket>,
                    at: nat, ids: seq<int>)
    requires Evictions(conns, sockets, conns', sockets', ids) && at < |conns|
    ensures Elsewhere(conns, sockets, conns', sockets', at, ids)
    ensures EvictedIf(at in ids, conns[at], sockets[at], conns'[at], sockets'[at])
    ensures SameStream(conns[at], conns'[at])
  {
  }

  lemma StillElsewhere(conns: seq<Conn>, sockets: seq<Socket>, mid: seq<Conn>, socks: seq<Socket>,
                       conns': seq<Conn>, sockets': seq<Socket>, at: nat, ids: seq<int>)
    requires Elsewhere(conns, sockets, mid, socks, at, ids) && at < |mid| == |conns'| == |sockets'|
    requires conns' == mid[at := conns'[at]] && sockets' == socks[at := sockets'[at]]
    ensures Elsewhere(conns, sockets, conns', sockets', at, ids)
  {
  }

  lemma ChainOutlives(live: Blocks, live': Blocks, c: Conn, id: nat)
    requires IsChain(live, c.chain, id) && live' == live - Members(c.temp)
    requires forall b :: b in c.chain ==> b !in c.temp
    ensures IsChain(live', c.chain, id)
  {
  }

  lemma AllGivenUp(live: Blocks, conns: seq<Conn>, sockets: seq<Socket>, id: nat)
    requires AllOk(live, conns, sockets) && id < |conns|
    ensures live - Members(conns[id].temp) - Members(conns[id].chain) == RB.NotOwnedBy(live, id)
  {
  }

  lemma FreshBody(rb: RB.Ringbuffer, b: nat, n: nat)
    requires rb.Valid() && rb.Fresh(b, n)
    ensures |rb.Body(b)| == n
  {
    hide Layout.Arranged, Layout.FreshAt, BlockAt;
    RB.NewestMember(rb.data[..], rb.R(), b);
    RB.FreshLen(rb.data[..], b, n);
    Layout.BlockFits(rb.data[..], rb.R(), b);
  }

  lemma NotYetCopied(live: Blocks, c: Conn, s: Socket, id: nat, t: nat)
    requires ConnOk(live, c, s, id) && s.temp != NULL && t !in live
    ensures c.temp != [] && s.temp == c.temp[0] && c.temp[0] in live && c.temp[0] != t
    ensures live[c.temp[0]].id == id
  {
  }

  lemma CopySource(live: Blocks, c: Conn, s: Socket, id: nat, t: nat, junk: seq<Byte>)
    requires ConnOk(live, c, s, id) && Alive(s) && t !in live && c.consumed < |c.received|
    ensures var live' := CopyAdded(live, c, id, t, junk);
      && IsChain(live', c.chain, id)
      && RB.TextOf(live', c.chain) == RB.TextOf(live, c.chain) == c.received[c.consumed..]
      && t in live' && t !in c.chain && live'[t].body == junk
    ensures c.chain != [] && s.node == c.chain[0]
  {
    hide Text;
    var live' := CopyAdded(live, c, id, t, junk);
    ChainMembers(live, c.chain, id);
    ChainFrame(live, live', c.chain, id);
    RB.TextOfIs(live, c.chain);
    RB.TextOfIs(live', c.chain);
    EmptyText(live);
  }

  lemma WholePiece(live: Blocks, c: Conn, id: nat, t: nat, body: seq<Byte>)
    ensures PieceOk(CopyAdded(live, c, id, t, body), WithCopy(c, t), Piece(t, 0, body))
  {
  }

  lemma HandOver(live: Blocks, c: Conn, handed: seq<Piece>, p: Piece)
    requires HandedOk(live, c, handed) && PieceOk(live, c, p)
    ensures HandedOk(live, c, handed + [p])
  {
  }

  lemma BlockSizeFits(rd: nat, size: nat, room: nat)
    requires rd <= size || rd == READBLOCKSIZE
    requires Align(HEADER + size) <= room && 2 * READBLOCKSIZE <= room
    ensures Align(HEADER + rd) <= room
  {
  }

  lemma PrefixGot(c: Conn, c1: Conn, blk: nat, bytes: seq<Byte>, input: Recv)
    requires SameStream(c, c1) && input.Got? && bytes <= input.bytes
    ensures forall c2 :: SameStream(WithData(c1, blk, bytes), c2) ==> GotMore(c, c2, input)
  {
  }

  lemma OneChanged(conns: seq<Conn>, sockets: seq<Socket>, conns': seq<Conn>, sockets': seq<Socket>, at: nat)
    requires at < |conns| == |sockets| == |conns'| == |sockets'|
    requires conns' == conns[at := conns'[at]] && sockets' == sockets[at := sockets'[at]]
    ensures Elsewhere(conns, sockets, conns', sockets', at, [])
  {
  }

  lemma HeldPiece(rb: RB.Ringbuffer, c: Conn, blk: nat, ptr: int, size: nat)
    requires rb.Valid() && rb.Holds(blk, ptr, size) && Owns(c, blk) && 0 <= ptr <= ptr + size <= rb.data.Length
    ensures PieceOk(rb.Live(), c, Piece(blk, ptr - blk - HEADER, rb.data[ptr..ptr + size]))
  {
    hide Layout.LiveBlocks, Layout.Arranged, Owns;
    var n, off := |rb.Live()[blk].body|, ptr - blk - HEADER;
    RB.BodyBytes(rb.data[..], rb.R(), blk);
    RB.SliceWithin(rb.data[..], blk + HEADER, blk + HEADER + n, off, size);
    assert rb.data[..][ptr..ptr + size] == rb.data[ptr..ptr + size];
  }

  lemma NowElsewhere(conns: seq<Conn>, sockets: seq<Socket>, mid: seq<Conn>, socks: seq<Socket>,
                     conns': seq<Conn>, sockets': seq<Socket>, at: nat, ids: seq<int>, ids': seq<int>)
    requires Elsewhere(conns, sockets, mid, socks, at, ids) && Elsewhere(mid, socks, conns', sockets', at, ids')
    ensures Elsewhere(conns, sockets, conns', sockets', at, ids + ids')
  {
  }

  lemma NothingHanded(live: Blocks, c: Conn)
    ensures HandedOk(live, c, [])
  {
  }

  lemma CountedClosed(s: seq<Socket>, i: nat)
    requires i < |s| && s[i].status.Closed?
    ensures ClosedCount(s) > 0
  {
  }

  /** Marking a slot as readable when nothing is closed: fine for a connection, as nothing is skipped. */
  lemma MarkKeepsOk(live: Blocks, conns: seq<Conn>, sockets: seq<Socket>, id: nat)
    requires AllOk(live, conns, sockets) && |conns| == |sockets| && id < |sockets| && ClosedCount(sockets) == 0
    ensures !sockets[id].status.Closed?
    ensures var sockets' := sockets[id := sockets[id].(status := PollIn)];
      Alive(sockets[id]) ==>
        && AllOk(live, conns, sockets') && ClosedCount(sockets') == 0
        && conns[id].consumed <= |conns[id].received| && HandedOk(live, conns[id], [])
  {
    hide AllOk, HandedOk, ClosedCount;
    if sockets[id].status.Closed? {
      CountedClosed(sockets, id);
    } else if Alive(sockets[id]) {
      SkipNothing(live, conns, sockets, id);
      StatusKeepsOk(live, conns, sockets, id, PollIn);
      ClosedCountUpdate(sockets, id, sockets[id].(status := PollIn));
    }
  }

  lemma MarkUnused(live: Blocks, conns: seq<Conn>, sockets: seq<Socket>, id: nat)
    requires AllOk(live, conns, sockets) && id < |conns| && sockets[id].status.Invalid?
    ensures var sockets' := sockets[id := sockets[id].(status := PollIn)];
      AllOk(live, conns[id := NO_DATA], sockets') && HandedOk(live, NO_DATA, [])
  {
    hide AllOk;
    OkAt(live, conns, sockets, id);
    AcceptKeepsOk(live, conns, sockets, id);
    var socks := sockets[id := Socket(Suspend, NULL, NULL)];
    StatusKeepsOk(live, conns[id := NO_DATA], socks, id, PollIn);
    assert socks[id := socks[id].(status := PollIn)] == sockets[id := sockets[id].(status := PollIn)];
  }

  lemma SkipNothing(live: Blocks, conns: seq<Conn>, sockets: seq<Socket>, id: nat)
    requires AllOk(live, conns, sockets) && id < |conns| && Alive(sockets[id])
    ensures conns[id].consumed <= |conns[id].received| && HandedOk(live, conns[id], [])
  {
  }

  lemma NoUnread(live: Blocks, c: Conn)
    requires InStep(live, c) && c.chain == []
    ensures c.consumed == |c.received|
  {
  }

  lemma SliceOfRest(t: seq<Byte>, consumed: nat, skip: nat, n: nat)
    requires consumed + skip + n <= |t|
    ensures t[consumed..][skip..skip + n] == t[consumed + skip..consumed + skip + n]
  {
  }

  lemma FreshNotLive(rb: RB.Ringbuffer, b: nat, n: nat)
    requires rb.Valid() && rb.Fresh(b, n)
    ensures b !in rb.Live()
  {
  }

  lemma {:induction false} NoneClosed(s: seq<Socket>)
    requires forall i :: 0 <= i < |s| ==> !s[i].status.Closed?
    ensures ClosedCount(s) == 0
  {
    if s != [] {
      NoneClosed(s[..|s| - 1]);
    }
  }
}
