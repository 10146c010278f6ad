/** What a connection of mread.c owns in the ring buffer and which bytes it still has to hand out. */
module Connections {
  import opened Bytes
  import opened Arena
  import opened Streams
  import RB = RingBuffer
  import opened Wrappers

  /** SOCKET_INVALID .. SOCKET_POLLIN */
  datatype Status = Invalid | Closed | Suspend | Read | PollIn

  /** struct socket; fd is not part of this model. node and temp are blocks, or NULL. */
  datatype Socket = Socket(status: Status, node: int, temp: int)

  predicate Alive(s: Socket) { !s.status.Invalid? && !s.status.Closed? }

  /** The blocks of a connection: unread data, and copies made for reads that span blocks; every
      byte recv ever delivered to it, and how many of them were yielded. */
  datatype Conn = Conn(chain: seq<nat>, temp: seq<nat>, received: seq<Byte>, consumed: nat)

  /** A connection just accepted. */
  const NO_DATA: Conn := Conn([], [], [], 0)

  ghost function First(chain: seq<nat>): int {
    if chain == [] then NULL else chain[0]
  }

  /** What is left to hand out is what the chain holds. */
  ghost predicate InStep(live: Blocks, c: Conn) {
    c.consumed <= |c.received| && RB.TextOf(live, c.chain) == c.received[c.consumed..]
  }

  ghost predicate ConnOk(live: Blocks, c: Conn, s: Socket, id: nat) {
    && IsChain(live, c.chain, id) && s.node == First(c.chain)
    && IsChain(live, c.temp, id) && s.temp == First(c.temp)
    && (c.temp != [] ==> live[c.temp[0]].offset == 0)
    && (forall b :: b in c.chain ==> b !in c.temp)
    && (if Alive(s) then InStep(live, c) else c.chain == [] && c.temp == [])
  }

  ghost predicate Owns(c: Conn, b: nat) { b in c.chain || b in c.temp }

  ghost predicate Covered(live: Blocks, conns: seq<Conn>) {
    forall b :: b in live ==> 0 <= live[b].id < |conns| && Owns(conns[live[b].id], b)
  }

  ghost predicate AllOk(live: Blocks, conns: seq<Conn>, sockets: seq<Socket>) {
    && |conns| == |sockets|
    && Covered(live, conns)
    && (forall i :: 0 <= i < |conns| ==> ConnOk(live, conns[i], sockets[i], i))
  }

  lemma OkAt(live: Blocks, conns: seq<Conn>, sockets: seq<Socket>, i: nat)
    requires AllOk(live, conns, sockets) && i < |conns|
    ensures i < |sockets| && ConnOk(live, conns[i], sockets[i], i)
  {
  }

  lemma ConnFrame(live: Blocks, live': Blocks, c: Conn, s: Socket, id: nat)
    requires ConnOk(live, c, s, id)
    requires forall b :: Owns(c, b) && b in live ==> b in live' && live'[b] == live[b]
    ensures ConnOk(live', c, s, id)
  {
    hide IsChain, Text;
    ChainMembers(live, c.chain, id);
    ChainMembers(live, c.temp, id);
    ChainFrame(live, live', c.chain, id);
    ChainFrame(live, live', c.temp, id);
  }

  /** Blocks that a connection owns name it. */
  lemma OwnedNames(live: Blocks, c: Conn, s: Socket, id: nat)
    requires ConnOk(live, c, s, id)
    ensures forall b :: Owns(c, b) ==> b in live && live[b].id == id
  {
  }

  /** Changing only blocks of connection `at` (or none in use) leaves the others as they were. */
  lemma OthersOk(live: Blocks, live': Blocks, conns: seq<Conn>, sockets: seq<Socket>, at: nat, i: nat)
    requires AllOk(live, conns, sockets) && i < |conns| && i != at
    requires forall b :: b in live && live[b].id != at ==> b in live' && live'[b] == live[b]
    ensures ConnOk(live', conns[i], sockets[i], i)
  {
    hide IsChain, Text, ConnOk;
    assert ConnOk(live, conns[i], sockets[i], i);
    OwnedNames(live, conns[i], sockets[i], i);
    ConnFrame(live, live', conns[i], sockets[i], i);
  }

  /** One connection changes, with its blocks; everything else holds still. */
  lemma ReplaceConn(live: Blocks, live': Blocks, conns: seq<Conn>, sockets: seq<Socket>, at: nat, c: Conn, s: Socket)
    requires AllOk(live, conns, sockets) && at < |conns| && ConnOk(live', c, s, at)
    requires forall b :: b in live && live[b].id != at ==> b in live' && live'[b] == live[b]
    requires forall b :: b in live' && !(b in live && live[b].id != at) ==> live'[b].id == at && Owns(c, b)
    ensures AllOk(live', conns[at := c], sockets[at := s])
  {
    hide IsChain, Text, ConnOk, Owns;
    var conns', sockets' := conns[at := c], sockets[at := s];
    forall i | 0 <= i < |conns'| ensures ConnOk(live', conns'[i], sockets'[i], i) {
      if i != at {
        OthersOk(live, live', conns, sockets, at, i);
      }
    }
    forall b | b in live'
      ensures 0 <= live'[b].id < |conns'| && Owns(conns'[live'[b].id], b)
    {
      if b in live && live[b].id != at {
        assert live'[b] == live[b];
      }
    }
  }

  // ---------- eviction and closing

  ghost function Emptied(c: Conn): Conn { c.(chain := [], temp := []) }

  const CLOSED_SOCKET: Socket := Socket(Closed, NULL, NULL)

  lemma CloseKeepsOk(live: Blocks, live': Blocks, conns: seq<Conn>, sockets: seq<Socket>, id: nat)
    requires AllOk(live, conns, sockets) && id < |conns|
    requires live' == RB.NotOwnedBy(live, id)
    ensures AllOk(live', conns[id := Emptied(conns[id])], sockets[id := CLOSED_SOCKET])
  {
    hide AllOk;
    ReplaceConn(live, live', conns, sockets, id, Emptied(conns[id]), CLOSED_SOCKET);
  }

  /** Whoever owns a block in use is connected. */
  lemma OwnerAlive(live: Blocks, conns: seq<Conn>, sockets: seq<Socket>, b: nat)
    requires AllOk(live, conns, sockets) && b in live
    ensures 0 <= live[b].id < |sockets| && Alive(sockets[live[b].id])
  {
  }

  /** From one state to the other, a connection was evicted, if it is `gone`, or left alone. */
  ghost predicate EvictedIf(gone: bool, c: Conn, s: Socket, c': Conn, s': Socket) {
    if gone then Alive(s) && c' == Emptied(c) && s' == CLOSED_SOCKET else c' == c && s' == s
  }

  /** Exactly the connections `ids` were evicted. */
  ghost predicate Evictions(conns: seq<Conn>, sockets: seq<Socket>, conns': seq<Conn>, sockets': seq<Socket>,
                            ids: seq<int>) {
    && |conns| == |conns'| == |sockets| == |sockets'|
    && forall i :: 0 <= i < |conns| ==> EvictedIf(i in ids, conns[i], sockets[i], conns'[i], sockets'[i])
  }

  lemma OneMoreEviction(conns: seq<Conn>, sockets: seq<Socket>, conns': seq<Conn>, sockets': seq<Socket>,
                        ids: seq<int>, id: nat)
    requires Evictions(conns, sockets, conns', sockets', ids) && id < |conns| && Alive(sockets'[id])
    ensures Evictions(conns, sockets, conns'[id := Emptied(conns'[id])], sockets'[id := CLOSED_SOCKET], ids + [id])
    ensures id !in ids
  {
  }

  // ---------- the number of connections closed and not yet reported

  function ClosedCount(s: seq<Socket>): nat {
    if s == [] then 0 else ClosedCount(s[..|s| - 1]) + if s[|s| - 1].status.Closed? then 1 else 0
  }

  lemma {:induction false} ClosedCountUpdate(s: seq<Socket>, i: nat, v: Socket)
    requires i < |s|
    ensures ClosedCount(s[i := v]) == ClosedCount(s)
      + (if v.status.Closed? then 1 else 0) - (if s[i].status.Closed? then 1 else 0)
  {
    var last := |s| - 1;
    if i < last {
      ClosedCountUpdate(s[..last], i, v);
      assert s[i := v][..last] == s[..last][i := v];
    } else {
      assert s[i := v][..last] == s[..last];
    }
  }

  lemma {:induction false} SomeClosed(s: seq<Socket>) returns (i: nat)
    requires ClosedCount(s) > 0
    ensures i < |s| && s[i].status.Closed?
  {
    if s[|s| - 1].status.Closed? {
      i := |s| - 1;
    } else {
      i := SomeClosed(s[..|s| - 1]);
    }
  }

  // ---------- new data

  ghost function Grown(live: Blocks, chain: seq<nat>, b: nat, v: Block): Blocks {
    if chain == [] || chain[|chain| - 1] !in live then live[b := v] else Linked(live, chain, b, v)
  }

  ghost function WithData(c: Conn, b: nat, bytes: seq<Byte>): Conn {
    c.(chain := c.chain + [b], received := c.received + bytes)
  }

  lemma GrowChain(live: Blocks, c: Conn, s: Socket, id: nat, b: nat, bytes: seq<Byte>)
    requires ConnOk(live, c, s, id) && Alive(s) && b !in live
    ensures forall x :: x in c.chain ==> x in live
    ensures var live', c' := Grown(live, c.chain, b, Block(id, -1, 0, bytes)), WithData(c, b, bytes);
      && ConnOk(live', c', s.(node := First(c'.chain)), id)
      && live'.Keys == live.Keys + {b} && live'[b].id == id
      && (forall x :: x in live && x !in c.chain ==> live'[x] == live[x])
      && (forall x :: x in c.chain ==> live'[x].id == id && live'[x].body == live[x].body)
  {
    hide Text, IsChain, Linked, Unread;
    ChainMembers(live, c.chain, id);
    ChainMembers(live, c.temp, id);
    var v := Block(id, -1, 0, bytes);
    var live', c' := Grown(live, c.chain, b, v), WithData(c, b, bytes);
    GrownChain(live, c.chain, id, b, v);
    ChainFrame(live, live', c.temp, id);
    assert RB.TextOf(live', c'.chain) == (c.received + bytes)[c.consumed..];
  }

  lemma GrownChain(live: Blocks, chain: seq<nat>, id: nat, b: nat, v: Block)
    requires IsChain(live, chain, id) && b !in live && v.id == id && v.next == -1 && v.offset == 0
    ensures forall x :: x in chain ==> x in live
    ensures var live' := Grown(live, chain, b, v);
      && IsChain(live', chain + [b], id)
      && RB.TextOf(live', chain + [b]) == RB.TextOf(live, chain) + v.body
      && live'.Keys == live.Keys + {b} && live'[b].id == id
      && (forall x :: x in live && x !in chain ==> live'[x] == live[x])
      && (forall x :: x in chain ==> live'[x].id == id && live'[x].body == live[x].body)
  {
    hide Text;
    ChainMembers(live, chain, id);
    if chain == [] {
      SingleText(live[b := v], b);
      assert chain + [b] == [b];
      RB.TextOfIs(live, chain);
      EmptyText(live);
    } else {
      LinkAppends(live, chain, id, b, v);
      RB.TextOfIs(live, chain);
      RB.TextOfIs(Linked(live, chain, b, v), chain + [b]);
    }
  }

  lemma EmptyText(live: Blocks)
    ensures Text(live, []) == []
  {
  }

  lemma SingleText(live: Blocks, b: nat)
    requires b in live && live[b].offset == 0
    ensures RB.TextOf(live, [b]) == live[b].body
  {
    TextUnfold(live, [b]);
  }

  /** The whole pool after new data arrived for one connection. */
  lemma GrowKeepsOk(live: Blocks, conns: seq<Conn>, sockets: seq<Socket>, id: nat, b: nat, bytes: seq<Byte>)
    requires AllOk(live, conns, sockets) && id < |conns| && Alive(sockets[id]) && b !in live
    ensures forall x :: x in conns[id].chain ==> x in live
    ensures var c := WithData(conns[id], b, bytes);
      AllOk(Grown(live, conns[id].chain, b, Block(id, -1, 0, bytes)), conns[id := c],
            sockets[id := sockets[id].(node := First(c.chain))])
  {
    hide IsChain, Text, ConnOk, WithData, Grown;
    assert ConnOk(live, conns[id], sockets[id], id);
    GrowChain(live, conns[id], sockets[id], id, b, bytes);
    OwnedNames(live, conns[id], sockets[id], id);
    var c := WithData(conns[id], b, bytes);
    var live' := Grown(live, conns[id].chain, b, Block(id, -1, 0, bytes));
    OwnsMore(conns[id], b, bytes);
    ReplaceConn(live, live', conns, sockets, id, c, sockets[id].(node := First(c.chain)));
  }

  lemma OwnsMore(c: Conn, b: nat, bytes: seq<Byte>)
    ensures forall x :: Owns(WithData(c, b, bytes), x) <==> Owns(c, x) || x == b
    ensures forall x :: x in c.chain ==> Owns(c, x)
  {
  }

  // ---------- copies of reads that span blocks

  ghost function WithCopy(c: Conn, t: nat): Conn { c.(temp := [t] + c.temp) }

  /** Block t, owned by id, put in front of the copies kept so far; its payload is `body`. */
  ghost function CopyAdded(live: Blocks, c: Conn, id: nat, t: nat, body: seq<Byte>): Blocks {
    live[t := Block(id, First(c.temp), 0, body)]
  }

  lemma CopyKeepsOk(live: Blocks, conns: seq<Conn>, sockets: seq<Socket>, id: nat, t: nat, body: seq<Byte>)
    requires AllOk(live, conns, sockets) && id < |conns| && Alive(sockets[id]) && t !in live
    ensures AllOk(CopyAdded(live, conns[id], id, t, body), conns[id := WithCopy(conns[id], t)],
                  sockets[id := sockets[id].(temp := t)])
  {
    hide IsChain, Text, ConnOk, WithCopy, CopyAdded;
    assert ConnOk(live, conns[id], sockets[id], id);
    CopyConn(live, conns[id], sockets[id], id, t, body);
    OwnedNames(live, conns[id], sockets[id], id);
    CopyOwns(conns[id], t);
    CopyBlocks(live, conns[id], id, t, body);
    ReplaceConn(live, CopyAdded(live, conns[id], id, t, body), conns, sockets, id,
                WithCopy(conns[id], t), sockets[id].(temp := t));
  }

  lemma CopyOwns(c: Conn, t: nat)
    ensures forall x :: Owns(WithCopy(c, t), x) <==> Owns(c, x) || x == t
  {
  }

  lemma CopyBlocks(live: Blocks, c: Conn, id: nat, t: nat, body: seq<Byte>)
    requires t !in live
    ensures var live' := CopyAdded(live, c, id, t, body);
      live'.Keys == live.Keys + {t} && live'[t].id == id && forall x :: x in live ==> live'[x] == live[x]
  {
  }

  lemma CopyConn(live: Blocks, c: Conn, s: Socket, id: nat, t: nat, body: seq<Byte>)
    requires ConnOk(live, c, s, id) && Alive(s) && t !in live
    ensures ConnOk(CopyAdded(live, c, id, t, body), WithCopy(c, t), s.(temp := t), id)
  {
    hide Text, IsChain;
    var live' := CopyAdded(live, c, id, t, body);
    ChainMembers(live, c.chain, id);
    ChainMembers(live, c.temp, id);
    ChainFrame(live, live', c.chain, id);
    var one := live[t := Block(id, -1, 0, body)];
    ChainFrame(live, one, c.temp, id);
    if c.temp == [] {
      OneBlockChain(live', t, id);
    } else {
      LinkPrepends(one, c.temp, id, t);
      assert live' == one[t := one[t].(next := c.temp[0])];
    }
  }

  lemma OneBlockChain(live: Blocks, t: nat, id: nat)
    requires t in live && live[t].id == id && live[t].next == -1 && 0 <= live[t].offset <= |live[t].body|
    ensures IsChain(live, [t] + [], id)
  {
  }

  // ---------- what has been handed out since the last yield

  /** Bytes in the payload of block blk, starting `off` bytes into it. */
  datatype Piece = Piece(blk: nat, off: nat, bytes: seq<Byte>) {
    function Ptr(): nat { blk + HEADER + off }
  }

  ghost predicate PieceOk(live: Blocks, c: Conn, p: Piece) {
    p.blk in live && Owns(c, p.blk) && IsSlice(live[p.blk].body, p.off, p.bytes)
  }

  ghost predicate IsSlice(t: seq<Byte>, off: nat, b: seq<Byte>) {
    off + |b| <= |t| && t[off..off + |b|] == b
  }

  ghost predicate HandedOk(live: Blocks, c: Conn, handed: seq<Piece>) {
    forall i :: 0 <= i < |handed| ==> PieceOk(live, c, handed[i])
  }

  /** Pieces stay where they are while their blocks keep owner and payload. */
  lemma HandedFrame(live: Blocks, live': Blocks, c: Conn, c': Conn, handed: seq<Piece>)
    requires HandedOk(live, c, handed)
    requires forall b :: b in live && Owns(c, b) ==> b in live' && Owns(c', b) && live'[b].body == live[b].body
    ensures HandedOk(live', c', handed)
  {
  }

  /** Evicting somebody else does not disturb the pieces handed out. */
  lemma HandedSurvives(live: Blocks, conns: seq<Conn>, sockets: seq<Socket>, active: nat, id: nat, handed: seq<Piece>)
    requires AllOk(live, conns, sockets) && active < |conns| && active != id
    requires HandedOk(live, conns[active], handed)
    ensures HandedOk(RB.NotOwnedBy(live, id), conns[active], handed)
  {
  }

  // ---------- changes that touch no data

  lemma StatusKeepsOk(live: Blocks, conns: seq<Conn>, sockets: seq<Socket>, id: nat, st: Status)
    requires AllOk(live, conns, sockets) && id < |conns|
    requires Alive(sockets[id]) == Alive(sockets[id].(status := st))
    ensures AllOk(live, conns, sockets[id := sockets[id].(status := st)])
  {
  }

  lemma AcceptKeepsOk(live: Blocks, conns: seq<Conn>, sockets: seq<Socket>, id: nat)
    requires AllOk(live, conns, sockets) && id < |conns| && !Alive(sockets[id])
    ensures AllOk(live, conns[id := NO_DATA], sockets[id := Socket(Suspend, NULL, NULL)])
  {
  }

  // ---------- yielding

  lemma DropCopies(live: Blocks, conns: seq<Conn>, sockets: seq<Socket>, id: nat)
    requires AllOk(live, conns, sockets) && id < |conns|
    ensures var live' := live - Members(conns[id].temp);
      AllOk(live', conns[id := conns[id].(temp := [])], sockets[id := sockets[id].(temp := NULL)])
  {
    hide AllOk, IsChain, Text;
    OkAt(live, conns, sockets, id);
    OwnedNames(live, conns[id], sockets[id], id);
    var live', c, s := live - Members(conns[id].temp), conns[id].(temp := []), sockets[id].(temp := NULL);
    ChainFrame(live, live', c.chain, id);
    RB.TextOfIs(live, c.chain);
    RB.TextOfIs(live', c.chain);
    NoChain(live', id);
    CoveredAt(live, conns, sockets, id);
    ReplaceConn(live, live', conns, sockets, id, c, s);
  }

  lemma NoChain(live: Blocks, id: nat)
    ensures IsChain(live, [], id)
  {
  }

  lemma CoveredAt(live: Blocks, conns: seq<Conn>, sockets: seq<Socket>, id: nat)
    requires AllOk(live, conns, sockets) && id < |conns|
    ensures forall b :: b in live && live[b].id == id ==> Owns(conns[id], b)
  {
  }

  /** Yielding `skip` bytes of a connection whose copies are gone already. */
  lemma AdvanceKeepsOk(live: Blocks, live': Blocks, conns: seq<Conn>, sockets: seq<Socket>, id: nat, skip: nat, i: nat)
    requires AllOk(live, conns, sockets) && id < |conns| && Alive(sockets[id]) && conns[id].temp == []
    requires conns[id].consumed + skip <= |conns[id].received| && i <= |conns[id].chain|
    requires var rest := conns[id].chain[i..];
      && IsChain(live', rest, id)
      && RB.TextOf(live', rest) == RB.TextOf(live, conns[id].chain)[skip..]
      && live'.Keys == live.Keys - Members(conns[id].chain[..i])
      && (forall b :: b in live' && b != First(rest) ==> live'[b] == live[b])
    ensures var c := conns[id].(chain := conns[id].chain[i..], consumed := conns[id].consumed + skip);
      AllOk(live', conns[id := c], sockets[id := sockets[id].(node := First(c.chain))])
  {
    hide AllOk, IsChain, Text;
    OkAt(live, conns, sockets, id);
    OwnedNames(live, conns[id], sockets[id], id);
    var c := conns[id].(chain := conns[id].chain[i..], consumed := conns[id].consumed + skip);
    NoChain(live', id);
    CoveredAt(live, conns, sockets, id);
    ChainMembers(live', c.chain, id);
    Halves(conns[id].chain, i);
    assert RB.TextOf(live', c.chain) == c.received[c.consumed..];
    ReplaceConn(live, live', conns, sockets, id, c, sockets[id].(node := First(c.chain)));
  }

  lemma Halves(chain: seq<nat>, i: nat)
    requires i <= |chain|
    ensures forall b :: b in chain <==> b in Members(chain[..i]) || b in chain[i..]
    ensures First(chain[i..]) != NULL ==> First(chain[i..]) in chain
  {
  }
}
