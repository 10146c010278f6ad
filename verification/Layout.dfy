/** How the ring buffer's operations recut and rewrite the arena: what each change of memory does to
    the tiling, to the blocks in use and to their order. */
module Layout {
  import opened Bytes
  import opened Filters
  import opened Arena

  ghost function Alive(m: seq<Byte>): nat -> bool { (s: nat) => LiveAt(m, s) }

  /** The blocks in use. */
  ghost function LiveBlocks(m: seq<Byte>, starts: seq<nat>): map<nat, Block> {
    map s | s in starts && LiveAt(m, s) :: BlockAt(m, s)
  }

  /** Their starts, in the order of `starts`. */
  ghost function LiveStarts(m: seq<Byte>, starts: seq<nat>): seq<nat> {
    Filter(starts, Alive(m))
  }

  ghost predicate AllFree(m: seq<Byte>, starts: seq<nat>) {
    forall s :: s in starts ==> !LiveAt(m, s)
  }

  lemma TileStep(m: seq<Byte>, starts: seq<nat>, lo: nat, hi: nat, k: nat)
    requires Tiles(m, starts, lo, hi) && k < |starts|
    ensures Len(m, starts[k]) > 0 && lo <= starts[k] < hi <= |m| && starts[k] % 4 == 0
    ensures starts[k] + Room(m, starts[k]) == if k + 1 < |starts| then starts[k + 1] else hi
    ensures k == 0 ==> starts[k] == lo
  {
    TilesSplit(m, starts, lo, hi, k);
    TilesOrdered(m, starts[k..][1..], starts[k] + Room(m, starts[k]), hi);
    assert starts[k..][1..] == starts[k + 1..];
    assert k + 1 < |starts| ==> starts[k + 1..][0] == starts[k + 1];
  }

  /** Blocks at different places of the tiling do not overlap. */
  lemma TilesApart(m: seq<Byte>, starts: seq<nat>, lo: nat, hi: nat, s: nat, t: nat)
    requires Tiles(m, starts, lo, hi) && s in starts && t in starts && s != t
    ensures s + Room(m, s) <= t || t + Room(m, t) <= s
  {
    var i :| 0 <= i < |starts| && starts[i] == s;
    var j :| 0 <= j < |starts| && starts[j] == t;
    if i < j {
      TilesApartAt(m, starts, lo, hi, i, j);
    } else {
      TilesApartAt(m, starts, lo, hi, j, i);
    }
  }

  lemma TilesApartAt(m: seq<Byte>, starts: seq<nat>, lo: nat, hi: nat, i: nat, j: nat)
    requires Tiles(m, starts, lo, hi) && i < j < |starts|
    ensures starts[i] + Room(m, starts[i]) <= starts[j]
  {
    TilesSplit(m, starts, lo, hi, j);
    TileInside(m, starts[..j], lo, starts[j], starts[..j][i]);
  }

  // ---------- rewriting one word of one header

  /** m' is m with one header word of the block at s rewritten; nobody else notices. */
  ghost predicate OthersSame(m: seq<Byte>, m': seq<Byte>, starts: seq<nat>, s: nat) {
    forall t :: t in starts && t != s ==>
      Len(m', t) == Len(m, t) && LiveAt(m', t) == LiveAt(m, t) && (LiveAt(m, t) ==> BlockAt(m', t) == BlockAt(m, t))
  }

  lemma OthersSameOutside(m: seq<Byte>, m': seq<Byte>, starts: seq<nat>, lo: nat, hi: nat, s: nat)
    requires Tiles(m, starts, lo, hi) && s in starts && SameOutside(m, m', s, s + Room(m, s))
    ensures OthersSame(m, m', starts, s)
  {
    hide Tiles, BlockAt, LiveAt, Room, Len;
    forall t | t in starts && t != s
      ensures Len(m', t) == Len(m, t) && LiveAt(m', t) == LiveAt(m, t)
      ensures LiveAt(m, t) ==> BlockAt(m', t) == BlockAt(m, t)
    {
      TilesApart(m, starts, lo, hi, s, t);
      TileInside(m, starts, lo, hi, t);
      BlockFrame(m, m', t, s, s + Room(m, s));
    }
  }

  /** Rewriting inside one block without touching its length keeps the tiling. */
  lemma {:induction false} RewriteKeepsTiles(m: seq<Byte>, m': seq<Byte>, starts: seq<nat>, lo: nat, hi: nat, s: nat)
    requires Tiles(m, starts, lo, hi) && s in starts
    requires SameOutside(m, m', s, s + Room(m, s)) && Len(m', s) > 0 && Room(m', s) == Room(m, s)
    ensures Tiles(m', starts, lo, hi)
    decreases |starts|
  {
    var next := lo + Room(m, lo);
    if s == lo {
      TilesFrame(m, m', starts[1..], next, hi, s, next);
    } else {
      TilesOrdered(m, starts[1..], next, hi);
      TileInside(m, starts[1..], next, hi, s);
      GetFrame(m, m', s, s + Room(m, s), lo);
      RewriteKeepsTiles(m, m', starts[1..], next, hi, s);
    }
  }

  /** One of the three words after the length. */
  lemma PutWord(m: seq<Byte>, s: nat, w: nat, v: int)
    requires s + HEADER <= |m| && IsInt(v) && w in {4, 8, 12} && Len(m, s) >= HEADER && s + Len(m, s) <= |m|
    ensures var m' := Put(m, s + w, v);
      && SameOutside(m, m', s, s + Room(m, s)) && Len(m', s) == Len(m, s)
      && BlockAt(m', s) == (if w == 4 then BlockAt(m, s).(offset := v)
                            else if w == 8 then BlockAt(m, s).(id := v) else BlockAt(m, s).(next := v))
  {
    var m' := Put(m, s + w, v);
    PutGet(m, s + w, v);
    GetFrame(m, m', s + w, s + w + 4, s);
    if w != 4 { GetFrame(m, m', s + w, s + w + 4, s + 4); }
    if w != 8 { GetFrame(m, m', s + w, s + w + 4, s + 8); }
    if w != 12 { GetFrame(m, m', s + w, s + w + 4, s + 12); }
    SliceFrame(m, m', s + w, s + w + 4, s + HEADER, s + Len(m, s));
  }

  // ---------- the blocks in use, from memory to map

  lemma LiveBlocksUpdate(m: seq<Byte>, m': seq<Byte>, starts: seq<nat>, s: nat)
    requires s in starts && OthersSame(m, m', starts, s) && LiveAt(m', s)
    ensures LiveBlocks(m', starts) == LiveBlocks(m, starts)[s := BlockAt(m', s)]
  {
  }

  lemma LiveBlocksRemove(m: seq<Byte>, m': seq<Byte>, starts: seq<nat>, s: nat)
    requires s in starts && OthersSame(m, m', starts, s) && !LiveAt(m', s)
    ensures LiveBlocks(m', starts) == LiveBlocks(m, starts) - {s}
  {
  }

  lemma LiveStartsSame(m: seq<Byte>, m': seq<Byte>, starts: seq<nat>, s: nat)
    requires OthersSame(m, m', starts, s) && LiveAt(m, s) == LiveAt(m', s)
    ensures LiveStarts(m', starts) == LiveStarts(m, starts)
  {
    FilterCongruent(starts, Alive(m'), Alive(m));
  }

  lemma LiveBlocksAgree(m: seq<Byte>, m': seq<Byte>, starts: seq<nat>, starts': seq<nat>)
    requires forall s :: s in starts && LiveAt(m, s) ==> s in starts' && LiveAt(m', s)
    requires forall s :: s in starts' && LiveAt(m', s) ==>
      s in starts && LiveAt(m, s) && BlockAt(m', s) == BlockAt(m, s)
    ensures LiveBlocks(m', starts') == LiveBlocks(m, starts)
  {
  }

  /** Memory changed in [a, b) only: the blocks of a stretch outside it are as they were. */
  lemma StretchSame(m: seq<Byte>, m': seq<Byte>, starts: seq<nat>, lo: nat, hi: nat, a: nat, b: nat)
    requires Tiles(m, starts, lo, hi) && SameOutside(m, m', a, b) && (hi <= a || b <= lo)
    ensures Tiles(m', starts, lo, hi)
    ensures forall s :: s in starts ==> LiveAt(m', s) == LiveAt(m, s)
    ensures forall s :: s in starts && LiveAt(m, s) ==> BlockAt(m', s) == BlockAt(m, s)
    ensures LiveStarts(m', starts) == LiveStarts(m, starts)
  {
    hide Tiles, BlockAt, LiveAt, Room, Len;
    TilesFrame(m, m', starts, lo, hi, a, b);
    forall s | s in starts
      ensures LiveAt(m', s) == LiveAt(m, s) && (LiveAt(m, s) ==> BlockAt(m', s) == BlockAt(m, s))
    {
      TileInside(m, starts, lo, hi, s);
      BlockFrame(m, m', s, a, b);
    }
    FilterCongruent(starts, Alive(m'), Alive(m));
  }

  // ---------- cutting a free run into a block and a remainder

  /** A free block of n bytes at s: small ones have no id to clear. */
  function FreeBlock(m: seq<Byte>, s: nat, n: nat): (m': seq<Byte>)
    requires s + n <= |m| && 4 <= n <= MAX_INT
  {
    var m1 := Put(m, s, n);
    if n >= HEADER then Put(m1, s + 8, -1) else m1
  }

  lemma FreeBlockFacts(m: seq<Byte>, s: nat, n: nat)
    requires s + n <= |m| && 4 <= n <= MAX_INT
    ensures var m' := FreeBlock(m, s, n);
      SameOutside(m, m', s, s + n) && Len(m', s) == n && !LiveAt(m', s)
  {
    var m1 := Put(m, s, n);
    PutGet(m, s, n);
    if n >= HEADER {
      PutGet(m1, s + 8, -1);
      GetFrame(m1, Put(m1, s + 8, -1), s + 8, s + 12, s);
    }
  }

  /** The header _alloc writes for a payload of n bytes. */
  function NewHeader(m: seq<Byte>, s: nat, n: nat): (m': seq<Byte>)
    requires s + HEADER + n <= |m|
  {
    Put(Put(Put(Put(m, s, HEADER + n), s + 4, 0), s + 12, -1), s + 8, -1)
  }

  ghost predicate FreshAt(m: seq<Byte>, s: nat, n: nat) {
    Len(m, s) == HEADER + n && Offset(m, s) == 0 && Id(m, s) == -1 && Next(m, s) == -1
  }

  lemma NewHeaderFacts(m: seq<Byte>, s: nat, n: nat)
    requires s + HEADER + n <= |m| <= MAX_INT
    ensures var m' := NewHeader(m, s, n); SameOutside(m, m', s, s + HEADER) && FreshAt(m', s, n)
  {
    hide Get, Put;
    var m1 := Put(m, s, HEADER + n);
    var m2 := Put(m1, s + 4, 0);
    var m3 := Put(m2, s + 12, -1);
    var m4 := Put(m3, s + 8, -1);
    PutGet(m, s, HEADER + n);
    PutGet(m1, s + 4, 0);
    PutGet(m2, s + 12, -1);
    PutGet(m3, s + 8, -1);
    GetFrame(m1, m2, s + 4, s + 8, s);
    GetFrame(m2, m3, s + 12, s + 16, s);
    GetFrame(m2, m3, s + 12, s + 16, s + 4);
    GetFrame(m3, m4, s + 8, s + 12, s);
    GetFrame(m3, m4, s + 8, s + 12, s + 4);
    GetFrame(m3, m4, s + 8, s + 12, s + 12);
  }

  /** The starts of the new block and of what is left of the run. */
  function CutStarts(s: nat, room: nat, total: nat): seq<nat> {
    [s] + if room < total then [s + room] else []
  }

  /** _alloc on a free run of `total` bytes at s. */
  function Carved(m: seq<Byte>, s: nat, n: nat, total: nat): (m': seq<Byte>)
    requires s + total <= |m| <= MAX_INT && total % 4 == 0 && Align(HEADER + n) <= total
  {
    var m1 := NewHeader(m, s, n);
    var room := Align(HEADER + n);
    if room < total then FreeBlock(m1, s + room, total - room) else m1
  }

  lemma FreshFrame(m: seq<Byte>, m': seq<Byte>, s: nat, n: nat, a: nat, b: nat)
    requires FreshAt(m, s, n) && SameOutside(m, m', a, b) && s + HEADER <= a
    ensures FreshAt(m', s, n)
  {
    GetFrame(m, m', a, b, s);
    GetFrame(m, m', a, b, s + 4);
    GetFrame(m, m', a, b, s + 8);
    GetFrame(m, m', a, b, s + 12);
  }

  lemma CarvedFacts(m: seq<Byte>, s: nat, n: nat, total: nat)
    requires s % 4 == 0 && s + total <= |m| <= MAX_INT && total % 4 == 0 && Align(HEADER + n) <= total
    ensures var m' := Carved(m, s, n, total);
      && SameOutside(m, m', s, s + total) && FreshAt(m', s, n)
      && Tiles(m', CutStarts(s, Align(HEADER + n), total), s, s + total)
      && AllFree(m', CutStarts(s, Align(HEADER + n), total))
  {
    hide Get, Put, NewHeader, FreeBlock, Tiles, CutStarts;
    var m1, m', room := NewHeader(m, s, n), Carved(m, s, n, total), Align(HEADER + n);
    NewHeaderFacts(m, s, n);
    if room < total {
      FreeBlockFacts(m1, s + room, total - room);
      FreshFrame(m1, m', s, n, s + room, s + total);
      CutTiles(m', s, room, total);
    } else {
      WholeRun(m', s, total);
    }
    CutFree(m', s, n, total);
  }

  lemma WholeRun(m: seq<Byte>, s: nat, total: nat)
    requires s % 4 == 0 && total % 4 == 0 && 0 < total && s + total <= |m| && Room(m, s) == total
    ensures Tiles(m, CutStarts(s, total, total), s, s + total)
  {
  }

  lemma CutFree(m: seq<Byte>, s: nat, n: nat, total: nat)
    requires FreshAt(m, s, n)
    requires Align(HEADER + n) < total ==> !LiveAt(m, s + Align(HEADER + n))
    ensures AllFree(m, CutStarts(s, Align(HEADER + n), total))
  {
  }

  lemma CutTiles(m: seq<Byte>, s: nat, room: nat, total: nat)
    requires s % 4 == 0 && total % 4 == 0 && room % 4 == 0 && 0 < room < total && s + total <= |m|
    requires Room(m, s) == room && Len(m, s + room) == total - room
    ensures Tiles(m, CutStarts(s, room, total), s, s + total)
  {
    hide Get, Len;
    assert CutStarts(s, room, total)[1..] == [s + room] && [s + room][1..] == [];
    assert Len(m, s) > 0 && Room(m, s + room) == total - room;
    assert Tiles(m, [s + room], s + room, s + total);
  }

  // ---------- the arena around `head`

  /** Head, the blocks before it, and those from it to the end of the arena. */
  datatype Ring = Ring(head: nat, before: seq<nat>, after: seq<nat>) {
    /** All blocks, reading circularly from head. */
    function Circ(): seq<nat> { after + before }

    function Rewound(): Ring { Ring(0, [], before + after) }
  }

  ghost predicate Arranged(m: seq<Byte>, r: Ring) {
    && |m| <= MAX_INT && |m| % 4 == 0
    && r.after != []
    && Tiles(m, r.before, 0, r.head)
    && Tiles(m, r.after, r.head, |m|)
  }

  lemma ArrangedWhole(m: seq<Byte>, r: Ring)
    requires Arranged(m, r)
    ensures r.head == r.after[0] < |m| && r.head % 4 == 0
    ensures Tiles(m, r.before + r.after, 0, |m|)
    ensures Arranged(m, r.Rewound())
  {
    TileStep(m, r.after, r.head, |m|, 0);
    TilesConcat(m, r.before, r.after, 0, r.head, |m|);
  }

  /** Moving head back to the start keeps the circular order of the blocks in use, provided none
      is left between head and the end. */
  lemma RewindKeepsOrder(m: seq<Byte>, r: Ring)
    requires AllFree(m, r.after)
    ensures LiveStarts(m, r.Rewound().Circ()) == LiveStarts(m, r.Circ())
    ensures LiveBlocks(m, r.Rewound().Circ()) == LiveBlocks(m, r.Circ())
  {
    assert r.Rewound().Circ() == r.before + r.after;
    DropFreeSuffix(m, r.before, r.after);
    DropFreePrefix(m, r.after, r.before);
  }

  lemma DropFreePrefix(m: seq<Byte>, x: seq<nat>, y: seq<nat>)
    requires AllFree(m, x)
    ensures LiveStarts(m, x + y) == LiveStarts(m, y)
  {
    FilterConcat(x, y, Alive(m));
    FilterNone(x, Alive(m));
    assert [] + LiveStarts(m, y) == LiveStarts(m, y);
  }

  lemma DropFreeSuffix(m: seq<Byte>, x: seq<nat>, y: seq<nat>)
    requires AllFree(m, y)
    ensures LiveStarts(m, x + y) == LiveStarts(m, x)
  {
    FilterConcat(x, y, Alive(m));
    FilterNone(y, Alive(m));
    assert LiveStarts(m, x) + [] == LiveStarts(m, x);
  }

  /** Where head and the blocks are once _alloc has cut `room` bytes off a run of k + 1 free blocks. */
  function CarvedRing(size: nat, r: Ring, k: nat, room: nat, total: nat): Ring
    requires k < |r.after|
  {
    if r.head + room == size then Ring(0, [], r.before + [r.head])
    else Ring(r.head + room, r.before + [r.head],
              (if room < total then [r.head + room] else []) + r.after[k + 1..])
  }

  ghost predicate FreeRun(m: seq<Byte>, r: Ring, k: nat, total: nat) {
    && k < |r.after| && AllFree(m, r.after[..k + 1])
    && r.head + total == if k + 1 < |r.after| then r.after[k + 1] else |m|
  }

  lemma CarveArranged(m: seq<Byte>, r: Ring, k: nat, n: nat, total: nat)
    requires Arranged(m, r) && FreeRun(m, r, k, total) && Align(HEADER + n) <= total
    ensures total % 4 == 0 && r.head % 4 == 0 && r.head + total <= |m|
    ensures var m' := Carved(m, r.head, n, total);
      var r' := CarvedRing(|m|, r, k, Align(HEADER + n), total);
      Arranged(m', r')
  {
    hide Get, Carved, LiveAt, BlockAt, Tiles, CutStarts, Room, Len;
    ArrangedWhole(m, r);
    TilesSplit(m, r.after, r.head, |m|, k + 1);
    var hi := r.head + total;
    TilesMod4(m, r.after[..k + 1], r.head, hi);
    CarvedFacts(m, r.head, n, total);
    var m', room := Carved(m, r.head, n, total), Align(HEADER + n);
    TilesFrame(m, m', r.before, 0, r.head, r.head, hi);
    TilesFrame(m, m', r.after[k + 1..], hi, |m|, r.head, hi);
    FreshRoom(m', r.head, n);
    CutAfterHead(m', r, room, total, r.after[k + 1..]);
  }

  lemma FreshRoom(m: seq<Byte>, s: nat, n: nat)
    requires FreshAt(m, s, n)
    ensures Room(m, s) == Align(HEADER + n)
  {
  }

  lemma TilesMod4(m: seq<Byte>, starts: seq<nat>, lo: nat, hi: nat)
    requires Tiles(m, starts, lo, hi) && starts != []
    ensures hi % 4 == 0 && lo % 4 == 0
  {
  }

  lemma CutAfterHead(m: seq<Byte>, r: Ring, room: nat, total: nat, rest: seq<nat>)
    requires |m| % 4 == 0 && |m| <= MAX_INT && r.head % 4 == 0 && total % 4 == 0
    requires 0 < room <= total && r.head + total <= |m|
    requires Tiles(m, r.before, 0, r.head) && Tiles(m, rest, r.head + total, |m|)
    requires Tiles(m, CutStarts(r.head, room, total), r.head, r.head + total) && Room(m, r.head) == room
    ensures r.head + room == |m| ==> Arranged(m, Ring(0, [], r.before + [r.head]))
    ensures r.head + room < |m| ==>
      Arranged(m, Ring(r.head + room, r.before + [r.head], (if room < total then [r.head + room] else []) + rest))
  {
    hide Tiles, Room, CutStarts, Len;
    var h := r.head;
    CutPieces(m, h, room, total);
    TilesConcat(m, r.before, [h], 0, h, h + room);
    if h + room == |m| {
      TilesConcat(m, r.before, [h], 0, h, |m|);
      NoTiles(m);
    } else if room < total {
      TilesConcat(m, [h + room], rest, h + room, h + total, |m|);
    } else {
      assert [] + rest == rest;
      TilesNonempty(m, rest, h + total, |m|);
    }
  }

  lemma CutPieces(m: seq<Byte>, h: nat, room: nat, total: nat)
    requires 0 < room <= total && h + total <= |m|
    requires Tiles(m, CutStarts(h, room, total), h, h + total) && Room(m, h) == room
    ensures Tiles(m, [h], h, h + room)
    ensures room < total ==> Tiles(m, [h + room], h + room, h + total)
  {
  }

  lemma NoTiles(m: seq<Byte>)
    ensures Tiles(m, [], 0, 0)
  {
  }

  lemma TilesNonempty(m: seq<Byte>, starts: seq<nat>, lo: nat, hi: nat)
    requires Tiles(m, starts, lo, hi) && lo < hi
    ensures starts != []
  {
  }

  lemma LiveBlocksFromStarts(m: seq<Byte>, m': seq<Byte>, starts: seq<nat>, starts': seq<nat>)
    requires LiveStarts(m', starts') == LiveStarts(m, starts)
    requires forall s :: s in LiveStarts(m, starts) ==> BlockAt(m', s) == BlockAt(m, s)
    ensures LiveBlocks(m', starts') == LiveBlocks(m, starts)
  {
    hide BlockAt, LiveAt;
    forall s
      ensures s in starts && LiveAt(m, s) <==> s in LiveStarts(m, starts)
      ensures s in starts' && LiveAt(m', s) <==> s in LiveStarts(m', starts')
    {
      FilterMember(starts, Alive(m), s);
      FilterMember(starts', Alive(m'), s);
    }
    LiveBlocksAgree(m, m', starts, starts');
  }

  /** Carving a block leaves the blocks in use, and their order, alone; the new block is the last
      one before head. */
  lemma CarveKeepsLive(m: seq<Byte>, r: Ring, k: nat, n: nat, total: nat)
    requires Arranged(m, r) && FreeRun(m, r, k, total) && Align(HEADER + n) <= total
    ensures total % 4 == 0 && r.head % 4 == 0 && r.head + total <= |m|
    ensures var m' := Carved(m, r.head, n, total);
      var r' := CarvedRing(|m|, r, k, Align(HEADER + n), total);
      && LiveStarts(m', r'.Circ()) == LiveStarts(m, r.Circ())
      && LiveBlocks(m', r'.Circ()) == LiveBlocks(m, r.Circ())
      && FreshAt(m', r.head, n)
      && Newest(r', r.head)
  {
    hide Get, Carved, LiveAt, BlockAt, Tiles, Len, FreshAt;
    CarveArranged(m, r, k, n, total);
    CarvedFacts(m, r.head, n, total);
    TilesSplit(m, r.after, r.head, |m|, k + 1);
    var m', room, hi := Carved(m, r.head, n, total), Align(HEADER + n), r.head + total;
    var rest := r.after[k + 1..];
    StretchSame(m, m', r.before, 0, r.head, r.head, hi);
    StretchSame(m, m', rest, hi, |m|, r.head, hi);
    assert r.after + r.before == r.after[..k + 1] + (rest + r.before);
    DropFreePrefix(m, r.after[..k + 1], rest + r.before);
    FilterConcat(rest, r.before, Alive(m));
    FilterConcat(rest, r.before, Alive(m'));
    if k + 1 < |r.after| {
      TileStep(m, r.after, r.head, |m|, k + 1);
    }
    CarvedOrder(m', r, k, room, total);
    forall s | s in LiveStarts(m, r.Circ()) ensures BlockAt(m', s) == BlockAt(m, s) {
      FilterMember(rest + r.before, Alive(m), s);
    }
    LiveBlocksFromStarts(m, m', r.Circ(), CarvedRing(|m|, r, k, room, total).Circ());
  }

  /** The block that was cut off last: the one just before head, reading circularly. */
  ghost predicate Newest(r: Ring, b: nat) {
    r.Circ() != [] && r.Circ()[|r.Circ()| - 1] == b
  }

  lemma CarvedOrder(m: seq<Byte>, r: Ring, k: nat, room: nat, total: nat)
    requires k < |r.after| && AllFree(m, CutStarts(r.head, room, total)) && room <= total && r.head + total <= |m|
    requires r.head + total == |m| ==> r.after[k + 1..] == []
    ensures var r' := CarvedRing(|m|, r, k, room, total);
      LiveStarts(m, r'.Circ()) == LiveStarts(m, r.after[k + 1..] + r.before) && Newest(r', r.head)
  {
    hide LiveAt;
    var rest, h := r.after[k + 1..], [r.head];
    var r' := CarvedRing(|m|, r, k, room, total);
    assert h[0] in CutStarts(r.head, room, total);
    if r.head + room == |m| {
      assert r'.Circ() == r.before + h && rest + r.before == r.before;
      DropFreeSuffix(m, r.before, h);
    } else {
      var tail := if room < total then [r.head + room] else [];
      assert forall s :: s in tail ==> s in CutStarts(r.head, room, total);
      assert r'.Circ() == tail + (rest + r.before + h);
      DropFreePrefix(m, tail, rest + r.before + h);
      DropFreeSuffix(m, rest + r.before, h);
    }
  }

  // ---------- rewriting one word of one header, with the ring around it

  lemma RewriteArranged(m: seq<Byte>, m': seq<Byte>, r: Ring, s: nat)
    requires Arranged(m, r) && s in r.Circ()
    requires SameOutside(m, m', s, s + Room(m, s)) && Len(m', s) > 0 && Room(m', s) == Room(m, s)
    ensures Arranged(m', r) && OthersSame(m, m', r.Circ(), s)
  {
    hide Tiles, Room, Len, LiveAt, BlockAt;
    ArrangedWhole(m, r);
    var whole := r.before + r.after;
    assert forall t :: t in r.Circ() <==> t in whole;
    OthersSameOutside(m, m', whole, 0, |m|, s);
    if s in r.before {
      TileInside(m, r.before, 0, r.head, s);
      RewriteKeepsTiles(m, m', r.before, 0, r.head, s);
      TilesFrame(m, m', r.after, r.head, |m|, s, s + Room(m, s));
    } else {
      TileInside(m, r.after, r.head, |m|, s);
      RewriteKeepsTiles(m, m', r.after, r.head, |m|, s);
      TilesFrame(m, m', r.before, 0, r.head, s, s + Room(m, s));
    }
  }

  // ---------- the oldest block, and the newest

  lemma FirstLive(m: seq<Byte>, r: Ring, k: nat)
    requires k < |r.after| && AllFree(m, r.after[..k]) && LiveAt(m, r.after[k])
    ensures LiveStarts(m, r.Circ()) != [] && LiveStarts(m, r.Circ())[0] == r.after[k]
  {
    hide LiveAt;
    var rest := r.after[k + 1..] + r.before;
    var one := [r.after[k]];
    assert r.Circ() == r.after[..k] + (one + rest);
    DropFreePrefix(m, r.after[..k], one + rest);
    FilterConcat(one, rest, Alive(m));
    FilterAll(one, Alive(m));
  }

  lemma NoneLive(m: seq<Byte>, r: Ring)
    requires AllFree(m, r.Circ())
    ensures LiveStarts(m, r.Circ()) == []
  {
    FilterNone(r.Circ(), Alive(m));
  }

  // ---------- room between the blocks in use

  /** The n bytes from `from` lie in the arena, and no block in use begins among them. */
  ghost predicate RoomAt(live: map<nat, Block>, from: nat, n: nat, size: nat) {
    from + n <= size && forall b :: b in live ==> b < from || from + n <= b
  }

  /** No block in use is at or behind `from`. */
  ghost predicate NoneFrom(live: map<nat, Block>, from: nat) { forall b :: b in live ==> b < from }

  /** There are n free bytes from head on or, if everything behind head is free, from the start on. */
  ghost predicate HasRoom(live: map<nat, Block>, head: nat, n: nat, size: nat) {
    RoomAt(live, head, n, size) || (NoneFrom(live, head) && RoomAt(live, 0, n, size))
  }

  ghost function PlaceFor(live: map<nat, Block>, head: nat, n: nat, size: nat): nat {
    if RoomAt(live, head, n, size) then head else 0
  }

  /** Where head is after everything from it to the end of the arena was looked at. */
  ghost function Settled(live: map<nat, Block>, head: nat): nat { if NoneFrom(live, head) then 0 else head }

  /** The place behind the last byte is the start. */
  function Wrapped(at: nat, size: nat): nat { if at == size then 0 else at }

  lemma TileOrder(m: seq<Byte>, r: Ring, s: nat, k: nat)
    requires Arranged(m, r) && s in r.Circ() && k < |r.after|
    ensures r.head <= r.after[k]
    ensures s < r.head || s in r.after[..k] || s == r.after[k] || (k + 1 < |r.after| && r.after[k + 1] <= s)
    ensures s in r.before ==> s < r.head
  {
    hide Tiles, Room, Len;
    TileStep(m, r.after, r.head, |m|, k);
    if s in r.before {
      TileInside(m, r.before, 0, r.head, s);
      RoomAboveZero(m, s);
    } else {
      var i :| 0 <= i < |r.after| && r.after[i] == s;
      if i < k {
        assert s == r.after[..k][i];
      } else if k + 1 < i {
        TilesApartAt(m, r.after, r.head, |m|, k + 1, i);
      }
    }
  }

  lemma RoomAboveZero(m: seq<Byte>, s: nat)
    requires Len(m, s) > 0
    ensures Room(m, s) > 0
  {
  }

  /** A free run at head is room. */
  lemma RunIsRoom(m: seq<Byte>, r: Ring, k: nat, total: nat, n: nat)
    requires Arranged(m, r) && FreeRun(m, r, k, total) && n <= total
    ensures RoomAt(LiveBlocks(m, r.Circ()), r.head, n, |m|)
  {
    hide Tiles, Arranged, LiveAt, BlockAt;
    forall b | b in LiveBlocks(m, r.Circ()) ensures b < r.head || r.head + n <= b {
      TileOrder(m, r, b, k);
      assert r.after[..k + 1] == r.after[..k] + [r.after[k]];
    }
    RunInside(m, r, k, total);
  }

  lemma RunInside(m: seq<Byte>, r: Ring, k: nat, total: nat)
    requires Arranged(m, r) && FreeRun(m, r, k, total)
    ensures r.head + total <= |m|
  {
    if k + 1 < |r.after| {
      TileStep(m, r.after, r.head, |m|, k + 1);
    }
  }

  /** A block in use less than n bytes behind head leaves no room. */
  lemma BlockedNoRoom(m: seq<Byte>, r: Ring, k: nat, n: nat)
    requires Arranged(m, r) && k < |r.after| && LiveAt(m, r.after[k]) && r.after[k] - r.head < n
    ensures !RoomAt(LiveBlocks(m, r.Circ()), r.head, n, |m|) && !NoneFrom(LiveBlocks(m, r.Circ()), r.head)
  {
    hide Tiles, Arranged, LiveAt, BlockAt;
    var b := r.after[k];
    TileOrder(m, r, b, k);
    assert b in LiveBlocks(m, r.Circ());
  }

  lemma NoneFromHead(m: seq<Byte>, r: Ring)
    requires Arranged(m, r) && AllFree(m, r.after)
    ensures NoneFrom(LiveBlocks(m, r.Circ()), r.head)
  {
    hide Tiles, LiveAt, BlockAt;
    forall b | b in LiveBlocks(m, r.Circ()) ensures b < r.head {
      TileOrder(m, r, b, 0);
    }
  }

  lemma InitSame(m: seq<Byte>, m': seq<Byte>, starts: seq<nat>, s: nat)
    requires OthersSame(m, m', starts, s) && s !in starts
    ensures LiveStarts(m', starts) == LiveStarts(m, starts)
  {
    FilterCongruent(starts, Alive(m'), Alive(m));
  }

  /** The newest block, once owned, is the last in order. */
  lemma NewestJoins(m: seq<Byte>, m': seq<Byte>, r: Ring, b: nat)
    requires Arranged(m, r) && Newest(r, b) && OthersSame(m, m', r.Circ(), b)
    requires !LiveAt(m, b) && LiveAt(m', b)
    ensures LiveStarts(m', r.Circ()) == LiveStarts(m, r.Circ()) + [b]
    ensures LiveBlocks(m', r.Circ()) == LiveBlocks(m, r.Circ())[b := BlockAt(m', b)]
  {
    hide LiveAt, BlockAt, Tiles;
    var init := r.Circ()[..|r.Circ()| - 1];
    assert r.Circ() == init + [b];
    CircDistinct(m, r, |init|);
    assert forall t :: t in init ==> t in r.Circ();
    InitSame(m, m', init, b);
    FilterAppend(init, b, Alive(m));
    FilterAppend(init, b, Alive(m'));
    LiveBlocksUpdate(m, m', r.Circ(), b);
  }

  /** No block is listed twice. */
  lemma CircDistinct(m: seq<Byte>, r: Ring, k: nat)
    requires Arranged(m, r) && k < |r.Circ()|
    ensures r.Circ()[k] !in r.Circ()[..k]
  {
    hide Tiles, Room, Len;
    forall i | 0 <= i < k ensures r.Circ()[i] != r.Circ()[k] {
      if k < |r.after| {
        TilesApartAt(m, r.after, r.head, |m|, i, k);
        TileStep(m, r.after, r.head, |m|, i);
      } else if i >= |r.after| {
        TilesApartAt(m, r.before, 0, r.head, i - |r.after|, k - |r.after|);
        TileStep(m, r.before, 0, r.head, i - |r.after|);
      } else {
        TileStep(m, r.after, r.head, |m|, i);
        TileStep(m, r.before, 0, r.head, k - |r.after|);
        TileInside(m, r.after, r.head, |m|, r.after[i]);
      }
    }
  }

  /** A block given up drops out of the order. */
  lemma LeavesOrder(m: seq<Byte>, m': seq<Byte>, starts: seq<nat>, b: nat)
    requires b in starts && OthersSame(m, m', starts, b) && !LiveAt(m', b)
    ensures LiveStarts(m', starts) == Filter(LiveStarts(m, starts), (t: nat) => t != b)
    ensures LiveBlocks(m', starts) == LiveBlocks(m, starts) - {b}
  {
    hide LiveAt, BlockAt;
    FilterTwice(starts, Alive(m), (t: nat) => t != b, Alive(m'));
    LiveBlocksRemove(m, m', starts, b);
  }

  lemma StaysInOrder(m: seq<Byte>, m': seq<Byte>, starts: seq<nat>, b: nat)
    requires b in starts && OthersSame(m, m', starts, b) && LiveAt(m, b) && LiveAt(m', b)
    ensures LiveStarts(m', starts) == LiveStarts(m, starts)
    ensures LiveBlocks(m', starts) == LiveBlocks(m, starts)[b := BlockAt(m', b)]
  {
    hide LiveAt, BlockAt;
    LiveStartsSame(m, m', starts, b);
    LiveBlocksUpdate(m, m', starts, b);
  }

  // ---------- writing payload

  function Patch(m: seq<Byte>, o: nat, b: seq<Byte>): (m': seq<Byte>)
    requires o + |b| <= |m|
    ensures |m'| == |m|
  {
    m[..o] + b + m[o + |b|..]
  }

  /** Bytes written into a block's payload change its body there and nothing else. */
  lemma PatchBody(m: seq<Byte>, s: nat, off: nat, b: seq<Byte>)
    requires HEADER + off + |b| <= Len(m, s) && s + Len(m, s) <= |m|
    ensures var m' := Patch(m, s + HEADER + off, b);
      && SameOutside(m, m', s + HEADER, s + Len(m, s))
      && Len(m', s) == Len(m, s)
      && BlockAt(m', s) == BlockAt(m, s).(body := Patch(BlockAt(m, s).body, off, b))
  {
    hide Get;
    var lo := s + HEADER + off;
    var m' := Patch(m, lo, b);
    GetFrame(m, m', lo, lo + |b|, s);
    GetFrame(m, m', lo, lo + |b|, s + 4);
    GetFrame(m, m', lo, lo + |b|, s + 8);
    GetFrame(m, m', lo, lo + |b|, s + 12);
    SlicePatch(m, s + HEADER, s + Len(m, s), off, b);
  }

  lemma SlicePatch(m: seq<Byte>, lo: nat, hi: nat, off: nat, b: seq<Byte>)
    requires lo + off + |b| <= hi <= |m|
    ensures Patch(m, lo + off, b)[lo..hi] == Patch(m[lo..hi], off, b)
  {
  }

  /** After a length is shortened the bytes cut off are a free block of their own. */
  function Shrunk(m: seq<Byte>, s: nat, n: nat): (m': seq<Byte>)
    requires s + HEADER + n <= s + Len(m, s) && s + Room(m, s) <= |m| <= MAX_INT
  {
    var m1 := Put(m, s, HEADER + n);
    var room := Align(HEADER + n);
    if room < Room(m, s) then FreeBlock(m1, s + room, Room(m, s) - room) else m1
  }

  lemma ShrunkFacts(m: seq<Byte>, s: nat, n: nat, was: nat)
    requires FreshAt(m, s, was) && n <= was && s % 4 == 0 && s + Room(m, s) <= |m| <= MAX_INT
    ensures var m' := Shrunk(m, s, n);
      && SameOutside(m, m', s, s + Room(m, s)) && FreshAt(m', s, n)
      && Tiles(m', CutStarts(s, Align(HEADER + n), Room(m, s)), s, s + Room(m, s))
      && AllFree(m', CutStarts(s, Align(HEADER + n), Room(m, s)))
      && m'[s + HEADER..s + HEADER + n] == m[s + HEADER..s + HEADER + n]
  {
    hide Get, Put, FreeBlock, Tiles, CutStarts;
    var m1, m', room, total := Put(m, s, HEADER + n), Shrunk(m, s, n), Align(HEADER + n), Room(m, s);
    PutGet(m, s, HEADER + n);
    GetFrame(m, m1, s, s + 4, s + 4);
    GetFrame(m, m1, s, s + 4, s + 8);
    GetFrame(m, m1, s, s + 4, s + 12);
    SliceFrame(m, m1, s, s + 4, s + HEADER, s + HEADER + n);
    if room < total {
      FreeBlockFacts(m1, s + room, total - room);
      FreshFrame(m1, m', s, n, s + room, s + total);
      SliceFrame(m1, m', s + room, s + total, s + HEADER, s + HEADER + n);
      CutTiles(m', s, room, total);
    } else {
      WholeRun(m', s, total);
    }
    CutFree(m', s, n, total);
  }

  /** The blocks around the newest one, b: `pre` up to it and `rest` behind it. */
  lemma SplitNewest(m: seq<Byte>, r: Ring, b: nat) returns (pre: seq<nat>, rest: seq<nat>)
    requires Arranged(m, r) && Newest(r, b)
    ensures r.Circ() == rest + (pre + [b]) && r.before + r.after == pre + [b] + rest
    ensures Len(m, b) > 0 && b + Room(m, b) <= |m| && b % 4 == 0
    ensures Tiles(m, pre, 0, b) && Tiles(m, rest, b + Room(m, b), |m|)
    ensures (r.before == pre + [b] && rest == r.after) || (r.before == [] && r.after == pre + [b] && rest == [])
  {
    var w := if r.before == [] then r.after else r.before;
    var hi := if r.before == [] then |m| else r.head;
    pre, rest := w[..|w| - 1], if r.before == [] then [] else r.after;
    assert w == pre + [b] && w[|pre|] == b;
    var lo := if r.before == [] then r.head else 0;
    TileStep(m, w, lo, hi, |pre|);
    TilesSplit(m, w, lo, hi, |pre|);
    if r.before == [] {
      assert r.head == 0;
      assert r.Circ() == rest + (pre + [b]);
      NoTilesAt(m, |m|);
    }
  }

  lemma NoTilesAt(m: seq<Byte>, hi: nat)
    ensures Tiles(m, [], hi, hi)
  {
  }

  /** Where head and the blocks are once the newest block b is shortened to `room` bytes. */
  function ShrunkRing(b: nat, room: nat, pre: seq<nat>, rest: seq<nat>): Ring {
    Ring(b + room, pre + [b], [b + room] + rest)
  }

  lemma ShrinkArranged(m: seq<Byte>, m': seq<Byte>, r: Ring, b: nat, room: nat, pre: seq<nat>, rest: seq<nat>)
    requires Arranged(m, r) && Newest(r, b) && !LiveAt(m, b)
    requires r.Circ() == rest + (pre + [b]) && Tiles(m, pre, 0, b) && Tiles(m, rest, b + Room(m, b), |m|)
    requires b % 4 == 0 && Len(m, b) > 0 && b + Room(m, b) <= |m| && 0 < room < Room(m, b) && room % 4 == 0
    requires SameOutside(m, m', b, b + Room(m, b))
    requires Tiles(m', CutStarts(b, room, Room(m, b)), b, b + Room(m, b)) && Room(m', b) == room
    requires AllFree(m', CutStarts(b, room, Room(m, b)))
    ensures var r' := ShrunkRing(b, room, pre, rest);
      && Arranged(m', r') && Newest(r', b)
      && LiveStarts(m', r'.Circ()) == LiveStarts(m, r.Circ())
      && LiveBlocks(m', r'.Circ()) == LiveBlocks(m, r.Circ())
  {
    hide Tiles, LiveAt, BlockAt, Len, Room, LiveStarts, LiveBlocks;
    var total := Room(m, b);
    StretchSame(m, m', pre, 0, b, b, b + total);
    StretchSame(m, m', rest, b + total, |m|, b, b + total);
    CutAfterHead(m', Ring(b, pre, [b] + rest), room, total, rest);
    assert CutStarts(b, room, total) == [b] + [b + room];
    assert b in CutStarts(b, room, total) && b + room in CutStarts(b, room, total);
    ShrinkOrder(m, m', pre, rest, b, room);
    assert ShrunkRing(b, room, pre, rest).Circ() == [b + room] + ((rest + pre) + [b]);
    assert r.Circ() == (rest + pre) + [b];
  }

  lemma ShrinkOrder(m: seq<Byte>, m': seq<Byte>, pre: seq<nat>, rest: seq<nat>, b: nat, room: nat)
    requires !LiveAt(m, b) && !LiveAt(m', b) && !LiveAt(m', b + room)
    requires LiveStarts(m', pre) == LiveStarts(m, pre) && LiveStarts(m', rest) == LiveStarts(m, rest)
    requires forall s :: (s in pre || s in rest) && LiveAt(m, s) ==> BlockAt(m', s) == BlockAt(m, s)
    ensures LiveStarts(m', [b + room] + ((rest + pre) + [b])) == LiveStarts(m, (rest + pre) + [b])
    ensures LiveBlocks(m', [b + room] + ((rest + pre) + [b])) == LiveBlocks(m, (rest + pre) + [b])
  {
    hide LiveAt, BlockAt;
    DropFreePrefix(m', [b + room], (rest + pre) + [b]);
    DropFreeSuffix(m', rest + pre, [b]);
    DropFreeSuffix(m, rest + pre, [b]);
    FilterConcat(rest, pre, Alive(m));
    FilterConcat(rest, pre, Alive(m'));
    forall s | s in LiveStarts(m, (rest + pre) + [b]) ensures BlockAt(m', s) == BlockAt(m, s) {
      FilterMember(rest + pre, Alive(m), s);
    }
    LiveBlocksFromStarts(m, m', (rest + pre) + [b], [b + room] + ((rest + pre) + [b]));
  }

  /** Head may be moved back onto the newest block while nobody owns it. */
  lemma UndoNewest(m: seq<Byte>, r: Ring, b: nat, pre: seq<nat>, rest: seq<nat>)
    requires Arranged(m, r) && Newest(r, b) && !LiveAt(m, b)
    requires r.Circ() == rest + (pre + [b]) && Tiles(m, pre, 0, b) && Tiles(m, rest, b + Room(m, b), |m|)
    requires Len(m, b) > 0 && b + Room(m, b) <= |m| && b % 4 == 0
    ensures var r' := Ring(b, pre, [b] + rest);
      && Arranged(m, r')
      && LiveStarts(m, r'.Circ()) == LiveStarts(m, r.Circ())
      && LiveBlocks(m, r'.Circ()) == LiveBlocks(m, r.Circ())
  {
    hide LiveAt, BlockAt, Len, Tiles, LiveStarts, LiveBlocks, Room;
    var r' := Ring(b, pre, [b] + rest);
    HeadTile(m, b, rest);
    assert r'.Circ() == [b] + (rest + pre) && r.Circ() == (rest + pre) + [b];
    RotateFree(m, rest + pre, b);
  }

  lemma HeadTile(m: seq<Byte>, b: nat, rest: seq<nat>)
    requires Tiles(m, rest, b + Room(m, b), |m|) && |m| % 4 == 0
    requires Len(m, b) > 0 && b + Room(m, b) <= |m| && b % 4 == 0
    ensures Tiles(m, [b] + rest, b, |m|)
  {
  }

  lemma RotateFree(m: seq<Byte>, x: seq<nat>, b: nat)
    requires !LiveAt(m, b)
    ensures LiveStarts(m, [b] + x) == LiveStarts(m, x + [b])
    ensures LiveBlocks(m, [b] + x) == LiveBlocks(m, x + [b])
  {
    hide LiveAt, BlockAt;
    DropFreePrefix(m, [b], x);
    DropFreeSuffix(m, x, [b]);
    LiveBlocksFromStarts(m, m, x + [b], [b] + x);
  }

  // ---------- single rewrites, all consequences at once

  lemma LiveMember(m: seq<Byte>, starts: seq<nat>, b: nat)
    requires b in LiveBlocks(m, starts)
    ensures b in starts && LiveAt(m, b) && LiveBlocks(m, starts)[b] == BlockAt(m, b) && Len(m, b) >= HEADER
  {
  }

  lemma BlockFits(m: seq<Byte>, r: Ring, b: nat)
    requires Arranged(m, r) && b in r.Circ()
    ensures Len(m, b) > 0 && b + Len(m, b) <= b + Room(m, b) <= |m| && b % 4 == 0
    ensures Len(m, b) >= HEADER ==> |BlockAt(m, b).body| == Len(m, b) - HEADER
  {
    ArrangedWhole(m, r);
    TileInside(m, r.before + r.after, 0, |m|, b);
  }

  lemma WordRewritten(m: seq<Byte>, r: Ring, b: nat, w: nat, v: int)
    requires Arranged(m, r) && b in r.Circ() && Len(m, b) >= HEADER && IsInt(v) && w in {4, 8, 12}
    ensures b + w + 4 <= |m|
    ensures var m' := Put(m, b + w, v);
      && Arranged(m', r) && OthersSame(m, m', r.Circ(), b) && Len(m', b) == Len(m, b)
      && BlockAt(m', b) == (if w == 4 then BlockAt(m, b).(offset := v)
                            else if w == 8 then BlockAt(m, b).(id := v) else BlockAt(m, b).(next := v))
  {
    hide Tiles, BlockAt, LiveAt, Get, Put;
    BlockFits(m, r, b);
    PutWord(m, b, w, v);
    RewriteArranged(m, Put(m, b + w, v), r, b);
  }

  lemma PayloadRewritten(m: seq<Byte>, r: Ring, b: nat, off: nat, bytes: seq<Byte>)
    requires Arranged(m, r) && b in r.Circ() && HEADER + off + |bytes| <= Len(m, b)
    ensures b + HEADER + off + |bytes| <= |m|
    ensures var m' := Patch(m, b + HEADER + off, bytes);
      && Arranged(m', r) && OthersSame(m, m', r.Circ(), b) && Len(m', b) == Len(m, b)
      && |BlockAt(m, b).body| == Len(m, b) - HEADER
      && BlockAt(m', b) == BlockAt(m, b).(body := Patch(BlockAt(m, b).body, off, bytes))
  {
    hide Tiles, BlockAt, LiveAt, Get, Patch;
    BlockFits(m, r, b);
    PatchBody(m, b, off, bytes);
    RewriteArranged(m, Patch(m, b + HEADER + off, bytes), r, b);
  }

  lemma LiveIff(m: seq<Byte>, s: nat)
    ensures LiveAt(m, s) <==> Len(m, s) >= HEADER && BlockAt(m, s).id >= 0
  {
  }

  lemma FreshIff(m: seq<Byte>, s: nat, n: nat)
    ensures FreshAt(m, s, n) <==>
      Len(m, s) == HEADER + n && BlockAt(m, s) == Block(-1, -1, 0, BlockAt(m, s).body)
  {
  }
}
