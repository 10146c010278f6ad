/** The byte arena of win_skynet's ringbuffer.c as a value. Block headers tile it: each block starts
    with a header, and the next block follows its length rounded up to four. */
module Arena {
  import opened Bytes

  /** sizeof(struct ringbuffer_block): length, offset, id, next. */
  const HEADER: nat := 16

  function Align(n: nat): (r: nat)
    ensures n <= r < n + 4 && r % 4 == 0
    ensures n % 4 == 0 ==> r == n
  {
    (n + 3) / 4 * 4
  }

  // ---------- ints in the arena

  function Get(m: seq<Byte>, o: nat): (v: int)
    ensures IsInt(v)
  {
    if o + 4 <= |m| then BytesInt(m[o..o + 4]) else 0
  }

  function Put(m: seq<Byte>, o: nat, v: int): (m': seq<Byte>)
    requires o + 4 <= |m|
    ensures |m'| == |m|
  {
    m[..o] + IntBytes(v) + m[o + 4..]
  }

  /** m and m' differ at most in [lo, hi). */
  ghost predicate SameOutside(m: seq<Byte>, m': seq<Byte>, lo: nat, hi: nat) {
    |m| == |m'| && forall i :: 0 <= i < |m| && !(lo <= i < hi) ==> m'[i] == m[i]
  }

  lemma PutGet(m: seq<Byte>, o: nat, v: int)
    requires o + 4 <= |m| && IsInt(v)
    ensures Get(Put(m, o, v), o) == v
    ensures SameOutside(m, Put(m, o, v), o, o + 4)
  {
    assert Put(m, o, v)[o..o + 4] == IntBytes(v);
    IntRoundTrip(v);
  }

  lemma SliceFrame(m: seq<Byte>, m': seq<Byte>, lo: nat, hi: nat, a: nat, b: nat)
    requires SameOutside(m, m', lo, hi) && a <= b <= |m| && (b <= lo || hi <= a)
    ensures m'[a..b] == m[a..b]
  {
  }

  lemma GetFrame(m: seq<Byte>, m': seq<Byte>, lo: nat, hi: nat, o: nat)
    requires SameOutside(m, m', lo, hi) && (o + 4 <= lo || hi <= o)
    ensures Get(m', o) == Get(m, o)
  {
    if o + 4 <= |m| {
      SliceFrame(m, m', lo, hi, o, o + 4);
    }
  }

  function Take(b: seq<Byte>, n: nat): seq<Byte> { if n <= |b| then b[..n] else b }

  // ---------- block headers

  function Len(m: seq<Byte>, s: nat): int { Get(m, s) }
  function Offset(m: seq<Byte>, s: nat): int { Get(m, s + 4) }
  function Id(m: seq<Byte>, s: nat): int { Get(m, s + 8) }
  function Next(m: seq<Byte>, s: nat): int { Get(m, s + 12) }

  /** The bytes a block takes up: its length rounded up to four. */
  function Room(m: seq<Byte>, s: nat): (r: nat)
    ensures r % 4 == 0 && Len(m, s) <= r
  {
    if Len(m, s) > 0 then Align(Len(m, s)) else 0
  }

  /** What a block in use says: its owner, its successor on the owner's chain, how many payload
      bytes are already consumed, and its payload. */
  datatype Block = Block(id: int, next: int, offset: int, body: seq<Byte>)

  predicate LiveAt(m: seq<Byte>, s: nat) {
    Len(m, s) >= HEADER && Id(m, s) >= 0
  }

  function BlockAt(m: seq<Byte>, s: nat): Block {
    Block(Id(m, s), Next(m, s), Offset(m, s),
          if s + HEADER <= s + Len(m, s) <= |m| then m[s + HEADER..s + Len(m, s)] else [])
  }

  /** The blocks starting at `starts` tile [lo, hi). */
  ghost predicate Tiles(m: seq<Byte>, starts: seq<nat>, lo: nat, hi: nat)
    decreases |starts|
  {
    if starts == [] then lo == hi
    else
      && starts[0] == lo && lo % 4 == 0 && hi % 4 == 0 && hi <= |m|
      && Len(m, lo) > 0 && lo + Room(m, lo) <= hi
      && Tiles(m, starts[1..], lo + Room(m, lo), hi)
  }

  lemma {:induction false} TilesConcat(m: seq<Byte>, a: seq<nat>, b: seq<nat>, lo: nat, mid: nat, hi: nat)
    requires Tiles(m, a, lo, mid) && Tiles(m, b, mid, hi)
    requires mid <= hi && hi % 4 == 0 && hi <= |m|
    ensures Tiles(m, a + b, lo, hi)
    decreases |a|
  {
    if a == [] {
      assert a + b == b;
    } else {
      TilesConcat(m, a[1..], b, lo + Room(m, lo), mid, hi);
      TilesOrdered(m, a[1..], lo + Room(m, lo), mid);
      assert (a + b)[1..] == a[1..] + b;
    }
  }

  lemma {:induction false} TilesOrdered(m: seq<Byte>, starts: seq<nat>, lo: nat, hi: nat)
    requires Tiles(m, starts, lo, hi)
    ensures lo <= hi
    decreases |starts|
  {
  }

  /** Cutting the list of blocks at index i cuts the arena at that block's start. */
  lemma {:induction false} TilesSplit(m: seq<Byte>, starts: seq<nat>, lo: nat, hi: nat, i: nat)
    requires Tiles(m, starts, lo, hi) && i <= |starts|
    ensures var mid := if i < |starts| then starts[i] else hi;
      lo <= mid <= hi && Tiles(m, starts[..i], lo, mid) && Tiles(m, starts[i..], mid, hi)
    decreases |starts|
  {
    TilesOrdered(m, starts, lo, hi);
    if i == 0 {
      assert starts[0..] == starts;
    } else {
      TilesSplit(m, starts[1..], lo + Room(m, lo), hi, i - 1);
      assert starts[1..][..i - 1] == starts[..i][1..];
      assert starts[1..][i - 1..] == starts[i..];
    }
  }

  lemma {:induction false} TilesFrame(m: seq<Byte>, m': seq<Byte>, starts: seq<nat>, lo: nat, hi: nat, a: nat, b: nat)
    requires Tiles(m, starts, lo, hi) && SameOutside(m, m', a, b) && (hi <= a || b <= lo)
    ensures Tiles(m', starts, lo, hi)
    decreases |starts|
  {
    if starts != [] {
      var next := lo + Room(m, lo);
      TilesOrdered(m, starts[1..], next, hi);
      TilesFrame(m, m', starts[1..], next, hi, a, b);
      GetFrame(m, m', a, b, lo);
    }
  }

  /** A block lies inside the stretch it helps to tile. */
  lemma {:induction false} TileInside(m: seq<Byte>, starts: seq<nat>, lo: nat, hi: nat, s: nat)
    requires Tiles(m, starts, lo, hi) && s in starts
    ensures Len(m, s) > 0 && lo <= s && s + Room(m, s) <= hi <= |m|
    ensures s % 4 == 0
    decreases |starts|
  {
    var next := lo + Room(m, lo);
    TilesOrdered(m, starts[1..], next, hi);
    if s != lo {
      TileInside(m, starts[1..], next, hi, s);
    }
  }

  lemma BlockFrame(m: seq<Byte>, m': seq<Byte>, s: nat, a: nat, b: nat)
    requires SameOutside(m, m', a, b) && Len(m, s) > 0 && s + Room(m, s) <= |m|
    requires s + Room(m, s) <= a || b <= s
    ensures Len(m', s) == Len(m, s) && LiveAt(m', s) == LiveAt(m, s)
    ensures LiveAt(m, s) ==> BlockAt(m', s) == BlockAt(m, s)
  {
    GetFrame(m, m', a, b, s);
    if Len(m, s) >= HEADER {
      GetFrame(m, m', a, b, s + 4);
      GetFrame(m, m', a, b, s + 8);
      GetFrame(m, m', a, b, s + 12);
      SliceFrame(m, m', a, b, s + HEADER, s + Len(m, s));
    }
  }
}
