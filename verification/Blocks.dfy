/** The chunked output buffer of lua-seri.c: a chain of 128-byte blocks, written through wb_push and
    flattened by _seri. */
module Blocks {
  import opened Bytes

  const BLOCK_SIZE: nat := 128
  const LEN_SIZE: nat := 4

  class Block {
    const buffer: array<Byte>
    var next: Block?

    /** blk_alloc */
    constructor ()
      ensures fresh(buffer) && buffer.Length == BLOCK_SIZE && next == null
    {
      buffer := new Byte[BLOCK_SIZE](_ => 0);
      next := null;
    }
  }

  /** The bytes of a run of full blocks. */
  ghost function Full(c: seq<Block>): (t: seq<Byte>)
    reads set b <- c :: b.buffer
  {
    if c == [] then [] else Full(c[..|c| - 1]) + c[|c| - 1].buffer[..]
  }

  ghost predicate IsChain(c: seq<Block>)
    reads c
  {
    && c != [] && c[|c| - 1].next == null
    && (forall i :: 0 <= i < |c| ==> c[i].buffer.Length == BLOCK_SIZE)
    && (forall i :: 0 <= i < |c| - 1 ==> c[i].next == c[i + 1])
    && (forall i, j :: 0 <= i < j < |c| ==> c[i] != c[j] && c[i].buffer != c[j].buffer)
  }

  lemma ChainGrows(c: seq<Block>, b: Block)
    requires c != [] && c[|c| - 1].next == b && b.next == null && b.buffer.Length == BLOCK_SIZE
    requires forall i :: 0 <= i < |c| ==> c[i].buffer.Length == BLOCK_SIZE && c[i] != b && c[i].buffer != b.buffer
    requires forall i :: 0 <= i < |c| - 1 ==> c[i].next == c[i + 1]
    requires forall i, j :: 0 <= i < j < |c| ==> c[i] != c[j] && c[i].buffer != c[j].buffer
    ensures IsChain(c + [b])
  {
  }

  lemma {:induction false} FullLength(c: seq<Block>)
    requires forall i :: 0 <= i < |c| ==> c[i].buffer.Length == BLOCK_SIZE
    ensures |Full(c)| == BLOCK_SIZE * |c|
  {
    if c != [] { FullLength(c[..|c| - 1]); }
  }

  /** Where a block's bytes lie in the whole. */
  lemma {:induction false} FullAt(c: seq<Block>, i: nat)
    requires i < |c| && forall k :: 0 <= k < |c| ==> c[k].buffer.Length == BLOCK_SIZE
    ensures BLOCK_SIZE * i + BLOCK_SIZE <= |Full(c)|
    ensures Full(c)[BLOCK_SIZE * i..BLOCK_SIZE * i + BLOCK_SIZE] == c[i].buffer[..]
  {
    var init := c[..|c| - 1];
    FullLength(c);
    FullLength(init);
    if i < |init| { FullAt(init, i); }
  }

  lemma {:induction false} FullFront(c: seq<Block>)
    requires c != []
    ensures Full(c) == c[0].buffer[..] + Full(c[1..])
  {
    if |c| > 1 {
      var init := c[..|c| - 1];
      FullFront(init);
      assert init[1..] == c[1..][..|c| - 2];
      assert init[0] == c[0] && c[1..][|c| - 2] == c[|c| - 1];
    }
  }

  /** A chain that carries its own length in front, as wb_close leaves it. */
  ghost predicate Sealed(c: seq<Block>, payload: seq<Byte>)
    reads c, set b <- c :: b.buffer
  {
    IsChain(c) && ToBytes(|payload| + LEN_SIZE, LEN_SIZE) + payload <= Full(c)
  }

  ghost function Following(c: seq<Block>, i: nat): Block? {
    if i + 1 < |c| then c[i + 1] else null
  }

  lemma SealedChain(c: seq<Block>, payload: seq<Byte>)
    requires Sealed(c, payload)
    ensures c != [] && c[0].buffer.Length == BLOCK_SIZE && c[0].next == Following(c, 0)
  {
  }

  lemma PrefixSlice(t: seq<Byte>, full: seq<Byte>, from: nat, to: nat, first: seq<Byte>)
    requires t <= full && from <= to <= |t| && to <= |first| <= |full| && full[..|first|] == first
    ensures first[from..to] == t[from..to]
  {
  }

  lemma FirstPiece(c: seq<Block>, payload: seq<Byte>, n: nat)
    requires Sealed(c, payload) && n <= |payload| && n <= BLOCK_SIZE - LEN_SIZE
    ensures c[0].buffer[..LEN_SIZE] == ToBytes(|payload| + LEN_SIZE, LEN_SIZE)
    ensures c[0].buffer[LEN_SIZE..LEN_SIZE + n] == payload[..n]
  {
    hide ToBytes, Full;
    FullAt(c, 0);
    var front := ToBytes(|payload| + LEN_SIZE, LEN_SIZE);
    PrefixSlice(front + payload, Full(c), 0, LEN_SIZE, c[0].buffer[..]);
    PrefixSlice(front + payload, Full(c), LEN_SIZE, LEN_SIZE + n, c[0].buffer[..]);
    assert (front + payload)[..LEN_SIZE] == front;
    assert (front + payload)[LEN_SIZE..LEN_SIZE + n] == payload[..n];
  }

  lemma LaterPiece(c: seq<Block>, payload: seq<Byte>, i: nat, at: nat, n: nat)
    requires Sealed(c, payload) && i >= 1 && at == BLOCK_SIZE * i - LEN_SIZE
    requires 0 < n <= BLOCK_SIZE && at + n <= |payload|
    ensures i < |c| && c[i].buffer.Length == BLOCK_SIZE && c[i].buffer[..n] == payload[at..at + n]
    ensures c[i].next == Following(c, i)
  {
    hide ToBytes;
    FullLength(c);
    FullAt(c, i);
    var full := ToBytes(|payload| + LEN_SIZE, LEN_SIZE) + payload;
    var block := c[i].buffer[..];
    assert block[..n] == Full(c)[BLOCK_SIZE * i..BLOCK_SIZE * i + n];
    assert full[BLOCK_SIZE * i..BLOCK_SIZE * i + n] == payload[at..at + n];
  }

  /** The length in front is read back right. */
  lemma LengthReadsBack(c: seq<Block>, payload: seq<Byte>)
    requires Sealed(c, payload) && |payload| + LEN_SIZE <= MAX_INT
    ensures FromBytes(c[0].buffer[..LEN_SIZE]) == |payload| + LEN_SIZE
  {
    FirstPiece(c, payload, 0);
    assert Range(4) == 0x1_0000_0000;
    FromToBytes(|payload| + LEN_SIZE, LEN_SIZE);
  }

  class WriteBlock {
    const head: Block
    var len: nat
    var current: Block
    var ptr: nat
    ghost var chain: seq<Block>

    ghost predicate Valid()
      reads this, chain
    {
      && IsChain(chain) && head == chain[0] && current == chain[|chain| - 1]
      && ptr <= BLOCK_SIZE && len == BLOCK_SIZE * (|chain| - 1) + ptr
    }

    /** Everything written so far, whatever block it is in. */
    ghost function Text(): (t: seq<Byte>)
      requires Valid()
      reads this, chain, set b <- chain :: b.buffer
    {
      Full(chain[..|chain| - 1]) + current.buffer[..ptr]
    }

    /** wb_init: room for the length is left at the front. */
    constructor ()
      ensures Valid() && fresh(current) && fresh(current.buffer) && fresh(head) && fresh(head.buffer)
      ensures Text() == ToBytes(0, LEN_SIZE)
    {
      var b := new Block();
      head, current, chain := b, b, [b];
      len, ptr := 0, 0;
      new;
      assert Text() == [];
      Push(ToBytes(0, LEN_SIZE));
    }

    /** memcpy into the current block. */
    method Store(buf: seq<Byte>)
      requires ptr + |buf| <= current.buffer.Length
      modifies `ptr, `len, current.buffer
      ensures ptr == old(ptr) + |buf| && len == old(len) + |buf|
      ensures current.buffer[..] == old(current.buffer[..ptr]) + buf + old(current.buffer[ptr + |buf|..])
    {
      forall i | 0 <= i < |buf| {
        current.buffer[ptr + i] := buf[i];
      }
      ptr := ptr + |buf|;
      len := len + |buf|;
    }

    /** A copy that fits into the current block. */
    method Fill(buf: seq<Byte>)
      requires Valid() && ptr + |buf| <= BLOCK_SIZE
      modifies `ptr, `len, current.buffer
      ensures Valid() && Text() == old(Text()) + buf && ptr == old(ptr) + |buf|
    {
      Store(buf);
      assert current.buffer[..ptr] == old(current.buffer[..ptr]) + buf;
    }

    /** b->current = b->current->next = b */
    method LinkBlock(b: Block)
      requires Valid() && b !in chain && b.next == null && b.buffer.Length == BLOCK_SIZE && ptr == BLOCK_SIZE
      requires forall c :: c in chain ==> c.buffer != b.buffer
      modifies `current, `ptr, `chain, current
      ensures Valid() && chain == old(chain) + [b] && current == b && ptr == 0 && len == old(len)
      ensures old(current).buffer.Length == BLOCK_SIZE
    {
      current.next := b;
      ChainGrows(chain, b);
      current := b;
      ptr := 0;
      chain := chain + [b];
    }

    method NextBlock()
      requires Valid() && ptr == BLOCK_SIZE
      modifies this, current
      ensures Valid() && ptr == 0 && len == old(len) && Text() == old(Text())
      ensures fresh(current) && fresh(current.buffer)
    {
      hide IsChain;
      var b := new Block();
      LinkBlock(b);
      assert chain[..|chain| - 1] == old(chain);
    }

    /** wb_push: the block boundaries do not show. */
    method Push(buf: seq<Byte>)
      requires Valid()
      modifies this, current, current.buffer
      ensures Valid() && Text() == old(Text()) + buf
      ensures current == old(current) || (fresh(current) && fresh(current.buffer))
    {
      hide Text, IsChain;
      var rest := buf;
      if ptr == BLOCK_SIZE {
        NextBlock();
      }
      while ptr > BLOCK_SIZE - |rest|
        invariant Valid() && Text() + rest == old(Text()) + buf
        invariant current == old(current) || (fresh(current) && fresh(current.buffer))
        decreases |rest| + ptr
      {
        var copy := BLOCK_SIZE - ptr;
        Fill(rest[..copy]);
        rest := rest[copy..];
        NextBlock();
      }
      Fill(rest);
    }

    /** wb_close: the length goes in front. */
    method Close() returns (b: Block)
      requires Valid() && LEN_SIZE <= len <= MAX_INT
      modifies this, head.buffer
      ensures b == head == old(chain)[0]
      ensures Sealed(old(chain), old(Text()[LEN_SIZE..]))
    {
      hide Full, Text, ToBytes;
      ghost var c, text, full := chain, Text(), Full(chain);
      TextPrefix();
      FullFront(c);
      current := head;
      ptr := 0;
      Store(ToBytes(len, LEN_SIZE));
      FullFront(c);
      Overwritten(full, Full(c), text, ToBytes(|text|, LEN_SIZE));
      b := head;
    }

    static lemma Overwritten(was: seq<Byte>, now: seq<Byte>, text: seq<Byte>, front: seq<Byte>)
      requires |front| <= |text| && text <= was && now == front + was[|front|..]
      ensures front + text[|front|..] <= now
    {
    }

    lemma TextPrefix()
      requires Valid()
      ensures Text() <= Full(chain) && |Text()| == len && |Full(chain)| == BLOCK_SIZE * |chain|
      ensures Full(chain)[..BLOCK_SIZE] == head.buffer[..]
    {
      FullLength(chain);
      FullLength(chain[..|chain| - 1]);
      FullAt(chain, 0);
    }
  }

  /** memcpy */
  method Copy(dst: array<Byte>, at: nat, src: array<Byte>, from: nat, n: nat)
    requires dst != src && at + n <= dst.Length && from + n <= src.Length
    modifies dst
    ensures dst[..] == old(dst[..at]) + src[from..from + n] + old(dst[at + n..])
  {
    forall i | 0 <= i < n {
      dst[at + i] := src[from + i];
    }
  }

  /** memcpy of the next piece behind the part of the payload that is there. */
  method CopyPiece(buffer: array<Byte>, ptr: nat, src: array<Byte>, from: nat, n: nat, ghost payload: seq<Byte>)
    requires buffer != src && ptr + n <= buffer.Length == |payload| && from + n <= src.Length
    requires buffer[..ptr] == payload[..ptr] && src[from..from + n] == payload[ptr..ptr + n]
    modifies buffer
    ensures buffer[..ptr + n] == payload[..ptr + n]
  {
    Copy(buffer, ptr, src, from, n);
    assert buffer[..ptr + n] == payload[..ptr] + payload[ptr..ptr + n];
  }

  /** _seri: the blocks become one buffer. */
  method Seri(head: Block, ghost c: seq<Block>, ghost payload: seq<Byte>) returns (buffer: array<Byte>)
    requires Sealed(c, payload) && head == c[0] && |payload| + LEN_SIZE <= MAX_INT
    ensures fresh(buffer) && buffer[..] == payload
  {
    hide Sealed, IsChain, Full, ToBytes, FromBytes;
    SealedChain(c, payload);
    LengthReadsBack(c, payload);
    var len: nat := FromBytes(head.buffer[..LEN_SIZE]) - LEN_SIZE;
    buffer := new Byte[len];
    if len < BLOCK_SIZE - LEN_SIZE {
      FirstPiece(c, payload, len);
      CopyPiece(buffer, 0, head.buffer, LEN_SIZE, len, payload);
    } else {
      FirstPiece(c, payload, BLOCK_SIZE - LEN_SIZE);
      CopyPiece(buffer, 0, head.buffer, LEN_SIZE, BLOCK_SIZE - LEN_SIZE, payload);
      var ptr := BLOCK_SIZE - LEN_SIZE;
      len := len - (BLOCK_SIZE - LEN_SIZE);
      var b := head.next;
      ghost var i := 1;
      while len > 0
        invariant i >= 1 && b == Following(c, i - 1)
        invariant ptr == BLOCK_SIZE * i - LEN_SIZE && ptr + len == |payload| == buffer.Length
        invariant buffer[..ptr] == payload[..ptr]
      {
        LaterPiece(c, payload, i, ptr, if len >= BLOCK_SIZE then BLOCK_SIZE else len);
        if len >= BLOCK_SIZE {
          CopyPiece(buffer, ptr, b.buffer, 0, BLOCK_SIZE, payload);
          ptr := ptr + BLOCK_SIZE;
          len := len - BLOCK_SIZE;
        } else {
          CopyPiece(buffer, ptr, b.buffer, 0, len, payload);
          break;
        }
        b := b.next;
        i := i + 1;
      }
    }
  }
}
