/** The byte string that a chain of blocks stands for, over the map of blocks in use. */
module Streams {
  import opened Bytes
  import opened Arena

  type Blocks = map<nat, Block>

  ghost function NextOn(chain: seq<nat>, i: nat): int
    requires i < |chain|
  {
    if i + 1 < |chain| then chain[i + 1] else -1
  }

  /** chain lists, in link order, blocks that connection `id` owns; only the first may be partly
      consumed. */
  ghost predicate IsChain(live: Blocks, chain: seq<nat>, id: nat) {
    && (forall i :: 0 <= i < |chain| ==>
      && chain[i] in live
      && live[chain[i]].id == id
      && live[chain[i]].next == NextOn(chain, i)
      && 0 <= live[chain[i]].offset <= |live[chain[i]].body|
      && (i > 0 ==> live[chain[i]].offset == 0))
    && (forall i, j :: 0 <= i < j < |chain| ==> chain[i] != chain[j])
  }

  ghost function Members(chain: seq<nat>): set<nat> { set s | s in chain }

  lemma MembersUpTo(chain: seq<nat>, i: nat)
    requires i < |chain|
    ensures Members(chain[..i + 1]) == Members(chain[..i]) + {chain[i]}
    ensures Members(chain[..0]) == {} && Members(chain[..|chain|]) == Members(chain)
  {
  }

  /** The bytes of a block not consumed yet. */
  ghost function Unread(b: Block): seq<Byte> {
    if 0 <= b.offset <= |b.body| then b.body[b.offset..] else []
  }

  ghost function Text(live: Blocks, chain: seq<nat>): seq<Byte>
    requires forall s :: s in chain ==> s in live
  {
    if chain == [] then [] else Unread(live[chain[0]]) + Text(live, chain[1..])
  }

  lemma {:induction false} TextFrame(live: Blocks, live': Blocks, chain: seq<nat>)
    requires forall s :: s in chain ==>
      s in live && s in live' && live[s].body == live'[s].body && live[s].offset == live'[s].offset
    ensures Text(live, chain) == Text(live', chain)
  {
    if chain != [] {
      TextFrame(live, live', chain[1..]);
    }
  }

  lemma ChainFrame(live: Blocks, live': Blocks, chain: seq<nat>, id: nat)
    requires IsChain(live, chain, id)
    requires forall s :: s in chain ==> s in live' && live'[s] == live[s]
    ensures IsChain(live', chain, id) && Text(live', chain) == Text(live, chain)
  {
    ChainMembers(live, chain, id);
    TextFrame(live, live', chain);
  }

  lemma ChainMembers(live: Blocks, chain: seq<nat>, id: nat)
    requires IsChain(live, chain, id)
    ensures forall s :: s in chain ==> s in live && live[s].id == id
  {
  }

  lemma TextUnfold(live: Blocks, chain: seq<nat>)
    requires chain != [] && forall s :: s in chain ==> s in live
    ensures Text(live, chain) == Unread(live[chain[0]]) + Text(live, chain[1..])
  {
  }

  /** Appending a block to a chain appends its bytes to the chain's text. */
  lemma {:induction false} TextAppend(live: Blocks, chain: seq<nat>, b: nat)
    requires b in live && forall s :: s in chain ==> s in live
    ensures Text(live, chain + [b]) == Text(live, chain) + Unread(live[b])
  {
    if chain == [] {
      assert chain + [b] == [b];
      assert Text(live, [b]) == Unread(live[b]) + Text(live, []);
    } else {
      TextAppend(live, chain[1..], b);
      assert (chain + [b])[1..] == chain[1..] + [b];
      TextUnfold(live, chain + [b]);
      Associate(Unread(live[chain[0]]), Text(live, chain[1..]), Unread(live[b]));
    }
  }

  lemma {:induction false} TextConcat(live: Blocks, x: seq<nat>, y: seq<nat>)
    requires forall s :: s in x || s in y ==> s in live
    ensures forall s :: s in x + y ==> s in live
    ensures Text(live, x + y) == Text(live, x) + Text(live, y)
  {
    hide Unread;
    if x == [] {
      assert x + y == y;
    } else {
      TextConcat(live, x[1..], y);
      TextUnfold(live, x);
      assert (x + y)[1..] == x[1..] + y;
      TextUnfold(live, x + y);
      Associate(Unread(live[x[0]]), Text(live, x[1..]), Text(live, y));
    }
  }

  lemma Associate(a: seq<Byte>, b: seq<Byte>, c: seq<Byte>)
    ensures a + (b + c) == a + b + c
  {
  }

  /** The text of a chain, cut at block i: what precedes it, its own bytes, what follows. */
  lemma TextAt(live: Blocks, chain: seq<nat>, id: nat, i: nat)
    requires IsChain(live, chain, id) && i < |chain|
    ensures forall s :: s in chain ==> s in live
    ensures forall s :: s in chain[..i] || s in chain[i + 1..] ==> s in live
    ensures Text(live, chain) == Text(live, chain[..i]) + Unread(live[chain[i]]) + Text(live, chain[i + 1..])
    ensures forall s :: s in chain[..i + 1] ==> s in live
    ensures Text(live, chain[..i + 1]) == Text(live, chain[..i]) + Unread(live[chain[i]])
  {
    hide Text, Unread, IsChain;
    ChainMembers(live, chain, id);
    TextAppend(live, chain[..i], chain[i]);
    assert chain[..i + 1] == chain[..i] + [chain[i]];
    TextConcat(live, chain[..i + 1], chain[i + 1..]);
    assert chain == chain[..i + 1] + chain[i + 1..];
  }

  /** Linking a block behind the last one of a chain. */
  ghost function Linked(live: Blocks, chain: seq<nat>, b: nat, v: Block): Blocks
    requires chain != [] && chain[|chain| - 1] in live
  {
    var last := chain[|chain| - 1];
    live[b := v][last := live[last].(next := b)]
  }

  lemma LinkAppends(live: Blocks, chain: seq<nat>, id: nat, b: nat, v: Block)
    requires IsChain(live, chain, id) && chain != [] && b !in chain
    requires v.id == id && v.next == -1 && v.offset == 0
    ensures IsChain(Linked(live, chain, b, v), chain + [b], id)
    ensures forall s :: s in chain ==> s in live
    ensures forall s :: s in chain + [b] ==> s in Linked(live, chain, b, v)
    ensures Text(Linked(live, chain, b, v), chain + [b]) == Text(live, chain) + v.body
  {
    hide Text;
    var live', chain' := Linked(live, chain, b, v), chain + [b];
    ChainMembers(live, chain, id);
    forall i | 0 <= i < |chain'|
      ensures NextOn(chain', i) == (if i + 1 < |chain| then NextOn(chain, i) else if i + 1 == |chain| then b else -1)
      ensures chain'[i] == if i < |chain| then chain[i] else b
    {
    }
    TextAppend(live', chain, b);
    TextFrame(live, live', chain);
  }

  /** Linking an existing chain behind a single block. */
  lemma LinkPrepends(live: Blocks, chain: seq<nat>, id: nat, t: nat)
    requires IsChain(live, chain, id) && chain != [] && t !in chain
    requires t in live && live[t].id == id && live[t].next == -1 && 0 <= live[t].offset <= |live[t].body|
    requires live[chain[0]].offset == 0
    ensures IsChain(live[t := live[t].(next := chain[0])], [t] + chain, id)
  {
  }

  /** Giving up the first i blocks of a chain and advancing into the next by `more` bytes. */
  ghost function Dropped(live: Blocks, chain: seq<nat>, i: nat, more: nat): Blocks
    requires i < |chain| && chain[i] in live
  {
    (live - Members(chain[..i]))[chain[i] := live[chain[i]].(offset := live[chain[i]].offset + more)]
  }

  lemma DropKeepsChain(live: Blocks, chain: seq<nat>, id: nat, i: nat, more: nat)
    requires IsChain(live, chain, id) && i < |chain| && more <= |Unread(live[chain[i]])|
    ensures IsChain(Dropped(live, chain, i, more), chain[i..], id)
    ensures forall s :: s in chain[i..] ==> s in Dropped(live, chain, i, more)
    ensures forall s :: s in chain[..i] ==> s in live
    ensures forall s :: s in chain ==> s in live
    ensures |Text(live, chain[..i])| + more <= |Text(live, chain)|
    ensures Text(Dropped(live, chain, i, more), chain[i..]) == Text(live, chain)[|Text(live, chain[..i])| + more..]
  {
    hide Text, Unread, IsChain;
    ChainMembers(live, chain, id);
    var live', rest := Dropped(live, chain, i, more), chain[i..];
    DroppedIsChain(live, chain, id, i, more);
    ChainMembers(live', rest, id);
    TextAt(live, chain, id, i);
    TextUnfold(live', rest);
    assert rest[1..] == chain[i + 1..];
    RestUntouched(live, chain, id, i, more);
    TextFrame(live, live', chain[i + 1..]);
    UnreadAdvance(live[chain[i]], more);
    DropPrefix(Text(live, chain[..i]), Unread(live[chain[i]]), Text(live, chain[i + 1..]), more);
  }

  lemma RestUntouched(live: Blocks, chain: seq<nat>, id: nat, i: nat, more: nat)
    requires IsChain(live, chain, id) && i < |chain|
    ensures var live' := Dropped(live, chain, i, more);
      forall s :: s in chain[i + 1..] ==> s in live && s in live' && live'[s] == live[s]
    ensures 0 <= live[chain[i]].offset <= |live[chain[i]].body|
    ensures Dropped(live, chain, i, more)[chain[i]] == live[chain[i]].(offset := live[chain[i]].offset + more)
  {
  }

  lemma DroppedIsChain(live: Blocks, chain: seq<nat>, id: nat, i: nat, more: nat)
    requires IsChain(live, chain, id) && i < |chain| && more <= |Unread(live[chain[i]])|
    ensures IsChain(Dropped(live, chain, i, more), chain[i..], id)
  {
  }

  lemma UnreadAdvance(b: Block, more: nat)
    requires 0 <= b.offset <= |b.body| && more <= |Unread(b)|
    ensures Unread(b.(offset := b.offset + more)) == Unread(b)[more..]
  {
  }

  lemma DropPrefix(x: seq<Byte>, y: seq<Byte>, z: seq<Byte>, more: nat)
    requires more <= |y|
    ensures (x + y + z)[|x| + more..] == y[more..] + z
  {
  }
}
