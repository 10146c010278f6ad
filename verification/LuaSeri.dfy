/** lua-seri.c: packing into the block chain and unpacking from a flat buffer, step by step. */
module LuaSeri {
  import opened Bytes
  import opened Blocks
  import opened LuaValues
  import opened LuaStream
  import opened RoundTrip
  import opened Wrappers

  // ---------- packing

  /** Two pushes: a tag and what it announces. */
  method PushBoth(wb: WriteBlock, a: seq<Byte>, b: seq<Byte>)
    requires wb.Valid()
    modifies wb, wb.current, wb.current.buffer
    ensures wb.Valid() && wb.Text() == old(wb.Text()) + (a + b)
    ensures wb.current == old(wb.current) || (fresh(wb.current) && fresh(wb.current.buffer))
  {
    hide WriteBlock.Valid, WriteBlock.Text;
    wb.Push(a);
    wb.Push(b);
  }

  lemma Joined(t: seq<Byte>, a: seq<Byte>, b: seq<Byte>, c: seq<Byte>)
    ensures t + (a + b) + c == t + (a + b + c)
    ensures a == [] ==> t + b + c == t + (b + c)
    ensures c == [] ==> b + c == b
  {
  }

  /** wb_integer */
  method WriteInt(wb: WriteBlock, i: int, t: nat)
    requires wb.Valid() && t < 8
    modifies wb, wb.current, wb.current.buffer
    ensures wb.Valid() && wb.Text() == old(wb.Text()) + EncodeInt(i, t)
    ensures wb.current == old(wb.current) || (fresh(wb.current) && fresh(wb.current.buffer))
  {
    hide WriteBlock.Valid, WriteBlock.Text, IntBytes, ToBytes;
    var v := Wrap(i);
    if v == 0 {
      wb.Push([Tag(t, 0)]);
    } else if v < 0 {
      PushBoth(wb, [Tag(t, 4)], IntBytes(v));
    } else if v < 0x100 {
      PushBoth(wb, [Tag(t, 1)], [v]);
    } else if v < 0x10000 {
      PushBoth(wb, [Tag(t, 2)], ToBytes(v, 2));
    } else {
      PushBoth(wb, [Tag(t, 4)], IntBytes(v));
    }
  }

  /** wb_string */
  method WriteString(wb: WriteBlock, s: seq<Byte>)
    requires wb.Valid() && |s| < MAX_STRING
    modifies wb, wb.current, wb.current.buffer
    ensures wb.Valid() && wb.Text() == old(wb.Text()) + EncodeString(s)
    ensures wb.current == old(wb.current) || (fresh(wb.current) && fresh(wb.current.buffer))
  {
    hide WriteBlock.Valid, WriteBlock.Text, ToBytes;
    ghost var text := wb.Text();
    if |s| < MAX_COOKIE {
      var tag: seq<Byte> := [Tag(TYPE_SHORT_STRING, |s|)];
      wb.Push(tag);
      Joined(text, [], tag, s);
      if |s| > 0 {
        wb.Push(s);
      }
    } else {
      PushBoth(wb, [TYPE_LONG_STRING], ToBytes(|s|, 2));
      wb.Push(s);
      Joined(text, [TYPE_LONG_STRING], ToBytes(|s|, 2), s);
    }
  }

  /** The head of wb_table_array */
  method WriteHeader(wb: WriteBlock, n: nat)
    requires wb.Valid()
    modifies wb, wb.current, wb.current.buffer
    ensures wb.Valid() && wb.Text() == old(wb.Text()) + Header(n)
    ensures wb.current == old(wb.current) || (fresh(wb.current) && fresh(wb.current.buffer))
  {
    hide WriteBlock.Valid, WriteBlock.Text, EncodeInt;
    if n > MAX_COOKIE - 1 {
      wb.Push([Tag(TYPE_TABLE, MAX_COOKIE - 1)]);
      WriteInt(wb, n, TYPE_NUMBER);
    } else {
      wb.Push([Tag(TYPE_TABLE, n)]);
    }
  }

  /** _pack_one: what it writes is Encode(v), what it leaves on the Lua stack is Left(v), and it stops
      at the first problem. */
  method PackOne(wb: WriteBlock, v: Value, depth: nat) returns (err: Option<Error>, left: seq<Value>)
    requires wb.Valid() && IsLua(v)
    modifies wb, wb.current, wb.current.buffer
    ensures wb.Valid() && err == Problem(v, depth)
    ensures err == None ==> wb.Text() == old(wb.Text()) + Encode(v) && left == Left(v)
    ensures wb.current == old(wb.current) || (fresh(wb.current) && fresh(wb.current.buffer))
    decreases v, 4
  {
    hide WriteBlock.Valid, WriteBlock.Text, EncodeInt, EncodeString, EncodeAll, EncodeEntries;
    hide ProblemAll, ProblemEntries, Header, LeftItems;
    left := [];
    if depth > MAX_DEPTH {
      return Some(TooDeep), left;
    }
    match v {
      case Str(s) =>
        if |s| >= MAX_STRING {
          return Some(StringTooLong), left;
        }
        WriteString(wb, s);
      case Table(items, hash) =>
        // the nil that lua_rawget finds stays below all that follows
        err, left := PackTable(wb, v, depth + 1);
        left := [Nil] + left;
        return;
      case Unsupported =>
        return Some(UnsupportedType), left;
      case _ =>
        WriteFixed(wb, v);
    }
    err := None;
  }

  /** wb_nil, wb_boolean, wb_number and wb_pointer, and wb_integer for numbers and remote objects */
  method WriteFixed(wb: WriteBlock, v: Value)
    requires wb.Valid() && !v.Str? && !v.Table? && !v.Unsupported?
    modifies wb, wb.current, wb.current.buffer
    ensures wb.Valid() && wb.Text() == old(wb.Text()) + Encode(v)
    ensures wb.current == old(wb.current) || (fresh(wb.current) && fresh(wb.current.buffer))
  {
    hide WriteBlock.Valid, WriteBlock.Text, EncodeInt;
    match v {
      case Nil => wb.Push([TYPE_NIL]);
      case Bool(b) => wb.Push([Tag(TYPE_BOOLEAN, if b then 1 else 0)]);
      case Int(i) => WriteInt(wb, i, TYPE_NUMBER);
      case Double(bits) => PushBoth(wb, [Tag(TYPE_NUMBER, 8)], bits);
      case Pointer(address) => PushBoth(wb, [TYPE_USERDATA], address);
      case Remote(handle) => WriteInt(wb, handle, TYPE_REMOTE);
    }
  }

  /** wb_table */
  method PackTable(wb: WriteBlock, v: Value, depth: nat) returns (err: Option<Error>, left: seq<Value>)
    requires wb.Valid() && v.Table? && IsLua(v)
    modifies wb, wb.current, wb.current.buffer
    ensures wb.Valid() && err == OrElse(ProblemAll(v.items, depth), ProblemEntries(v.hash, depth))
    ensures err == None ==> wb.Text() == old(wb.Text()) + Encode(v) && left == LeftItems(v.items)
    ensures wb.current == old(wb.current) || (fresh(wb.current) && fresh(wb.current.buffer))
    decreases v, 3
  {
    hide WriteBlock.Valid, WriteBlock.Text, EncodeAll, EncodeEntries, ProblemAll, ProblemEntries, Header, LeftItems;
    err, left := PackArray(wb, v, depth);
    if err == None {
      err := PackHash(wb, v, depth);
    }
  }

  lemma LeftFirst(vs: seq<Value>)
    requires vs != []
    ensures LeftItems(vs) == LeftItem(vs[0]) + LeftItems(vs[1..])
  {
  }

  /** wb_table_array */
  method PackArray(wb: WriteBlock, v: Value, depth: nat) returns (err: Option<Error>, left: seq<Value>)
    requires wb.Valid() && v.Table? && IsLua(v)
    modifies wb, wb.current, wb.current.buffer
    ensures wb.Valid() && err == ProblemAll(v.items, depth)
    ensures err == None ==> wb.Text() == old(wb.Text()) + Header(|v.items|) + EncodeAll(v.items)
    ensures err == None ==> left == LeftItems(v.items)
    ensures wb.current == old(wb.current) || (fresh(wb.current) && fresh(wb.current.buffer))
    decreases v, 2
  {
    hide WriteBlock.Valid, WriteBlock.Text, Header, Encode, Problem, Left, LeftItems;
    var items := v.items;
    WriteHeader(wb, |items|);
    ghost var all := wb.Text() + EncodeAll(items);
    left := [];
    var i := 0;
    while i < |items|
      invariant i <= |items| && wb.Valid()
      invariant ProblemAll(items, depth) == ProblemAll(items[i..], depth)
      invariant wb.Text() + EncodeAll(items[i..]) == all
      invariant LeftItems(items) == left + LeftItems(items[i..])
      invariant wb.current == old(wb.current) || (fresh(wb.current) && fresh(wb.current.buffer))
    {
      assert items[i..][1..] == items[i + 1..];
      LeftFirst(items[i..]);
      var own;
      err, own := PackOne(wb, items[i], depth);
      if err.Some? {
        return;
      }
      left := left + ([items[i]] + own)[..|own|];
      i := i + 1;
    }
    NothingLeftByScalars(items[i..]);
    err := None;
  }

  /** The entries of a table as lua_next finds them, array part first. */
  function Traversal(items: seq<Value>, from: nat, hash: seq<Entry>): (t: seq<Entry>)
    requires from <= |items|
    ensures forall e :: e in t ==> InArray(e.key, |items|) || e in hash
    decreases |items| - from
  {
    if from == |items| then hash
    else if items[from] == Nil then Traversal(items, from + 1, hash)
    else [Entry(Int(from + 1), items[from])] + Traversal(items, from + 1, hash)
  }

  /** The entries outside the array part. */
  function Outside(es: seq<Entry>, n: nat): seq<Entry> {
    if es == [] then []
    else if InArray(es[0].key, n) then Outside(es[1..], n)
    else [es[0]] + Outside(es[1..], n)
  }

  lemma OutsideFirst(e: Entry, es: seq<Entry>, n: nat)
    ensures Outside([e] + es, n) == if InArray(e.key, n) then Outside(es, n) else [e] + Outside(es, n)
  {
  }

  lemma OutsideFrom(es: seq<Entry>, j: nat, n: nat)
    requires j < |es|
    ensures Outside(es[j..], n)
         == if InArray(es[j].key, n) then Outside(es[j + 1..], n) else [es[j]] + Outside(es[j + 1..], n)
  {
  }

  lemma EntriesFirst(e: Entry, es: seq<Entry>, depth: nat)
    ensures EncodeEntries([e] + es) == EncodeEntry(e) + EncodeEntries(es)
    ensures ProblemEntries([e] + es, depth) == OrElse(ProblemEntry(e, depth), ProblemEntries(es, depth))
  {
  }

  lemma {:induction false} OutsideAll(es: seq<Entry>, n: nat)
    requires forall e :: e in es ==> !InArray(e.key, n)
    ensures Outside(es, n) == es
  {
    if es != [] {
      OutsideAll(es[1..], n);
      assert es == [es[0]] + es[1..];
    }
  }

  /** Skipping the keys 1 to n of the traversal leaves the hash part, no more and no less. */
  lemma {:induction false} TraversalOutside(items: seq<Value>, from: nat, hash: seq<Entry>)
    requires from <= |items| && EntriesOk(hash, |items|)
    ensures Outside(Traversal(items, from, hash), |items|) == hash
    decreases |items| - from
  {
    hide Outside;
    if from == |items| {
      OutsideAll(hash, |items|);
    } else {
      TraversalOutside(items, from + 1, hash);
      OutsideFirst(Entry(Int(from + 1), items[from]), Traversal(items, from + 1, hash), |items|);
    }
  }

  /** wb_table_hash: entries of the array part are skipped, a nil key ends the rest. */
  method PackHash(wb: WriteBlock, v: Value, depth: nat) returns (err: Option<Error>)
    requires wb.Valid() && v.Table? && IsLua(v)
    modifies wb, wb.current, wb.current.buffer
    ensures wb.Valid() && err == ProblemEntries(v.hash, depth)
    ensures err == None ==> wb.Text() == old(wb.Text()) + EncodeEntries(v.hash) + [TYPE_NIL]
    ensures wb.current == old(wb.current) || (fresh(wb.current) && fresh(wb.current.buffer))
    decreases v, 2
  {
    hide WriteBlock.Valid, WriteBlock.Text, EncodeEntries, EncodeEntry, ProblemEntries, ProblemEntry;
    hide Traversal, Outside, Left;
    var n := |v.items|;
    var es := Traversal(v.items, 0, v.hash);
    TraversalOutside(v.items, 0, v.hash);
    ghost var all, rest := wb.Text() + EncodeEntries(v.hash), v.hash;
    var j := 0;
    while j < |es|
      invariant j <= |es| && wb.Valid() && rest == Outside(es[j..], n)
      invariant ProblemEntries(v.hash, depth) == ProblemEntries(rest, depth)
      invariant wb.Text() + EncodeEntries(rest) == all
      invariant wb.current == old(wb.current) || (fresh(wb.current) && fresh(wb.current.buffer))
    {
      var k := es[j].key;
      OutsideFrom(es, j, n);
      if !(k.Int? && k.i > 0 && k.i <= n) {
        EntriesFirst(es[j], Outside(es[j + 1..], n), depth);
        rest := Outside(es[j + 1..], n);
        err := PackEntry(wb, v, es[j], depth);
        if err.Some? {
          return;
        }
      }
      j := j + 1;
    }
    assert es[j..] == [];
    NoEntries(depth, n);
    assert wb.Text() == all;
    wb.Push([TYPE_NIL]);
    err := None;
  }

  lemma NoEntries(depth: nat, n: nat)
    ensures Outside([], n) == [] && EncodeEntries([]) == [] && ProblemEntries([], depth) == None
  {
  }

  /** Below the popped slot is the key of a scalar, and of a table a nil or a table. */
  lemma TopOfStack(e: Entry, left: seq<Value>)
    requires e.key != Nil && !e.key.Table? && left == Left(e.value)
    ensures var top := ([e.key, e.value] + left)[|left|];
      NextFails(e.value) == if top == e.key then None else if top == Nil then Some(StartsOver) else Some(InvalidKey)
  {
    hide Left;
    LeftOnStack(e.value);
    if left != [] {
      var top := ([e.key, e.value] + left)[|left|];
      assert top == ([e.value] + left)[|left| - 1];
      assert top == e.value || top in left;
    }
  }

  /** One round of wb_table_hash, up to the next call of lua_next: it goes on only if the key of the
      entry is on top of the stack again. */
  method PackEntry(wb: WriteBlock, ghost v: Value, e: Entry, depth: nat) returns (err: Option<Error>)
    requires wb.Valid() && v.Table? && IsLua(v) && e in v.hash
    modifies wb, wb.current, wb.current.buffer
    ensures wb.Valid() && err == ProblemEntry(e, depth)
    ensures err == None ==> wb.Text() == old(wb.Text()) + EncodeEntry(e)
    ensures wb.current == old(wb.current) || (fresh(wb.current) && fresh(wb.current.buffer))
    decreases v, 1
  {
    hide WriteBlock.Valid, WriteBlock.Text, Encode, Problem, Left;
    var left;
    // a key, which is no table, leaves nothing behind
    err, left := PackOne(wb, e.key, depth);
    if err == None {
      err, left := PackOne(wb, e.value, depth);
    }
    if err == None {
      TopOfStack(e, left);
      var stack := [e.key, e.value] + left;
      var top := stack[|stack| - 2];
      if top == Nil {
        err := Some(StartsOver);
      } else if top != e.key {
        err := Some(InvalidKey);
      }
    }
  }

  /** _luaseri_pack: the buffer holds the values one after the other; the first error ends it all. */
  method Pack(vs: seq<Value>) returns (err: Option<Error>, buffer: array<Byte>)
    requires forall v :: v in vs ==> IsLua(v)
    requires |EncodeAll(vs)| + LEN_SIZE <= MAX_INT
    ensures fresh(buffer) && err == ProblemAll(vs, 0)
    ensures err == None ==> buffer[..] == EncodeAll(vs)
  {
    hide WriteBlock.Valid, WriteBlock.Text, Sealed, ToBytes, Encode, Problem, IsLua;
    var wb := new WriteBlock();
    ghost var all := wb.Text() + EncodeAll(vs);
    var i := 0;
    while i < |vs|
      invariant i <= |vs| && wb.Valid() && fresh(wb) && fresh(wb.current) && fresh(wb.current.buffer)
      invariant ProblemAll(vs, 0) == ProblemAll(vs[i..], 0)
      invariant wb.Text() + EncodeAll(vs[i..]) == all
    {
      assert vs[i..][1..] == vs[i + 1..];
      var left;
      err, left := PackOne(wb, vs[i], 0);
      if err.Some? {
        buffer := new Byte[0];
        return;
      }
      i := i + 1;
    }
    assert wb.Text() == all;
    ghost var c := wb.chain;
    wb.TextPrefix();
    var b := wb.Close();
    buffer := Seri(b, c, EncodeAll(vs));
    err := None;
  }

  // ---------- unpacking

  /** A result with the bytes left behind it, as LuaStream states it. */
  ghost function Outcome<T>(r: Option<T>, rest: seq<Byte>): Parsed<T> {
    match r
    case None => Failed
    case Some(v) => Parsed(v, rest)
  }

  /** Values read before those of p. */
  ghost function Glue<T>(before: seq<T>, p: Parsed<seq<T>>): Parsed<seq<T>> {
    match p
    case Failed => Failed
    case Parsed(vs, rest) => Parsed(before + vs, rest)
  }

  lemma GlueNothing<T>(p: Parsed<seq<T>>)
    ensures Glue([], p) == p
  {
    if p.Parsed? {
      assert [] + p.value == p.value;
    }
  }

  lemma GlueOne<T>(before: seq<T>, v: T, p: Parsed<seq<T>>)
    ensures Glue(before, Glue([v], p)) == Glue(before + [v], p)
  {
    if p.Parsed? {
      assert before + ([v] + p.value) == before + [v] + p.value;
    }
  }

  lemma ItemsStep(b: seq<Byte>, n: nat)
    requires n > 0
    ensures ParseItems(b, n) == match ParseOne(b) {
      case Failed => Failed
      case Parsed(v, rest) => Glue([v], ParseItems(rest, n - 1))
    }
  {
  }

  lemma EntriesStep(b: seq<Byte>)
    ensures ParseOne(b).Failed? ==> ParseEntries(b) == Failed
    ensures ParseOne(b).Parsed? && ParseOne(b).value == Nil ==> ParseEntries(b) == Parsed([], ParseOne(b).rest)
    ensures ParseOne(b).Parsed? && ParseOne(b).value != Nil ==> (ParseEntries(b) == match ParseOne(ParseOne(b).rest) {
      case Failed => Failed
      case Parsed(v, rest) => Glue([Entry(ParseOne(b).value, v)], ParseEntries(rest))
    })
  {
  }

  lemma AllStep(b: seq<Byte>)
    requires b != []
    ensures ParseAll(b) == match ParseOne(b) {
      case Failed => Failed
      case Parsed(v, rest) => Glue([v], ParseAll(rest))
    }
  {
  }

  /** struct read_block over a flat buffer. */
  class ReadBlock {
    const buffer: array<Byte>
    var len: nat
    var ptr: nat

    ghost predicate Valid()
      reads this
    {
      ptr + len == buffer.Length
    }

    /** The bytes not read yet. */
    ghost function Rest(): (b: seq<Byte>)
      reads this, buffer
      requires Valid()
      ensures |b| == len
    {
      buffer[ptr..]
    }

    /** rball_init */
    constructor (buffer: array<Byte>)
      ensures Valid() && this.buffer == buffer && Rest() == buffer[..]
    {
      this.buffer, len, ptr := buffer, buffer.Length, 0;
    }

    /** rb_read: fewer bytes than asked for are not read at all. */
    method Read(sz: nat) returns (r: Option<seq<Byte>>)
      requires Valid()
      modifies this
      ensures Valid() && Outcome(r, Rest()) == Take(old(Rest()), sz)
      ensures r == None ==> Rest() == old(Rest())
    {
      if len < sz {
        return None;
      }
      r := Some(buffer[ptr..ptr + sz]);
      ptr, len := ptr + sz, len - sz;
      assert Rest() == old(Rest())[sz..] && r.value == old(Rest())[..sz];
    }

    /** _get_integer */
    method GetInteger(cookie: nat) returns (r: Option<int>)
      requires Valid()
      modifies this
      ensures Valid() && Outcome(r, Rest()) == ParseInt(old(Rest()), cookie)
    {
      if cookie == 0 {
        return Some(0);
      }
      if cookie == 1 || cookie == 2 || cookie == 4 {
        var n := Read(cookie);
        if n.Some? {
          return Some(if cookie == 4 then BytesInt(n.value) else FromBytes(n.value));
        }
      }
      r := None;
    }

    /** _get_number */
    method GetNumber(cookie: nat) returns (r: Option<Value>)
      requires Valid()
      modifies this
      ensures Valid() && Outcome(r, Rest()) == ParseNumber(old(Rest()), cookie)
    {
      hide ParseInt;
      if cookie == 8 {
        var bits := Read(8);
        r := if bits.Some? then Some(Double(bits.value)) else None;
      } else {
        var n := GetInteger(cookie);
        r := if n.Some? then Some(Int(n.value)) else None;
      }
    }

    /** _get_buffer */
    method GetBuffer(n: nat) returns (r: Option<Value>)
      requires Valid()
      modifies this
      ensures Valid() && Outcome(r, Rest()) == ParseString(old(Rest()), n)
    {
      var s := Read(n);
      r := if s.Some? then Some(Str(s.value)) else None;
    }

    /** _unpack_one */
    method UnpackOne() returns (r: Option<Value>)
      requires Valid()
      modifies this
      ensures Valid() && Outcome(r, Rest()) == ParseOne(old(Rest()))
      decreases len, 0
    {
      hide ParseValue;
      var t := Read(1);
      if t == None {
        return None;
      }
      r := PushValue(t.value[0] % 8, t.value[0] / 8);
    }

    /** _push_value */
    method PushValue(t: nat, cookie: nat) returns (r: Option<Value>)
      requires Valid()
      modifies this
      ensures Valid() && Outcome(r, Rest()) == ParseValue(old(Rest()), t, cookie)
      decreases len, 3
    {
      hide ParseNumber, ParseString, ParseTable, ParseInt;
      if t == TYPE_NIL {
        r := Some(Nil);
      } else if t == TYPE_BOOLEAN {
        r := Some(Bool(cookie != 0));
      } else if t == TYPE_NUMBER {
        r := GetNumber(cookie);
      } else if t == TYPE_USERDATA {
        var address := Read(8);
        r := if address.Some? then Some(Pointer(address.value)) else None;
      } else if t == TYPE_SHORT_STRING {
        r := GetBuffer(cookie);
      } else if t == TYPE_LONG_STRING {
        var n := Read(2);
        if n == None {
          return None;
        }
        r := GetBuffer(FromBytes(n.value));
      } else if t == TYPE_TABLE {
        r := UnpackTable(cookie);
      } else if t == TYPE_REMOTE {
        var handle := GetInteger(cookie);
        r := if handle.Some? then Some(Remote(handle.value)) else None;
      } else {
        r := None;
      }
    }

    /** _unpack_table */
    method UnpackTable(cookie: nat) returns (r: Option<Value>)
      requires Valid()
      modifies this
      ensures Valid() && Outcome(r, Rest()) == ParseTable(old(Rest()), cookie)
      decreases len, 2
    {
      hide ParseItems, ParseEntries, ParseNumber;
      var n := cookie;
      if cookie == MAX_COOKIE - 1 {
        var t := Read(1);
        if t == None || t.value[0] % 8 != TYPE_NUMBER {
          return None;
        }
        var size := GetNumber(t.value[0] / 8);
        if size == None {
          return None;
        }
        n := SizeOf(size.value);
      }
      var items := UnpackItems(n);
      if items == None {
        return None;
      }
      var hash := UnpackEntries();
      if hash == None {
        return None;
      }
      r := Some(Table(items.value, hash.value));
    }

    method UnpackItems(n: nat) returns (r: Option<seq<Value>>)
      requires Valid()
      modifies this
      ensures Valid() && Outcome(r, Rest()) == ParseItems(old(Rest()), n)
      decreases len, 1
    {
      hide ParseOne, ParseItems;
      GlueNothing(ParseItems(Rest(), n));
      var items, i := [], 0;
      while i < n
        invariant Valid() && i <= n && len <= old(len)
        invariant ParseItems(old(Rest()), n) == Glue(items, ParseItems(Rest(), n - i))
      {
        ItemsStep(Rest(), n - i);
        var v := UnpackOne();
        if v == None {
          return None;
        }
        GlueOne(items, v.value, ParseItems(Rest(), n - i - 1));
        items := items + [v.value];
        i := i + 1;
      }
      NoItems(Rest());
      assert items + [] == items;
      r := Some(items);
    }

    method UnpackEntries() returns (r: Option<seq<Entry>>)
      requires Valid()
      modifies this
      ensures Valid() && Outcome(r, Rest()) == ParseEntries(old(Rest()))
      decreases len, 1
    {
      hide ParseOne, ParseEntries;
      GlueNothing(ParseEntries(Rest()));
      var hash := [];
      while true
        invariant Valid() && len <= old(len)
        invariant ParseEntries(old(Rest())) == Glue(hash, ParseEntries(Rest()))
        decreases len
      {
        EntriesStep(Rest());
        var k := UnpackOne();
        if k == None {
          return None;
        }
        if k.value == Nil {
          assert hash + [] == hash;
          return Some(hash);
        }
        var v := UnpackOne();
        if v == None {
          return None;
        }
        GlueOne(hash, Entry(k.value, v.value), ParseEntries(Rest()));
        hash := hash + [Entry(k.value, v.value)];
      }
    }
  }

  /** _luaseri_unpack */
  method Unpack(buffer: array<Byte>) returns (r: Option<seq<Value>>)
    ensures r == match ParseAll(buffer[..]) { case Failed => None case Parsed(vs, _) => Some(vs) }
  {
    hide ParseOne, ParseAll;
    var rb := new ReadBlock(buffer);
    GlueNothing(ParseAll(rb.Rest()));
    var vs := [];
    while rb.len > 0
      invariant rb.Valid() && fresh(rb) && rb.buffer == buffer
      invariant ParseAll(buffer[..]) == Glue(vs, ParseAll(rb.Rest()))
      decreases rb.len
    {
      AllStep(rb.Rest());
      var v := rb.UnpackOne();
      if v == None {
        return None;
      }
      GlueOne(vs, v.value, ParseAll(rb.Rest()));
      vs := vs + [v.value];
    }
    NothingLeft(rb.Rest());
    assert vs + [] == vs;
    r := Some(vs);
  }

  lemma NothingLeft(b: seq<Byte>)
    requires b == []
    ensures ParseAll(b) == Parsed([], [])
  {
  }

  /** Packing and unpacking in one go: what succeeds comes back equal exactly when it Survives. */
  method PackUnpack(vs: seq<Value>) returns (err: Option<Error>, r: Option<seq<Value>>)
    requires forall v :: v in vs ==> IsLua(v)
    requires |EncodeAll(vs)| + LEN_SIZE <= MAX_INT
    ensures err == None <==> forall v :: v in vs ==> Packable(v) && !Nested(v, MAX_DEPTH + 1)
    ensures err == None ==> (r == Some(vs) <==> forall v :: v in vs ==> Survives(v))
  {
    hide IsLua, Encodable, FlatHash, Nested, Survives, ParseAll, EncodeAll, Problem, ProblemAll;
    NoneAll(vs, 0);
    forall v | v in vs ensures Problem(v, 0) == None <==> Packable(v) && !Nested(v, MAX_DEPTH + 1) {
      PacksIff(v, 0);
    }
    var buffer;
    err, buffer := Pack(vs);
    r := Unpack(buffer);
    if err == None {
      RoundTripIff(vs);
      NoRest(buffer[..]);
    }
  }

  lemma {:induction false} NoRest(b: seq<Byte>)
    ensures ParseAll(b).Parsed? ==> ParseAll(b).rest == []
    decreases |b|
  {
    hide ParseOne;
    if b != [] && ParseOne(b).Parsed? {
      NoRest(ParseOne(b).rest);
    }
  }
}
