/** Reading back what lua-seri.c wrote. */
module RoundTrip {
  import opened Bytes
  import opened LuaValues
  import opened LuaStream

  /** What storing a number in a C int makes of it. */
  function Stored(v: Value): Value {
    match v
    case Int(i) => Int(Wrap(i))
    case Remote(handle) => Remote(Wrap(handle))
    case _ => v
  }

  /** The values that come back as they were: integral numbers and handles fit an int, and no table has
      exactly 31 items (such a table is written without its size and read as if the size followed). */
  predicate Survives(v: Value) {
    match v
    case Int(i) => IsInt(i)
    case Remote(handle) => IsInt(handle)
    case Table(items, hash) =>
      && |items| != MAX_COOKIE - 1
      && (forall x :: x in items ==> Survives(x))
      && (forall e :: e in hash ==> Survives(e.key) && Survives(e.value))
    case _ => true
  }

  // ---------- scalars

  lemma TakeFront(a: seq<Byte>, rest: seq<Byte>)
    ensures Take(a + rest, |a|) == Parsed(a, rest)
  {
  }

  lemma ReadTag(t: nat, cookie: nat, tail: seq<Byte>, rest: seq<Byte>)
    requires t < 8 && cookie < MAX_COOKIE
    ensures var b := [Tag(t, cookie)] + tail + rest;
      b[0] % 8 == t && b[0] / 8 == cookie && b[1..] == tail + rest
  {
  }

  lemma ParseTagged(t: nat, cookie: nat, tail: seq<Byte>, rest: seq<Byte>)
    requires t < 8 && cookie < MAX_COOKIE
    ensures ParseOne([Tag(t, cookie)] + tail + rest) == ParseValue(tail + rest, t, cookie)
  {
    hide ParseValue;
    ReadTag(t, cookie, tail, rest);
  }

  lemma ParseWord(v: nat, n: nat, rest: seq<Byte>)
    requires v < Range(n)
    ensures Take(ToBytes(v, n) + rest, n).Parsed?
    ensures FromBytes(Take(ToBytes(v, n) + rest, n).value) == v && Take(ToBytes(v, n) + rest, n).rest == rest
  {
  }

  lemma NumberAtTag(cookie: nat, tail: seq<Byte>, rest: seq<Byte>)
    requires cookie < MAX_COOKIE
    ensures NumberAt([Tag(TYPE_NUMBER, cookie)] + tail + rest) == ParseNumber(tail + rest, cookie)
  {
    hide ParseNumber;
    ReadTag(TYPE_NUMBER, cookie, tail, rest);
  }

  lemma ParseDword(v: int, rest: seq<Byte>)
    requires IsInt(v)
    ensures ParseInt(IntBytes(v) + rest, 4) == Parsed(v, rest)
  {
    hide IntBytes, BytesInt;
    TakeFront(IntBytes(v), rest);
    IntRoundTrip(v);
  }

  lemma ParseByte(v: nat, rest: seq<Byte>)
    requires v < 0x100
    ensures ParseInt([v] + rest, 1) == Parsed(v, rest)
  {
    var a: seq<Byte> := [v];
    TakeFront(a, rest);
    assert FromBytes(a) == a[0] + 0x100 * FromBytes(a[1..]) && a[1..] == [];
  }

  lemma ParseShort(v: nat, rest: seq<Byte>)
    requires v < 0x10000
    ensures ParseInt(ToBytes(v, 2) + rest, 2) == Parsed(v, rest)
  {
    hide ToBytes, FromBytes;
    assert Range(2) == 0x10000;
    ParseWord(v, 2, rest);
  }

  lemma ParseTail(v: int, rest: seq<Byte>)
    requires IsInt(v)
    ensures ParseInt(IntTail(v) + rest, IntCookie(v)) == Parsed(v, rest)
  {
    hide ParseInt, IntBytes, ToBytes;
    if v == 0 {
      ParseZero(rest);
    } else if 0 < v < 0x100 {
      ParseByte(v, rest);
    } else if 0 < v < 0x10000 {
      ParseShort(v, rest);
    } else {
      ParseDword(v, rest);
    }
  }

  lemma ParseZero(rest: seq<Byte>)
    ensures ParseInt([] + rest, 0) == Parsed(0, rest)
  {
  }

  /** Every form of integer reads back as the int it was stored in. */
  lemma IntAt(i: int, rest: seq<Byte>)
    ensures NumberAt(EncodeInt(i, TYPE_NUMBER) + rest) == Parsed(Int(Wrap(i)), rest)
  {
    hide NumberAt, ParseInt, IntTail, IntCookie;
    NumberAtTag(IntCookie(Wrap(i)), IntTail(Wrap(i)), rest);
    ParseTail(Wrap(i), rest);
  }

  lemma RemoteAt(handle: int, rest: seq<Byte>)
    ensures ParseOne(EncodeInt(handle, TYPE_REMOTE) + rest) == Parsed(Remote(Wrap(handle)), rest)
  {
    hide ParseOne, ParseInt, IntTail, IntCookie;
    ParseTagged(TYPE_REMOTE, IntCookie(Wrap(handle)), IntTail(Wrap(handle)), rest);
    ParseTail(Wrap(handle), rest);
  }

  lemma DoubleAt(bits: seq<Byte>, rest: seq<Byte>)
    requires |bits| == 8
    ensures NumberAt(Encode(Double(bits)) + rest) == Parsed(Double(bits), rest)
  {
    NumberAtTag(8, bits, rest);
    TakeFront(bits, rest);
  }

  lemma NumberParses(b: seq<Byte>)
    requires NumberAt(b).Parsed?
    ensures ParseOne(b) == NumberAt(b)
  {
  }

  lemma ShortStringParses(s: seq<Byte>, rest: seq<Byte>)
    requires |s| < MAX_COOKIE
    ensures ParseOne([Tag(TYPE_SHORT_STRING, |s|)] + s + rest) == Parsed(Str(s), rest)
  {
    hide ParseOne, ParseTable, ParseNumber;
    TakeFront(s, rest);
    ParseTagged(TYPE_SHORT_STRING, |s|, s, rest);
  }

  lemma LongStringParses(s: seq<Byte>, rest: seq<Byte>)
    requires |s| < MAX_STRING
    ensures ParseOne([TYPE_LONG_STRING] + (ToBytes(|s|, 2) + s) + rest) == Parsed(Str(s), rest)
  {
    hide ParseOne, ParseTable, ParseNumber, ToBytes, FromBytes;
    TakeFront(s, rest);
    assert Range(2) == 0x10000;
    ParseTagged(TYPE_LONG_STRING, 0, ToBytes(|s|, 2) + s, rest);
    ParseWord(|s|, 2, s + rest);
    assert ToBytes(|s|, 2) + s + rest == ToBytes(|s|, 2) + (s + rest);
  }

  lemma StringParses(s: seq<Byte>, rest: seq<Byte>)
    requires |s| < MAX_STRING
    ensures ParseOne(EncodeString(s) + rest) == Parsed(Str(s), rest)
  {
    hide ParseOne, ToBytes;
    if |s| < MAX_COOKIE {
      ShortStringParses(s, rest);
    } else {
      LongStringParses(s, rest);
      assert EncodeString(s) + rest == [TYPE_LONG_STRING] + (ToBytes(|s|, 2) + s) + rest;
    }
  }

  /** A scalar reads back as it was stored, and so does the position behind it. */
  lemma ScalarParses(v: Value, rest: seq<Byte>)
    requires IsLua(v) && Encodable(v) && !v.Table?
    ensures ParseOne(Encode(v) + rest) == Parsed(Stored(v), rest)
  {
    hide ParseOne, EncodeInt, EncodeString, NumberAt;
    match v {
      case Nil => ParseTagged(TYPE_NIL, 0, [], rest);
        assert Encode(v) + rest == [Tag(TYPE_NIL, 0)] + [] + rest;
      case Bool(b) =>
        ParseTagged(TYPE_BOOLEAN, if b then 1 else 0, [], rest);
        assert Encode(v) + rest == [Tag(TYPE_BOOLEAN, if b then 1 else 0)] + [] + rest;
      case Int(i) => IntAt(i, rest); NumberParses(Encode(v) + rest);
      case Double(bits) => DoubleAt(bits, rest); NumberParses(Encode(v) + rest);
      case Pointer(address) =>
        ParseTagged(TYPE_USERDATA, 0, address, rest);
        assert Encode(v) + rest == [Tag(TYPE_USERDATA, 0)] + address + rest;
        TakeFront(address, rest);
      case Str(s) => StringParses(s, rest);
      case Remote(handle) => RemoteAt(handle, rest);
    }
  }

  // ---------- tables

  function Content(items: seq<Value>, hash: seq<Entry>, rest: seq<Byte>): seq<Byte> {
    EncodeAll(items) + (EncodeEntries(hash) + ([TYPE_NIL] + rest))
  }

  lemma TableBytes(v: Value, rest: seq<Byte>)
    requires v.Table?
    ensures Encode(v) + rest == Header(|v.items|) + Content(v.items, v.hash, rest)
  {
    hide Header;
  }

  /** Except for 31 items, the reader knows how many items follow. */
  lemma HeaderParses(n: nat, content: seq<Byte>)
    requires n <= MAX_INT && n != MAX_COOKIE - 1
    ensures ParseOne(Header(n) + content) == ParseContent(content, n)
  {
    hide ParseOne, ParseContent, EncodeInt, NumberAt;
    if n >= MAX_COOKIE {
      ParseTagged(TYPE_TABLE, MAX_COOKIE - 1, EncodeInt(n, TYPE_NUMBER), content);
      IntAt(n, content);
    } else {
      ParseTagged(TYPE_TABLE, n, [], content);
      assert Header(n) + content == [Tag(TYPE_TABLE, n)] + [] + content;
      assert [] + content == content;
    }
  }

  lemma {:induction false} SurvivorParses(v: Value, rest: seq<Byte>)
    requires IsLua(v) && Encodable(v) && Survives(v)
    ensures ParseOne(Encode(v) + rest) == Parsed(v, rest)
    decreases v
  {
    hide ParseOne, ParseItems, ParseEntries, Encode, EncodeAll, EncodeEntries;
    if v.Table? {
      TableBytes(v, rest);
      HeaderParses(|v.items|, Content(v.items, v.hash, rest));
      SurvivorsParse(v.items, EncodeEntries(v.hash) + ([TYPE_NIL] + rest));
      EntriesParse(v.hash, rest);
    } else {
      ScalarParses(v, rest);
    }
  }

  lemma NoItems(b: seq<Byte>)
    ensures ParseItems(b, 0) == Parsed([], b)
  {
  }

  lemma OneMore(b: seq<Byte>, v: Value, rest: seq<Byte>, n: nat)
    requires ParseOne(b) == Parsed(v, rest) && ParseItems(rest, n).Parsed?
    ensures var r := ParseItems(rest, n); ParseItems(b, n + 1) == Parsed([v] + r.value, r.rest)
  {
  }

  lemma {:induction false} SurvivorsParse(vs: seq<Value>, tail: seq<Byte>)
    requires forall x :: x in vs ==> IsLua(x) && Encodable(x) && Survives(x)
    ensures ParseItems(EncodeAll(vs) + tail, |vs|) == Parsed(vs, tail)
    decreases vs
  {
    hide ParseOne, ParseItems, Encode, IsLua, Encodable, Survives;
    if vs == [] {
      assert EncodeAll(vs) + tail == tail;
      NoItems(tail);
    } else {
      var more := EncodeAll(vs[1..]) + tail;
      SurvivorParses(vs[0], more);
      SurvivorsParse(vs[1..], tail);
      assert EncodeAll(vs) + tail == Encode(vs[0]) + more;
      OneMore(Encode(vs[0]) + more, vs[0], more, |vs| - 1);
      assert vs == [vs[0]] + vs[1..];
    }
  }

  lemma {:induction false} EntriesParse(es: seq<Entry>, rest: seq<Byte>)
    requires forall e :: e in es ==> e.key != Nil && IsLua(e.key) && Encodable(e.key) && Survives(e.key)
    requires forall e :: e in es ==> IsLua(e.value) && Encodable(e.value) && Survives(e.value)
    ensures ParseEntries(EncodeEntries(es) + ([TYPE_NIL] + rest)) == Parsed(es, rest)
    decreases es
  {
    hide ParseOne, Encode, IsLua, Encodable, Survives;
    if es == [] {
      NilParses(rest);
      assert EncodeEntries(es) + ([TYPE_NIL] + rest) == [TYPE_NIL] + rest;
    } else {
      var e, tail := es[0], EncodeEntries(es[1..]) + ([TYPE_NIL] + rest);
      KeyParses(e, tail);
      assert EncodeEntries(es) + ([TYPE_NIL] + rest) == Encode(e.key) + (Encode(e.value) + tail);
      EntriesParse(es[1..], rest);
      assert es == [Entry(e.key, e.value)] + es[1..];
    }
  }

  lemma {:induction false} KeyParses(e: Entry, tail: seq<Byte>)
    requires IsLua(e.key) && Encodable(e.key) && Survives(e.key)
    requires IsLua(e.value) && Encodable(e.value) && Survives(e.value)
    ensures ParseOne(Encode(e.key) + (Encode(e.value) + tail)) == Parsed(e.key, Encode(e.value) + tail)
    ensures ParseOne(Encode(e.value) + tail) == Parsed(e.value, tail)
    decreases e
  {
    SurvivorParses(e.key, Encode(e.value) + tail);
    SurvivorParses(e.value, tail);
  }

  lemma NilParses(rest: seq<Byte>)
    ensures ParseOne([TYPE_NIL] + rest) == Parsed(Nil, rest)
  {
  }

  // ---------- nothing else comes back

  lemma TableReadsAsTable(v: Value, rest: seq<Byte>)
    requires v.Table?
    ensures ParseOne(Encode(v) + rest).Parsed? ==> ParseOne(Encode(v) + rest).value.Table?
  {
    hide ParseOne, ParseTable, EncodeInt;
    var n, content := |v.items|, Content(v.items, v.hash, rest);
    TableBytes(v, rest);
    if n >= MAX_COOKIE {
      ParseTagged(TYPE_TABLE, MAX_COOKIE - 1, EncodeInt(n, TYPE_NUMBER), content);
    } else {
      ParseTagged(TYPE_TABLE, n, [], content);
      assert Header(n) + content == [Tag(TYPE_TABLE, n)] + [] + content;
    }
  }

  /** Only the scalar x itself, up to its storage in a C int, reads as the scalar x. */
  lemma ReadsAsScalar(v: Value, x: Value, rest: seq<Byte>)
    requires IsLua(v) && Encodable(v) && !x.Table?
    requires var r := ParseOne(Encode(v) + rest); r.Parsed? && r.value == x
    ensures !v.Table? && Stored(v) == x && ParseOne(Encode(v) + rest).rest == rest
    ensures (x.Int? ==> IsInt(x.i)) && (x.Remote? ==> IsInt(x.handle))
  {
    hide ParseOne, Encode;
    if v.Table? {
      TableReadsAsTable(v, rest);
    } else {
      ScalarParses(v, rest);
    }
  }

  /** Items that are read one place late look right only if all of them, and what follows them, are
      the same. */
  lemma {:induction false} ShiftedItems(a: seq<Value>, x: Value, tail: seq<Byte>)
    requires forall y :: y in a ==> IsLua(y) && Encodable(y)
    requires !x.Table?
    requires var r := ParseItems(EncodeAll(a) + tail, |a| + 1); r.Parsed? && r.value == [x] + a
    ensures ParseOne(tail) == Parsed(x, ParseItems(EncodeAll(a) + tail, |a| + 1).rest)
    decreases a
  {
    hide ParseOne, Encode, IsLua, Encodable;
    var b := EncodeAll(a) + tail;
    if a == [] {
      assert b == tail;
      LastItem(b, x);
    } else {
      var more := EncodeAll(a[1..]) + tail;
      assert b == Encode(a[0]) + more;
      FirstItem(b, x, a);
      ReadsAsScalar(a[0], x, more);
      assert a == [a[0]] + a[1..];
      ShiftedItems(a[1..], a[0], tail);
    }
  }

  lemma LastItem(b: seq<Byte>, x: Value)
    requires var r := ParseItems(b, 1); r.Parsed? && r.value == [x] + []
    ensures ParseOne(b) == Parsed(x, ParseItems(b, 1).rest)
  {
    hide ParseOne;
    var one := ParseOne(b);
    assert ParseItems(one.rest, 0) == Parsed([], one.rest);
    assert ([one.value] + [])[0] == one.value && ([x] + [])[0] == x;
  }

  lemma FirstItem(b: seq<Byte>, x: Value, a: seq<Value>)
    requires var r := ParseItems(b, |a| + 1); r.Parsed? && r.value == [x] + a
    ensures ParseOne(b).Parsed? && ParseOne(b).value == x
    ensures ParseItems(ParseOne(b).rest, |a|) == Parsed(a, ParseItems(b, |a| + 1).rest)
  {
    hide ParseOne;
    var one := ParseOne(b);
    var others := ParseItems(one.rest, |a|);
    assert [one.value] + others.value == [x] + a;
    assert ([x] + a)[0] == x && ([x] + a)[1..] == a;
    assert ([one.value] + others.value)[1..] == others.value;
  }

  lemma FirstEntry(b: seq<Byte>, es: seq<Entry>)
    requires es != [] && var r := ParseEntries(b); r.Parsed? && r.value == es
    ensures ParseOne(b).Parsed? && ParseOne(b).value == es[0].key
    ensures var r := ParseOne(ParseOne(b).rest); r.Parsed? && r.value == es[0].value
    ensures var r := ParseEntries(ParseOne(ParseOne(b).rest).rest); r.Parsed? && r.value == es[1..]
  {
  }

  /** A table with 31 items: the reader takes the first item for their number. */
  lemma ThirtyOneParses(v: Value, rest: seq<Byte>)
    requires v.Table? && |v.items| == MAX_COOKIE - 1
    requires IsLua(v) && Encodable(v) && ParseOne(Encode(v) + rest).Parsed?
    ensures Stored(v.items[0]).Int? || Stored(v.items[0]).Double?
    ensures ParseOne(Encode(v) + rest)
         == ParseContent(Content(v.items[1..], v.hash, rest), SizeOf(Stored(v.items[0])))
  {
    hide ParseOne, ParseContent, NumberAt, Encode, EncodeAll, EncodeEntries;
    var content, more := Content(v.items, v.hash, rest), Content(v.items[1..], v.hash, rest);
    TableBytes(v, rest);
    ParseTagged(TYPE_TABLE, MAX_COOKIE - 1, [], content);
    assert Header(MAX_COOKIE - 1) + content == [Tag(TYPE_TABLE, MAX_COOKIE - 1)] + [] + content;
    assert [] + content == content;
    NumberParses(content);
    ContentFront(v.items, v.hash, rest);
    ReadsAsScalar(v.items[0], NumberAt(content).value, more);
  }

  lemma ContentFront(items: seq<Value>, hash: seq<Entry>, rest: seq<Byte>)
    requires items != []
    ensures Content(items, hash, rest) == Encode(items[0]) + Content(items[1..], hash, rest)
  {
  }

  lemma ContentParses(b: seq<Byte>, n: nat)
    requires ParseContent(b, n).Parsed?
    ensures var v := ParseContent(b, n).value;
      && ParseItems(b, n).Parsed? && ParseItems(b, n).value == v.items
      && ParseEntries(ParseItems(b, n).rest).Parsed? && ParseEntries(ParseItems(b, n).rest).value == v.hash
      && ParseEntries(ParseItems(b, n).rest).rest == ParseContent(b, n).rest
  {
  }

  /** The number of entries behind the items, and their keys. */
  lemma EntriesFront(es: seq<Entry>, rest: seq<Byte>)
    ensures es == [] ==> EncodeEntries(es) + ([TYPE_NIL] + rest) == [TYPE_NIL] + rest
    ensures es != [] ==> (EncodeEntries(es) + ([TYPE_NIL] + rest)
      == Encode(es[0].key) + (Encode(es[0].value) + (EncodeEntries(es[1..]) + ([TYPE_NIL] + rest))))
  {
    hide Encode;
  }

  /** What follows the items reads as x only if x, as a C int stores it, is the first key. */
  lemma KeyReads(es: seq<Entry>, x: Value, rest: seq<Byte>)
    requires x != Nil && !x.Table?
    requires forall e :: e in es ==> IsLua(e.key) && Encodable(e.key)
    requires var r := ParseOne(EncodeEntries(es) + ([TYPE_NIL] + rest)); r.Parsed? && r.value == x
    ensures es != [] && Stored(es[0].key) == x && (x.Int? ==> IsInt(x.i))
    ensures ParseOne(EncodeEntries(es) + ([TYPE_NIL] + rest)).rest
         == Encode(es[0].value) + (EncodeEntries(es[1..]) + ([TYPE_NIL] + rest))
  {
    hide ParseOne, Encode, EncodeEntries, IsLua, Encodable;
    EntriesFront(es, rest);
    if es == [] {
      NilParses(rest);
    } else {
      ReadsAsScalar(es[0].key, x, Encode(es[0].value) + (EncodeEntries(es[1..]) + ([TYPE_NIL] + rest)));
    }
  }

  /** If the items come back although they were read one place late, all of them are the same number,
      and so is the key that was read as the last of them. */
  lemma ThirtyOneEqualItems(v: Value, rest: seq<Byte>)
    requires v.Table? && |v.items| == MAX_COOKIE - 1 && IsLua(v) && Encodable(v)
    requires ParseOne(Encode(v) + rest).Parsed? && ParseOne(Encode(v) + rest).value == v
    ensures var x := v.items[0];
      && (x.Int? || x.Double?) && SizeOf(x) == MAX_COOKIE - 1 && (x.Int? ==> IsInt(x.i))
      && v.hash != [] && Stored(v.hash[0].key) == x
    ensures var r := ParseEntries(Encode(v.hash[0].value) + (EncodeEntries(v.hash[1..]) + ([TYPE_NIL] + rest)));
      r.Parsed? && r.value == v.hash
  {
    hide ParseOne, ParseContent, ParseItems, ParseEntries, Encode, EncodeAll, EncodeEntries;
    ThirtyOneParses(v, rest);
    var x, n := v.items[0], SizeOf(Stored(v.items[0]));
    var more, tail := Content(v.items[1..], v.hash, rest), EncodeEntries(v.hash) + ([TYPE_NIL] + rest);
    ContentParses(more, n);
    assert v.items == [x] + v.items[1..];
    ShiftedItems(v.items[1..], x, tail);
    KeyReads(v.hash, x, rest);
  }

  /** Reading the entries one value late never gives the entries. */
  lemma ShiftedEntries(v: Value, rest: seq<Byte>)
    requires v.Table? && IsLua(v) && Encodable(v) && v.hash != []
    requires var x := Stored(v.hash[0].key); x.Double? || InArray(x, |v.items|)
    ensures var r := ParseEntries(Encode(v.hash[0].value) + (EncodeEntries(v.hash[1..]) + ([TYPE_NIL] + rest)));
      r.Parsed? ==> r.value != v.hash
  {
    hide ParseOne, ParseEntries, Encode, EncodeEntries;
    var k, w := v.hash[0].key, v.hash[0].value;
    var tail := EncodeEntries(v.hash[1..]) + ([TYPE_NIL] + rest);
    var r := ParseEntries(Encode(w) + tail);
    if r.Parsed? && r.value == v.hash {
      FirstEntry(Encode(w) + tail, v.hash);
      assert v.hash[0] in v.hash;
      ReadsAsScalar(w, k, tail);
      assert k.Double? && w == k;
      KeyReads(v.hash[1..], w, rest);
    }
  }

  /** A table with exactly 31 items never comes back as it was. */
  lemma ThirtyOneNeverSurvives(v: Value, rest: seq<Byte>)
    requires v.Table? && |v.items| == MAX_COOKIE - 1 && IsLua(v) && Encodable(v)
    ensures var r := ParseOne(Encode(v) + rest); r.Parsed? ==> r.value != v
  {
    hide ParseOne, ParseEntries, Encode, EncodeEntries, Encodable;
    var r := ParseOne(Encode(v) + rest);
    if r.Parsed? && r.value == v {
      ThirtyOneEqualItems(v, rest);
      ShiftedEntries(v, rest);
    }
  }

  /** Unless its first item is a number, such a table makes the whole stream invalid. */
  lemma ThirtyOneFails(v: Value, rest: seq<Byte>)
    requires v.Table? && |v.items| == MAX_COOKIE - 1 && IsLua(v) && Encodable(v)
    requires !v.items[0].Int? && !v.items[0].Double?
    ensures ParseOne(Encode(v) + rest) == Failed
  {
    hide ParseOne, ParseContent;
    if ParseOne(Encode(v) + rest).Parsed? {
      ThirtyOneParses(v, rest);
    }
  }

  /** If it is 30, the item is lost and nothing is reported. */
  lemma ThirtyOneLosesItem(v: Value, rest: seq<Byte>)
    requires v.Table? && |v.items| == MAX_COOKIE - 1 && IsLua(v) && Encodable(v)
    requires v.items[0] == Int(MAX_COOKIE - 2)
    requires forall x :: x in v.items ==> Survives(x)
    requires forall e :: e in v.hash ==> Survives(e.key) && Survives(e.value)
    ensures ParseOne(Encode(v) + rest) == Parsed(Table(v.items[1..], v.hash), rest)
  {
    hide ParseOne, ParseItems, ParseEntries, NumberAt, EncodeInt, EncodeAll, EncodeEntries;
    var content, more := Content(v.items, v.hash, rest), Content(v.items[1..], v.hash, rest);
    TableBytes(v, rest);
    ParseTagged(TYPE_TABLE, MAX_COOKIE - 1, [], content);
    assert Header(MAX_COOKIE - 1) + content == [Tag(TYPE_TABLE, MAX_COOKIE - 1)] + [] + content;
    assert [] + content == content;
    ContentFront(v.items, v.hash, rest);
    assert Encode(v.items[0]) == EncodeInt(MAX_COOKIE - 2, TYPE_NUMBER);
    IntAt(MAX_COOKIE - 2, more);
    assert ParseTable(content, MAX_COOKIE - 1) == ParseContent(more, MAX_COOKIE - 2);
    SurvivorsParse(v.items[1..], EncodeEntries(v.hash) + ([TYPE_NIL] + rest));
    EntriesParse(v.hash, rest);
    assert ParseContent(more, MAX_COOKIE - 2) == Parsed(Table(v.items[1..], v.hash), rest);
  }

  /** The converse of SurvivorParses. */
  lemma {:induction false} OnlySurvivors(v: Value, rest: seq<Byte>)
    requires IsLua(v) && Encodable(v)
    requires var r := ParseOne(Encode(v) + rest); r.Parsed? && r.value == v
    ensures Survives(v)
    decreases v
  {
    hide ParseOne, ParseContent, ParseItems, ParseEntries, Encode, EncodeAll, EncodeEntries;
    if !v.Table? {
      ScalarParses(v, rest);
    } else if |v.items| == MAX_COOKIE - 1 {
      ThirtyOneNeverSurvives(v, rest);
    } else {
      var tail := EncodeEntries(v.hash) + ([TYPE_NIL] + rest);
      TableBytes(v, rest);
      HeaderParses(|v.items|, Content(v.items, v.hash, rest));
      ContentParses(Content(v.items, v.hash, rest), |v.items|);
      OnlySurvivingItems(v.items, tail);
      SurvivorsParse(v.items, tail);
      OnlySurvivingEntries(v.hash, rest);
    }
  }

  lemma {:induction false} OnlySurvivingItems(vs: seq<Value>, tail: seq<Byte>)
    requires forall x :: x in vs ==> IsLua(x) && Encodable(x)
    requires var r := ParseItems(EncodeAll(vs) + tail, |vs|); r.Parsed? && r.value == vs
    ensures forall x :: x in vs ==> Survives(x)
    decreases vs
  {
    hide ParseOne, ParseItems, Encode, IsLua, Encodable, Survives;
    if vs != [] {
      var more := EncodeAll(vs[1..]) + tail;
      assert EncodeAll(vs) + tail == Encode(vs[0]) + more && vs == [vs[0]] + vs[1..];
      FirstItem(Encode(vs[0]) + more, vs[0], vs[1..]);
      OnlySurvivors(vs[0], more);
      SurvivorParses(vs[0], more);
      OnlySurvivingItems(vs[1..], tail);
    }
  }

  lemma {:induction false} OnlySurvivingEntries(es: seq<Entry>, rest: seq<Byte>)
    requires forall e :: e in es ==> IsLua(e.key) && Encodable(e.key) && IsLua(e.value) && Encodable(e.value)
    requires var r := ParseEntries(EncodeEntries(es) + ([TYPE_NIL] + rest)); r.Parsed? && r.value == es
    ensures forall e :: e in es ==> Survives(e.key) && Survives(e.value)
    decreases es
  {
    hide ParseOne, ParseEntries, Encode, IsLua, Encodable, Survives;
    if es != [] {
      var tail := EncodeEntries(es[1..]) + ([TYPE_NIL] + rest);
      EntriesFront(es, rest);
      FirstEntry(EncodeEntries(es) + ([TYPE_NIL] + rest), es);
      OnlySurvivingEntry(es[0], tail);
      OnlySurvivingEntries(es[1..], rest);
      assert es == [es[0]] + es[1..];
    }
  }

  lemma {:induction false} OnlySurvivingEntry(e: Entry, tail: seq<Byte>)
    requires IsLua(e.key) && Encodable(e.key) && IsLua(e.value) && Encodable(e.value)
    requires var r := ParseOne(Encode(e.key) + (Encode(e.value) + tail));
      r.Parsed? && r.value == e.key && ParseOne(r.rest).Parsed? && ParseOne(r.rest).value == e.value
    ensures Survives(e.key) && Survives(e.value)
    ensures ParseOne(ParseOne(Encode(e.key) + (Encode(e.value) + tail)).rest).rest == tail
    decreases e
  {
    hide ParseOne, Encode, IsLua, Encodable, Survives;
    OnlySurvivors(e.key, Encode(e.value) + tail);
    SurvivorParses(e.key, Encode(e.value) + tail);
    OnlySurvivors(e.value, tail);
    SurvivorParses(e.value, tail);
  }

  // ---------- whole streams

  lemma AllFront(vs: seq<Value>)
    requires vs != []
    ensures EncodeAll(vs) == Encode(vs[0]) + EncodeAll(vs[1..]) && vs == [vs[0]] + vs[1..]
  {
  }

  lemma EncodeNonempty(v: Value)
    requires Encodable(v)
    ensures Encode(v) != []
  {
  }

  /** Reading the bytes of some values gives the values back exactly when every integral number and
      every handle fits an int and no table, at any depth, has exactly 31 items. */
  lemma {:induction false} ReadsBackIff(vs: seq<Value>)
    requires forall v :: v in vs ==> IsLua(v) && Encodable(v)
    ensures ParseAll(EncodeAll(vs)) == Parsed(vs, []) <==> forall v :: v in vs ==> Survives(v)
  {
    hide ParseOne, Encode, EncodeAll, IsLua, Encodable, Survives;
    if vs == [] {
      NothingEncoded();
    } else {
      AllFront(vs);
      EncodeNonempty(vs[0]);
      ReadsBackIff(vs[1..]);
      var b, more := EncodeAll(vs), EncodeAll(vs[1..]);
      if Survives(vs[0]) {
        SurvivorParses(vs[0], more);
        assert ParseAll(more) == Parsed(vs[1..], []) ==> ParseAll(b) == Parsed(vs, []);
      }
      if ParseAll(b) == Parsed(vs, []) {
        FirstOfAll(b, vs);
        OnlySurvivors(vs[0], more);
      }
    }
  }

  lemma NothingEncoded()
    ensures EncodeAll([]) == []
  {
  }

  lemma FirstOfAll(b: seq<Byte>, vs: seq<Value>)
    requires vs != [] && ParseAll(b) == Parsed(vs, [])
    ensures ParseOne(b).Parsed? && ParseOne(b).value == vs[0] && ParseAll(ParseOne(b).rest) == Parsed(vs[1..], [])
  {
  }

  /** Unpacking what was packed gives the values back under just that condition. */
  lemma RoundTripIff(vs: seq<Value>)
    requires forall v :: v in vs ==> IsLua(v) && Packable(v)
    ensures ParseAll(EncodeAll(vs)) == Parsed(vs, []) <==> forall v :: v in vs ==> Survives(v)
  {
    hide ParseAll, EncodeAll, IsLua, Encodable, FlatHash, Survives;
    ReadsBackIff(vs);
  }
}
