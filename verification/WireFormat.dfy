/** The bytes that lua-seri.c puts on the wire, stated by type, cookie and size without the functions that
    build them. */
module WireFormat {
  import opened Bytes
  import opened LuaValues
  import opened LuaStream

  // ---------- what is written

  predicate StartsWith(b: seq<Byte>, t: nat, cookie: nat) { b != [] && b[0] == t + 8 * cookie }

  /** v can be stored in n bytes behind the type byte: forms 1 and 2 hold no sign, form 0 only zero. */
  predicate FitsForm(v: int, n: nat) {
    match n
    case 0 => v == 0
    case 1 => 0 <= v < 0x100
    case 2 => 0 <= v < 0x10000
    case 4 => -0x8000_0000 <= v < 0x8000_0000
    case _ => false
  }

  /** An integer takes the fewest bytes of the forms 0, 1, 2 and 4 that hold it as a C int, and the
      cookie says how many. */
  lemma IntForm(i: int, t: nat)
    requires t < 8
    ensures var b := EncodeInt(i, t); var n := |b| - 1;
      && StartsWith(b, t, n) && FitsForm(Wrap(i), n) && (forall k: nat :: FitsForm(Wrap(i), k) ==> n <= k)
      && Wrap(i) == (if n == 4 then BytesInt(b[1..]) else FromBytes(b[1..]))
  {
    hide ToBytes, FromBytes, BytesInt, IntBytes;
    var v, b := Wrap(i), EncodeInt(i, t);
    assert b[1..] == IntTail(v);
    if v == 0 {
      assert b[1..] == [];
      NoBytes();
    } else if 0 < v < 0x100 {
      OneByte(v);
    } else if 0 < v < 0x10000 {
      assert Range(2) == 0x10000;
      FromToBytes(v, 2);
    } else {
      IntRoundTrip(v);
    }
  }

  lemma NoBytes()
    ensures FromBytes([]) == 0
  {
  }

  lemma OneByte(v: Byte)
    ensures FromBytes([v]) == v
  {
    assert [v][1..] == [];
  }

  /** A string below 32 bytes stands behind one byte, any longer one behind three. */
  lemma StringForm(s: seq<Byte>)
    requires |s| < MAX_STRING
    ensures var b := Encode(Str(s));
      && (|s| < 32 ==> |b| == 1 + |s| && StartsWith(b, 4, |s|) && b[1..] == s)
      && (|s| >= 32 ==> |b| == 3 + |s| && StartsWith(b, 5, 0) && FromBytes(b[1..3]) == |s| && b[3..] == s)
  {
    hide ToBytes, FromBytes;
    var b := Encode(Str(s));
    if |s| >= 32 {
      assert Range(2) == 0x10000;
      FromToBytes(|s|, 2);
      var n := ToBytes(|s|, 2);
      assert b == [5] + n + s;
      assert b[1..3] == n;
    }
  }

  lemma FixedForm(v: Value)
    requires IsLua(v)
    ensures v.Nil? ==> Encode(v) == [0]
    ensures v.Bool? ==> Encode(v) == [if v.b then 9 else 1]
    ensures v.Double? ==> StartsWith(Encode(v), 2, 8) && Encode(v)[1..] == v.bits && |Encode(v)| == 9
    ensures v.Pointer? ==> StartsWith(Encode(v), 3, 0) && Encode(v)[1..] == v.address && |Encode(v)| == 9
    ensures v.Int? ==> Encode(v) == EncodeInt(v.i, 2)
    ensures v.Remote? ==> Encode(v) == EncodeInt(v.handle, 7)
  {
  }

  /** A table starts with the number of its items, in one byte up to 31, then come the items, then keys
      and values in turn, then a nil. */
  lemma TableForm(v: Value)
    requires v.Table?
    ensures var b, n := Encode(v), |v.items|;
      && StartsWith(b, 6, if n > 31 then 31 else n)
      && b == [b[0]] + (if n > 31 then EncodeInt(n, 2) else []) + EncodeAll(v.items) + EncodeEntries(v.hash) + [0]
  {
    hide EncodeInt;
  }

  // ---------- how much is written

  function IntSize(v: int): nat {
    if v == 0 then 1 else if 0 < v < 0x100 then 2 else if 0 < v < 0x10000 then 3 else 5
  }

  function Size(v: Value): nat {
    match v
    case Nil => 1
    case Bool(_) => 1
    case Int(i) => IntSize(Wrap(i))
    case Double(_) => 9
    case Pointer(_) => 9
    case Str(s) => if |s| < 32 then 1 + |s| else 3 + |s|
    case Remote(handle) => IntSize(Wrap(handle))
    case Table(items, hash) =>
      1 + (if |items| > 31 then IntSize(Wrap(|items|)) else 0) + SizeAll(items) + SizeEntries(hash) + 1
    case Unsupported => 0
  }

  function SizeAll(vs: seq<Value>): nat {
    if vs == [] then 0 else Size(vs[0]) + SizeAll(vs[1..])
  }

  function SizeEntries(es: seq<Entry>): nat {
    if es == [] then 0 else SizeEntry(es[0]) + SizeEntries(es[1..])
  }

  function SizeEntry(e: Entry): nat { Size(e.key) + Size(e.value) }

  /** The size of what is written for a value, by its structure. */
  lemma {:induction false} EncodedSize(v: Value)
    requires IsLua(v) && Encodable(v)
    ensures |Encode(v)| == Size(v)
    decreases v
  {
    hide EncodeInt, EncodeAll, EncodeEntries, SizeAll, SizeEntries;
    match v {
      case Int(i) => IntFormSize(i, 2);
      case Remote(handle) => IntFormSize(handle, 7);
      case Str(s) => StringForm(s);
      case Table(items, hash) =>
        IntFormSize(|items|, 2);
        EncodedSizes(items);
        EntriesSize(hash);
        TableForm(v);
      case _ => FixedForm(v);
    }
  }

  lemma IntFormSize(i: int, t: nat)
    requires t < 8
    ensures |EncodeInt(i, t)| == IntSize(Wrap(i))
  {
    hide EncodeInt;
    IntForm(i, t);
    assert FitsForm(Wrap(i), IntSize(Wrap(i)) - 1);
  }

  lemma {:induction false} EncodedSizes(vs: seq<Value>)
    requires forall x :: x in vs ==> IsLua(x) && Encodable(x)
    ensures |EncodeAll(vs)| == SizeAll(vs)
    decreases vs
  {
    hide Encode, Size, IsLua, Encodable;
    if vs != [] {
      EncodedSize(vs[0]);
      EncodedSizes(vs[1..]);
    }
  }

  lemma {:induction false} EntriesSize(es: seq<Entry>)
    requires forall e :: e in es ==> IsLua(e.key) && IsLua(e.value) && Encodable(e.key) && Encodable(e.value)
    ensures |EncodeEntries(es)| == SizeEntries(es)
    decreases es
  {
    hide Encode, Size, IsLua, Encodable;
    if es != [] {
      EntrySize(es[0]);
      EntriesSize(es[1..]);
    }
  }

  lemma {:induction false} EntrySize(e: Entry)
    requires IsLua(e.key) && IsLua(e.value) && Encodable(e.key) && Encodable(e.value)
    ensures |EncodeEntry(e)| == SizeEntry(e)
    decreases e
  {
    EncodedSize(e.key);
    EncodedSize(e.value);
  }

  // ---------- what is read

  /** How many bytes follow a type byte, for everything but a table; None if no such value exists. */
  function Payload(t: nat, cookie: nat, rest: seq<Byte>): (n: int)
    ensures n >= -1
  {
    if t == 0 || t == 1 then 0
    else if t == 2 then (if cookie in {0, 1, 2, 4, 8} then cookie else -1)
    else if t == 3 then 8
    else if t == 4 then cookie
    else if t == 5 then (if |rest| >= 2 then 2 + (rest[0] as int) + 0x100 * (rest[1] as int) else -1)
    else if t == 7 && cookie in {0, 1, 2, 4} then cookie
    else -1
  }

  /** The value that a type byte and the bytes behind it stand for. */
  function Meaning(t: nat, cookie: nat, bytes: seq<Byte>): Value
    requires (t == 2 || t == 7) && cookie == 4 ==> |bytes| == 4
    requires t == 5 ==> |bytes| >= 2
  {
    match t
    case 0 => Nil
    case 1 => Bool(cookie > 0)
    case 2 => if cookie == 8 then Double(bytes) else if cookie == 4 then Int(BytesInt(bytes)) else Int(FromBytes(bytes))
    case 3 => Pointer(bytes)
    case 4 => Str(bytes)
    case 5 => Str(bytes[2..])
    case 7 => if cookie == 4 then Remote(BytesInt(bytes)) else Remote(FromBytes(bytes))
    case _ => Unsupported
  }

  /** Whatever the stream, reading a value that is no table succeeds exactly if its bytes are all there,
      takes exactly them, and gives what they stand for. */
  lemma ReadsIff(b: seq<Byte>)
    requires b != [] && b[0] % 8 != 6
    ensures var n := Payload(b[0] % 8, b[0] / 8, b[1..]);
      && (ParseOne(b).Parsed? <==> n >= 0 && 1 + n <= |b|)
      && (n >= 0 && 1 + n <= |b| ==>
          ParseOne(b) == Parsed(Meaning(b[0] % 8, b[0] / 8, b[1..1 + n]), b[1 + n..]))
  {
    hide ParseValue, Meaning;
    var t, cookie, rest := b[0] % 8, b[0] / 8, b[1..];
    var n := Payload(t, cookie, rest);
    ReadsValueIff(rest, t, cookie);
    if 0 <= n <= |rest| {
      assert rest[n..] == b[1 + n..] && rest[..n] == b[1..1 + n];
    }
  }

  lemma ReadsValueIff(b: seq<Byte>, t: nat, cookie: nat)
    requires t != 6
    ensures var n, r := Payload(t, cookie, b), ParseValue(b, t, cookie);
      (r.Parsed? <==> 0 <= n <= |b|) && (0 <= n <= |b| ==> r == Parsed(Meaning(t, cookie, b[..n]), b[n..]))
  {
    hide ParseTable, ParseNumber, ParseInt, ParseString, FromBytes, BytesInt;
    if t == 2 {
      ReadsNumberIff(b, cookie);
    } else if t == 5 {
      ReadsLongStringIff(b, cookie);
    } else if t == 4 {
      ReadsStringIff(b, cookie);
    } else if t == 7 {
      ReadsIntIff(b, cookie);
    } else if t < 2 {
      assert b[0..] == b;
    }
  }

  lemma ReadsIntIff(b: seq<Byte>, cookie: nat)
    ensures ParseInt(b, cookie).Parsed? <==> cookie in {0, 1, 2, 4} && cookie <= |b|
    ensures cookie in {0, 1, 2, 4} && cookie <= |b| ==>
      ParseInt(b, cookie) == Parsed(if cookie == 4 then BytesInt(b[..4]) else FromBytes(b[..cookie]), b[cookie..])
  {
    hide FromBytes, BytesInt;
    if cookie == 0 {
      NoBytes();
      assert b[..0] == [] && b[0..] == b;
    }
  }

  lemma ReadsNumberIff(b: seq<Byte>, cookie: nat)
    ensures var r := ParseNumber(b, cookie);
      && (r.Parsed? <==> cookie in {0, 1, 2, 4, 8} && cookie <= |b|)
      && (r.Parsed? ==> r == Parsed(Meaning(2, cookie, b[..cookie]), b[cookie..]))
  {
    hide ParseInt, FromBytes, BytesInt;
    ReadsIntIff(b, cookie);
  }

  lemma ReadsStringIff(b: seq<Byte>, n: nat)
    ensures ParseString(b, n).Parsed? <==> n <= |b|
    ensures n <= |b| ==> ParseString(b, n) == Parsed(Str(b[..n]), b[n..])
  {
  }

  lemma ReadsLongStringIff(b: seq<Byte>, cookie: nat)
    ensures var n, r := Payload(5, cookie, b), ParseValue(b, 5, cookie);
      (r.Parsed? <==> 0 <= n <= |b|) && (0 <= n <= |b| ==> r == Parsed(Str(b[..n][2..]), b[n..]))
  {
    hide ParseString, FromBytes;
    if |b| >= 2 {
      var k := FromBytes(b[..2]);
      TwoBytes(b[..2]);
      ReadsStringIff(b[2..], k);
      if k <= |b[2..]| {
        assert b[2..][..k] == b[..2 + k][2..] && b[2..][k..] == b[2 + k..];
      }
    }
  }

  lemma TwoBytes(b: seq<Byte>)
    requires |b| == 2
    ensures FromBytes(b) == (b[0] as int) + 0x100 * (b[1] as int)
  {
    assert FromBytes(b[1..]) == (b[1] as int) + 0x100 * FromBytes(b[1..][1..]);
  }

  function AtLeastZero(i: int): nat { if i < 0 then 0 else i }

  /** A table read has as many items as the type byte says or, if that says 31, the number behind it, which
      may be a double and is none if it is negative. */
  lemma ReadsCount(b: seq<Byte>)
    requires b != [] && b[0] % 8 == 6 && ParseOne(b).Parsed?
    ensures ParseOne(b).value.Table?
    ensures var n := |ParseOne(b).value.items|;
      && (b[0] / 8 < 31 ==> n == b[0] / 8)
      && (b[0] / 8 == 31 ==> NumberAt(b[1..]).Parsed? && n == match NumberAt(b[1..]).value {
           case Int(i) => AtLeastZero(i)
           case Double(bits) => AtLeastZero(Truncate(bits))
         })
  {
    hide ParseContent, Truncate, NumberAt;
    var rest, cookie := b[1..], b[0] / 8;
    assert ParseOne(b) == ParseTable(rest, cookie);
    if cookie == 31 {
      ContentCount(NumberAt(rest).rest, SizeOf(NumberAt(rest).value));
    } else {
      ContentCount(rest, cookie);
    }
  }

  lemma ContentCount(b: seq<Byte>, n: nat)
    requires ParseContent(b, n).Parsed?
    ensures |ParseContent(b, n).value.items| == n
  {
    hide ParseItems, ParseEntries;
  }
}
