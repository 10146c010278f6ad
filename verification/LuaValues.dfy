/** The Lua values that lua-seri.c packs, and the byte string that stands for each. */
module LuaValues {
  import opened Bits
  import opened Bytes
  import opened Wrappers

  const MAX_COOKIE: nat := 32
  const MAX_DEPTH: nat := 32
  const MAX_STRING: nat := 0x10000

  const TYPE_NIL: nat := 0
  const TYPE_BOOLEAN: nat := 1
  const TYPE_NUMBER: nat := 2
  const TYPE_USERDATA: nat := 3
  const TYPE_SHORT_STRING: nat := 4
  const TYPE_LONG_STRING: nat := 5
  const TYPE_TABLE: nat := 6
  const TYPE_REMOTE: nat := 7

  /** "__remote" */
  const REMOTE_FIELD: seq<Byte> := [95, 95, 114, 101, 109, 111, 116, 101]

  /** A number whose value a lua_Integer (64 bits) holds is an Int, any other, fractional or too large,
      the eight bytes of a double. A table has its items 1 to lua_rawlen, and its other entries in the
      order of lua_next; one with a number in its field __remote is a remote object instead. */
  datatype Value =
    | Nil | Bool(b: bool) | Int(i: int) | Double(bits: seq<Byte>) | Pointer(address: seq<Byte>)
    | Str(s: seq<Byte>) | Table(items: seq<Value>, hash: seq<Entry>) | Remote(handle: int) | Unsupported

  datatype Entry = Entry(key: Value, value: Value)

  /** Key k belongs to the array part of a table with n items. */
  predicate InArray(k: Value, n: nat) { k.Int? && 0 < k.i <= n }

  /** The entry may stand outside the array part of a table with n items that is no remote object. */
  predicate EntryOk(e: Entry, n: nat) {
    e.key != Nil && !e.key.Table? && e.key != Str(REMOTE_FIELD) && e.value != Nil && !InArray(e.key, n)
  }

  predicate EntriesOk(hash: seq<Entry>, n: nat) {
    && (forall e :: e in hash ==> EntryOk(e, n))
    && (forall i, j :: 0 <= i < j < |hash| ==> hash[i].key != hash[j].key)
  }

  const MIN_INTEGER: int := -0x8000_0000_0000_0000
  const MAX_INTEGER: int := 0x7fff_ffff_ffff_ffff

  const TWO_52: nat := 0x10_0000_0000_0000
  const EXPONENTS: nat := 0x800
  const BIAS: nat := 1023

  /** The test of _pack_one: conversion to a lua_Integer and back leaves the double as it was. Of the
      doubles of magnitude 2^63 and more that is only -2^63. */
  predicate HoldsInteger(bits: seq<Byte>) {
    var n := FromBytes(bits);
    var exponent, fraction := n / TWO_52 % EXPONENTS, n % TWO_52;
    if exponent < BIAS then exponent == 0 && fraction == 0
    else if exponent >= BIAS + 63 then exponent == BIAS + 63 && fraction == 0 && n / TWO_52 / EXPONENTS == 1
    else exponent >= BIAS + 52 || (TWO_52 + fraction) % Pow2(52 - (exponent - BIAS)) == 0
  }

  /** v is a value that Lua can hold. */
  predicate IsLua(v: Value) {
    match v
    case Int(i) => MIN_INTEGER <= i <= MAX_INTEGER
    case Remote(handle) => MIN_INTEGER <= handle <= MAX_INTEGER
    case Double(bits) => |bits| == 8 && !HoldsInteger(bits)
    case Pointer(address) => |address| == 8
    case Table(items, hash) =>
      && |items| <= MAX_INT && EntriesOk(hash, |items|)
      && (forall x :: x in items ==> IsLua(x))
      && (forall e :: e in hash ==> IsLua(e.key) && IsLua(e.value))
    case _ => true
  }

  // ---------- packing

  /** COMBINE_TYPE */
  function Tag(t: nat, cookie: nat): Byte
    requires t < 8 && cookie < MAX_COOKIE
  {
    t + 8 * cookie
  }

  /** The cookie that tells how wb_integer writes the C int v, in the fewest bytes that hold it. */
  function IntCookie(v: int): (c: nat)
    ensures c <= 4
  {
    if v == 0 then 0 else if v < 0 then 4 else if v < 0x100 then 1 else if v < 0x10000 then 2 else 4
  }

  function IntTail(v: int): seq<Byte>
    requires IsInt(v)
  {
    if v == 0 then [] else if v < 0 then IntBytes(v) else if v < 0x100 then [v]
    else if v < 0x10000 then ToBytes(v, 2) else IntBytes(v)
  }

  /** wb_integer under a type: its argument becomes a C int. */
  function EncodeInt(i: int, t: nat): (b: seq<Byte>)
    requires t < 8
    ensures b != []
  {
    [Tag(t, IntCookie(Wrap(i)))] + IntTail(Wrap(i))
  }

  function EncodeString(s: seq<Byte>): (b: seq<Byte>)
    ensures b != []
  {
    if |s| < MAX_COOKIE then [Tag(TYPE_SHORT_STRING, |s|)] + s
    else [TYPE_LONG_STRING] + ToBytes(|s|, 2) + s
  }

  /** What wb_table_array writes in front of the items. */
  function Header(n: nat): (b: seq<Byte>)
    ensures b != []
  {
    if n > MAX_COOKIE - 1 then [Tag(TYPE_TABLE, MAX_COOKIE - 1)] + EncodeInt(n, TYPE_NUMBER) else [Tag(TYPE_TABLE, n)]
  }

  /** The bytes that stand for a value. */
  function Encode(v: Value): seq<Byte> {
    match v
    case Nil => [TYPE_NIL]
    case Bool(b) => [Tag(TYPE_BOOLEAN, if b then 1 else 0)]
    case Int(i) => EncodeInt(i, TYPE_NUMBER)
    case Double(bits) => [Tag(TYPE_NUMBER, 8)] + bits
    case Pointer(address) => [TYPE_USERDATA] + address
    case Str(s) => EncodeString(s)
    case Table(items, hash) => Header(|items|) + EncodeAll(items) + EncodeEntries(hash) + [TYPE_NIL]
    case Remote(handle) => EncodeInt(handle, TYPE_REMOTE)
    case Unsupported => []
  }

  function EncodeAll(vs: seq<Value>): seq<Byte> {
    if vs == [] then [] else Encode(vs[0]) + EncodeAll(vs[1..])
  }

  function EncodeEntries(es: seq<Entry>): seq<Byte> {
    if es == [] then [] else EncodeEntry(es[0]) + EncodeEntries(es[1..])
  }

  function EncodeEntry(e: Entry): seq<Byte> { Encode(e.key) + Encode(e.value) }

  /** InvalidKey is the error of lua_next on a key that the table does not have; StartsOver is no error:
      lua_next gets nil for a key, begins again with the first entry, and packing never ends. */
  datatype Error = TooDeep | StringTooLong | UnsupportedType | InvalidKey | StartsOver

  /** What _pack_one leaves on the Lua stack: for a plain table the nil found in its field __remote,
      which nobody pops, and above it whatever its items leave. */
  function Left(v: Value): seq<Value>
    decreases v, 0
  {
    match v
    case Table(items, _) => [Nil] + LeftItems(items)
    case _ => []
  }

  /** Each item is pushed and packed, then one slot is popped. */
  function LeftItems(vs: seq<Value>): seq<Value>
    decreases vs, 0
  {
    if vs == [] then [] else LeftItem(vs[0]) + LeftItems(vs[1..])
  }

  function LeftItem(x: Value): seq<Value>
    decreases x, 1
  {
    ([x] + Left(x))[..|Left(x)|]
  }

  /** After a table was packed as the value of an entry, popping one slot does not bring its key back
      to the top of the stack, where lua_next looks for it. */
  function NextFails(v: Value): Option<Error> {
    if !v.Table? then None
    else if ([v] + Left(v))[|Left(v)| - 1] == Nil then Some(StartsOver)
    else Some(InvalidKey)
  }

  function OrElse(e: Option<Error>, f: Option<Error>): Option<Error> { if e.Some? then e else f }

  /** The first error _pack_one meets in v at a depth. */
  function Problem(v: Value, depth: nat): Option<Error> {
    if depth > MAX_DEPTH then Some(TooDeep)
    else match v
      case Str(s) => if |s| >= MAX_STRING then Some(StringTooLong) else None
      case Table(items, hash) => OrElse(ProblemAll(items, depth + 1), ProblemEntries(hash, depth + 1))
      case Unsupported => Some(UnsupportedType)
      case _ => None
  }

  function ProblemAll(vs: seq<Value>, depth: nat): Option<Error> {
    if vs == [] then None else OrElse(Problem(vs[0], depth), ProblemAll(vs[1..], depth))
  }

  function ProblemEntries(es: seq<Entry>, depth: nat): Option<Error> {
    if es == [] then None
    else OrElse(ProblemEntry(es[0], depth), ProblemEntries(es[1..], depth))
  }

  function ProblemEntry(e: Entry, depth: nat): Option<Error> {
    OrElse(Problem(e.key, depth), OrElse(Problem(e.value, depth), NextFails(e.value)))
  }

  /** Every part of v has a representation: strings are short enough and types are supported. */
  predicate Encodable(v: Value) {
    match v
    case Str(s) => |s| < MAX_STRING
    case Unsupported => false
    case Table(items, hash) =>
      && (forall x :: x in items ==> Encodable(x))
      && (forall e :: e in hash ==> Encodable(e.key) && Encodable(e.value))
    case _ => true
  }

  /** No table in v has a table as the value of an entry outside its array part. */
  predicate FlatHash(v: Value) {
    v.Table? ==> ((forall x :: x in v.items ==> FlatHash(x)) && (forall e :: e in v.hash ==> !e.value.Table?))
  }

  predicate Packable(v: Value) { Encodable(v) && FlatHash(v) }

  /** Some value lies inside n tables. */
  predicate Nested(v: Value, n: nat) {
    n == 0 || (v.Table? && ((exists x :: x in v.items && Nested(x, n - 1))
                         || (exists e :: e in v.hash && (Nested(e.key, n - 1) || Nested(e.value, n - 1)))))
  }

  /** Packing succeeds exactly on packable values whose tables are nested at most MAX_DEPTH deep
      (the innermost of MAX_DEPTH + 1 nested tables may only be empty). */
  lemma {:induction false} PacksIff(v: Value, depth: nat)
    requires IsLua(v) && depth <= MAX_DEPTH
    ensures Problem(v, depth) == None <==> Packable(v) && !Nested(v, MAX_DEPTH - depth + 1)
    decreases v
  {
    hide Nested, Problem;
    if v.Table? && depth < MAX_DEPTH {
      forall x | x in v.items ensures PacksWhen(x, depth + 1) {
        PacksIff(x, depth + 1);
      }
      forall e | e in v.hash ensures PacksWhen(e.key, depth + 1) && PacksWhen(e.value, depth + 1) {
        PacksIff(e.key, depth + 1);
        PacksIff(e.value, depth + 1);
      }
    }
    PacksByParts(v, depth);
  }

  ghost predicate PacksWhen(v: Value, depth: nat)
    requires depth <= MAX_DEPTH
  {
    Problem(v, depth) == None <==> Packable(v) && !Nested(v, MAX_DEPTH - depth + 1)
  }

  lemma PacksByParts(v: Value, depth: nat)
    requires IsLua(v) && depth <= MAX_DEPTH
    requires v.Table? && depth < MAX_DEPTH ==> forall x :: x in v.items ==> PacksWhen(x, depth + 1)
    requires v.Table? && depth < MAX_DEPTH ==>
      forall e :: e in v.hash ==> PacksWhen(e.key, depth + 1) && PacksWhen(e.value, depth + 1)
    ensures PacksWhen(v, depth)
  {
    if v.Table? {
      hide Problem, Packable, Nested, IsLua;
      var n := MAX_DEPTH - depth;
      PackableParts(v);
      NestedParts(v, n);
      ProblemParts(v, depth);
    }
  }

  lemma PackableParts(v: Value)
    requires v.Table? && IsLua(v)
    ensures Packable(v) <==>
      && (forall x :: x in v.items ==> Packable(x))
      && (forall e :: e in v.hash ==> Packable(e.key) && Packable(e.value) && !e.value.Table?)
  {
    assert forall e :: e in v.hash ==> FlatHash(e.key) && (!e.value.Table? ==> FlatHash(e.value));
  }

  lemma NestedParts(v: Value, n: nat)
    requires v.Table?
    ensures !Nested(v, n + 1) <==>
      && (forall x :: x in v.items ==> !Nested(x, n))
      && (forall e :: e in v.hash ==> !Nested(e.key, n) && !Nested(e.value, n))
    ensures n == 0 ==> (Nested(v, n + 1) <==> v.items != [] || v.hash != [])
  {
    assert v.items != [] ==> v.items[0] in v.items;
    assert v.hash != [] ==> v.hash[0] in v.hash;
  }

  lemma ProblemParts(v: Value, depth: nat)
    requires v.Table? && depth <= MAX_DEPTH
    ensures Problem(v, depth) == None <==>
      && (forall x :: x in v.items ==> Problem(x, depth + 1) == None)
      && (forall e :: e in v.hash ==>
          Problem(e.key, depth + 1) == None && Problem(e.value, depth + 1) == None && !e.value.Table?)
    ensures depth == MAX_DEPTH ==> (Problem(v, depth) == None <==> v.items == [] && v.hash == [])
  {
    NoneAll(v.items, depth + 1);
    NoneEntries(v.hash, depth + 1);
    assert v.items != [] ==> v.items[0] in v.items;
    assert v.hash != [] ==> v.hash[0] in v.hash;
  }

  lemma {:induction false} NoneAll(vs: seq<Value>, depth: nat)
    ensures ProblemAll(vs, depth) == None <==> forall x :: x in vs ==> Problem(x, depth) == None
  {
    if vs != [] {
      NoneAll(vs[1..], depth);
      assert ProblemAll(vs, depth) == OrElse(Problem(vs[0], depth), ProblemAll(vs[1..], depth));
      assert forall x :: x in vs <==> x == vs[0] || x in vs[1..];
    }
  }

  lemma {:induction false} NoneEntries(es: seq<Entry>, depth: nat)
    ensures ProblemEntries(es, depth) == None <==> forall e :: e in es ==>
      Problem(e.key, depth) == None && Problem(e.value, depth) == None && !e.value.Table?
  {
    hide Problem, Left;
    if es != [] {
      NoneEntries(es[1..], depth);
      assert forall e :: e in es <==> e == es[0] || e in es[1..];
    }
  }

  /** v, or some value inside it, is one of which f holds. */
  predicate Contains(v: Value, f: Value -> bool) {
    f(v) || (v.Table? && ((exists x :: x in v.items && Contains(x, f))
                       || (exists e :: e in v.hash && (Contains(e.key, f) || Contains(e.value, f)))))
  }

  /** Each error is raised for what it says. */
  predicate Justified(err: Error, v: Value, depth: nat) {
    match err
    case TooDeep => depth > MAX_DEPTH || Nested(v, MAX_DEPTH - depth + 1)
    case StringTooLong => Contains(v, (x: Value) => x.Str? && |x.s| >= 0x10000)
    case UnsupportedType => Contains(v, (x: Value) => x.Unsupported?)
    case InvalidKey => !FlatHash(v)
    case StartsOver => !FlatHash(v)
  }

  lemma {:induction false} ErrorJustified(v: Value, depth: nat)
    requires IsLua(v) && Problem(v, depth).Some?
    ensures Justified(Problem(v, depth).value, v, depth)
    decreases v
  {
    hide Justified, Contains, Nested, FlatHash, ProblemAll, ProblemEntries, HoldsInteger;
    var err := Problem(v, depth).value;
    if depth > MAX_DEPTH || !v.Table? {
      LeafJustified(v, depth);
    } else if ProblemAll(v.items, depth + 1).Some? {
      var x := ProblemItem(v.items, depth + 1);
      ErrorJustified(x, depth + 1);
      ItemJustifies(v, x, err, depth);
    } else {
      var e := ProblemOfEntry(v.hash, depth + 1);
      if Problem(e.key, depth + 1).Some? {
        ErrorJustified(e.key, depth + 1);
      } else if Problem(e.value, depth + 1).Some? {
        ErrorJustified(e.value, depth + 1);
      }
      EntryJustifies(v, e, err, depth);
    }
  }

  lemma LeafJustified(v: Value, depth: nat)
    requires Problem(v, depth).Some? && (depth > MAX_DEPTH || !v.Table?)
    ensures Justified(Problem(v, depth).value, v, depth)
  {
  }

  lemma ItemJustifies(v: Value, x: Value, err: Error, depth: nat)
    requires v.Table? && x in v.items && depth <= MAX_DEPTH && Justified(err, x, depth + 1)
    ensures Justified(err, v, depth)
  {
  }

  lemma EntryJustifies(v: Value, e: Entry, err: Error, depth: nat)
    requires v.Table? && e in v.hash && depth <= MAX_DEPTH && !e.key.Table?
    requires Justified(err, e.key, depth + 1) || Justified(err, e.value, depth + 1)
          || (e.value.Table? && (err.InvalidKey? || err.StartsOver?))
    ensures Justified(err, v, depth)
  {
  }

  lemma {:induction false} ProblemItem(vs: seq<Value>, depth: nat) returns (x: Value)
    requires ProblemAll(vs, depth).Some?
    ensures x in vs && Problem(x, depth) == ProblemAll(vs, depth)
  {
    hide Problem;
    if Problem(vs[0], depth).Some? {
      x := vs[0];
    } else {
      x := ProblemItem(vs[1..], depth);
    }
  }

  lemma {:induction false} ProblemOfEntry(es: seq<Entry>, depth: nat) returns (e: Entry)
    requires ProblemEntries(es, depth).Some?
    ensures e in es && ProblemEntry(e, depth) == ProblemEntries(es, depth)
  {
    hide ProblemEntry;
    if ProblemEntry(es[0], depth).Some? {
      e := es[0];
    } else {
      e := ProblemOfEntry(es[1..], depth);
    }
  }

  // ---------- tables as values of entries

  predicate NilOrTable(v: Value) { v == Nil || v.Table? }

  /** Nothing but nils and tables is ever left on the stack. */
  lemma {:induction false} LeftOnStack(v: Value)
    ensures v.Table? <==> Left(v) != []
    ensures forall x :: x in Left(v) ==> NilOrTable(x)
    decreases v
  {
    if v.Table? {
      LeftByItems(v.items);
    }
  }

  lemma {:induction false} LeftByItems(vs: seq<Value>)
    ensures forall x :: x in LeftItems(vs) ==> NilOrTable(x)
    decreases vs
  {
    if vs != [] {
      LeftOnStack(vs[0]);
      LeftByItems(vs[1..]);
    }
  }

  lemma {:induction false} NothingLeftByScalars(vs: seq<Value>)
    requires forall x :: x in vs ==> !x.Table?
    ensures LeftItems(vs) == []
  {
    if vs != [] {
      NothingLeftByScalars(vs[1..]);
      assert LeftItem(vs[0]) == [];
    }
  }

  /** A table without tables among its items, as the value of an entry, ends packing with an error. */
  lemma ScalarItemsFail(v: Value)
    requires v.Table? && forall x :: x in v.items ==> !x.Table?
    ensures NextFails(v) == Some(InvalidKey)
  {
    NothingLeftByScalars(v.items);
  }

  /** {a = {}} does not pack. */
  lemma EmptyTableAsValue()
    ensures var v := Table([], [Entry(Str([97]), Table([], []))]);
      IsLua(v) && Encodable(v) && Problem(v, 0) == Some(InvalidKey)
  {
    hide Problem, ProblemEntries, IsLua, Left, FromBytes, ToBytes;
    ScalarItemsFail(Table([], []));
    ValueOfOnlyEntry(Table([], []), InvalidKey);
  }

  /** Packing {a = {{}}} never ends. */
  lemma TableInTableAsValue()
    ensures var v := Table([], [Entry(Str([97]), Table([Table([], [])], []))]);
      IsLua(v) && Encodable(v) && Problem(v, 0) == Some(StartsOver)
  {
    hide Problem, ProblemEntries, IsLua;
    var empty := Table([], []);
    var inner := Table([empty], []);
    assert Left(empty) == [Nil];
    assert LeftItem(empty) == [empty];
    assert [empty][1..] == [] && LeftItems([empty]) == [empty];
    assert Left(inner) == [Nil, empty];
    ValueOfOnlyEntry(inner, StartsOver);
  }

  lemma ValueOfOnlyEntry(x: Value, err: Error)
    requires x == Table([], []) || x == Table([Table([], [])], [])
    requires NextFails(x) == Some(err)
    ensures var v := Table([], [Entry(Str([97]), x)]); IsLua(v) && Encodable(v) && Problem(v, 0) == Some(err)
  {
    hide NextFails, Left, FromBytes, ToBytes;
    assert Problem(x, 1) == None by {
      if x.items != [] {
        assert Problem(x.items[0], 2) == None;
      }
    }
    var e := Entry(Str([97]), x);
    assert ProblemEntry(e, 1) == Some(err);
    assert Problem(Table([], [e]), 0) == ProblemEntries([e], 1);
  }
}
