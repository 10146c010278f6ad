/** What _unpack_one of lua-seri.c reads from a flat byte string. */
module LuaStream {
  import opened Bits
  import opened Bytes
  import opened LuaValues

  /** Failed stands for the "Invalid serialize stream" error. */
  datatype Parsed<T> = Failed | Parsed(value: T, rest: seq<Byte>)

  /** rb_read on a flat buffer. */
  function Take(b: seq<Byte>, n: nat): Parsed<seq<Byte>> {
    if |b| < n then Failed else Parsed(b[..n], b[n..])
  }

  /** _get_integer */
  function ParseInt(b: seq<Byte>, cookie: nat): (r: Parsed<int>)
    ensures r.Parsed? ==> |r.rest| <= |b| && IsInt(r.value)
  {
    if cookie == 0 then Parsed(0, b)
    else if cookie !in {1, 2, 4} then Failed
    else match Take(b, cookie)
      case Failed => Failed
      case Parsed(n, rest) =>
        if cookie == 4 then Parsed(BytesInt(n), rest)
        else
          FromBytesRange(n);
          assert Range(1) == 0x100 && Range(2) == 0x10000;
          Parsed(FromBytes(n), rest)
  }

  /** _get_number */
  function ParseNumber(b: seq<Byte>, cookie: nat): (r: Parsed<Value>)
    ensures r.Parsed? ==> |r.rest| <= |b| && (r.value.Double? || (r.value.Int? && IsInt(r.value.i)))
    ensures r.Parsed? && r.value.Double? ==> |r.value.bits| == 8 && r.value.bits + r.rest == b
  {
    if cookie == 8 then
      match Take(b, 8)
      case Failed => Failed
      case Parsed(bits, rest) => Parsed(Double(bits), rest)
    else
      match ParseInt(b, cookie)
      case Failed => Failed
      case Parsed(i, rest) => Parsed(Int(i), rest)
  }

  /** The number in front of b, if there is one. */
  function NumberAt(b: seq<Byte>): (r: Parsed<Value>)
    ensures r.Parsed? ==> |r.rest| < |b| && (r.value.Double? || r.value.Int?)
  {
    if b == [] || b[0] % 8 != TYPE_NUMBER then Failed else ParseNumber(b[1..], b[0] / 8)
  }

  /** The C conversion of a double to an int: towards zero; what is out of range becomes INT_MIN. */
  function Truncate(bits: seq<Byte>): int {
    var n := FromBytes(bits);
    var exponent, mantissa := n / TWO_52 % EXPONENTS, TWO_52 + n % TWO_52;
    if exponent < BIAS then 0
    else if exponent > BIAS + 30 then MIN_INT
    else
      var magnitude := mantissa * Pow2(exponent - BIAS) / TWO_52;
      if n / TWO_52 / EXPONENTS == 0 then magnitude else -magnitude
  }

  /** The number of array items that a number in front of them stands for. */
  function SizeOf(v: Value): nat
    requires v.Int? || v.Double?
  {
    var n := if v.Int? then v.i else Truncate(v.bits);
    if n < 0 then 0 else n
  }

  /** _unpack_one */
  function ParseOne(b: seq<Byte>): (r: Parsed<Value>)
    ensures r.Parsed? ==> |r.rest| < |b|
    ensures r.Parsed? && r.value.Int? ==> IsInt(r.value.i)
    ensures r.Parsed? && r.value.Remote? ==> IsInt(r.value.handle)
    decreases |b|, 0
  {
    if b == [] then Failed else ParseValue(b[1..], b[0] % 8, b[0] / 8)
  }

  /** _push_value */
  function ParseValue(b: seq<Byte>, t: nat, cookie: nat): (r: Parsed<Value>)
    ensures r.Parsed? ==> |r.rest| <= |b|
    ensures r.Parsed? && r.value.Int? ==> IsInt(r.value.i)
    ensures r.Parsed? && r.value.Remote? ==> IsInt(r.value.handle)
    decreases |b|, 3
  {
    if t == TYPE_NIL then Parsed(Nil, b)
    else if t == TYPE_BOOLEAN then Parsed(Bool(cookie != 0), b)
    else if t == TYPE_NUMBER then ParseNumber(b, cookie)
    else if t == TYPE_USERDATA then
      match Take(b, 8)
      case Failed => Failed
      case Parsed(address, rest) => Parsed(Pointer(address), rest)
    else if t == TYPE_SHORT_STRING then ParseString(b, cookie)
    else if t == TYPE_LONG_STRING then
      match Take(b, 2)
      case Failed => Failed
      case Parsed(n, rest) => ParseString(rest, FromBytes(n))
    else if t == TYPE_TABLE then ParseTable(b, cookie)
    else if t == TYPE_REMOTE then
      match ParseInt(b, cookie)
      case Failed => Failed
      case Parsed(handle, rest) => Parsed(Remote(handle), rest)
    else Failed
  }

  /** _get_buffer */
  function ParseString(b: seq<Byte>, n: nat): (r: Parsed<Value>)
    ensures r.Parsed? ==> r.value.Str? && |r.rest| <= |b|
  {
    match Take(b, n)
    case Failed => Failed
    case Parsed(s, rest) => Parsed(Str(s), rest)
  }

  /** _unpack_table: a cookie of MAX_COOKIE - 1 says that the number of items follows. */
  function ParseTable(b: seq<Byte>, cookie: nat): (r: Parsed<Value>)
    ensures r.Parsed? ==> r.value.Table? && |r.rest| <= |b|
    decreases |b|, 2
  {
    if cookie != MAX_COOKIE - 1 then ParseContent(b, cookie)
    else match NumberAt(b)
      case Failed => Failed
      case Parsed(n, rest) => ParseContent(rest, SizeOf(n))
  }

  function ParseContent(b: seq<Byte>, n: nat): (r: Parsed<Value>)
    ensures r.Parsed? ==> r.value.Table? && |r.rest| <= |b|
    decreases |b|, 2, 0
  {
    match ParseItems(b, n)
    case Failed => Failed
    case Parsed(items, rest) =>
      match ParseEntries(rest)
      case Failed => Failed
      case Parsed(hash, rest') => Parsed(Table(items, hash), rest')
  }

  function ParseItems(b: seq<Byte>, n: nat): (r: Parsed<seq<Value>>)
    ensures r.Parsed? ==> |r.rest| <= |b| && |r.value| == n
    decreases |b|, 1
  {
    if n == 0 then Parsed([], b)
    else match ParseOne(b)
      case Failed => Failed
      case Parsed(v, rest) =>
        match ParseItems(rest, n - 1)
        case Failed => Failed
        case Parsed(vs, rest') => Parsed([v] + vs, rest')
  }

  /** Pairs up to a nil key. */
  function ParseEntries(b: seq<Byte>): (r: Parsed<seq<Entry>>)
    ensures r.Parsed? ==> |r.rest| <= |b|
    decreases |b|, 1
  {
    match ParseOne(b)
    case Failed => Failed
    case Parsed(k, rest) =>
      if k == Nil then Parsed([], rest)
      else match ParseOne(rest)
        case Failed => Failed
        case Parsed(v, rest') =>
          match ParseEntries(rest')
          case Failed => Failed
          case Parsed(es, rest'') => Parsed([Entry(k, v)] + es, rest'')
  }

  /** _luaseri_unpack: values up to the end of the stream. */
  function ParseAll(b: seq<Byte>): Parsed<seq<Value>>
    decreases |b|
  {
    if b == [] then Parsed([], [])
    else match ParseOne(b)
      case Failed => Failed
      case Parsed(v, rest) =>
        match ParseAll(rest)
        case Failed => Failed
        case Parsed(vs, rest') => Parsed([v] + vs, rest')
  }
}
