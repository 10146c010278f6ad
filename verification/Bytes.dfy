/** Bytes, and C integers laid out in them: little-endian, two's complement. */
module Bytes {

  type Byte = b: int | 0 <= b < 0x100

  const MIN_INT: int := -0x8000_0000
  const MAX_INT: int := 0x7fff_ffff

  predicate IsInt(v: int) { MIN_INT <= v <= MAX_INT }

  /** The low n bytes of v, least significant first. */
  function ToBytes(v: nat, n: nat): (b: seq<Byte>)
    ensures |b| == n
  {
    if n == 0 then [] else [v % 0x100] + ToBytes(v / 0x100, n - 1)
  }

  function FromBytes(b: seq<Byte>): nat {
    if b == [] then 0 else b[0] + 0x100 * FromBytes(b[1..])
  }

  function Range(n: nat): (r: nat)
    ensures r > 0
  {
    if n == 0 then 1 else 0x100 * Range(n - 1)
  }

  lemma {:induction false} FromToBytes(v: nat, n: nat)
    requires v < Range(n)
    ensures FromBytes(ToBytes(v, n)) == v
  {
    if n > 0 {
      assert ToBytes(v, n)[1..] == ToBytes(v / 0x100, n - 1);
      FromToBytes(v / 0x100, n - 1);
    }
  }

  lemma {:induction false} FromBytesRange(b: seq<Byte>)
    ensures FromBytes(b) < Range(|b|)
  {
    if b != [] {
      FromBytesRange(b[1..]);
    }
  }

  /** What storing v in an int and reading it back gives. */
  function Wrap(v: int): (w: int)
    ensures IsInt(w)
    ensures IsInt(v) ==> w == v
  {
    var u := v % 0x1_0000_0000;
    if u > MAX_INT then u - 0x1_0000_0000 else u
  }

  function IntBytes(v: int): (b: seq<Byte>)
    ensures |b| == 4
  {
    ToBytes(v % 0x1_0000_0000, 4)
  }

  function BytesInt(b: seq<Byte>): (v: int)
    requires |b| == 4
    ensures IsInt(v)
  {
    FromBytesRange(b);
    assert Range(4) == 0x1_0000_0000;
    Wrap(FromBytes(b))
  }

  lemma IntRoundTrip(v: int)
    ensures BytesInt(IntBytes(v)) == Wrap(v)
  {
    assert Range(4) == 0x1_0000_0000;
    FromToBytes(v % 0x1_0000_0000, 4);
  }
}
