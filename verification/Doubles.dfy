/** What the bits of a double stand for, and that the tests and conversions of lua-seri.c agree with it. */
module Doubles {
  import opened Bits
  import opened Bytes
  import opened LuaValues
  import opened LuaStream

  /** The magnitude of a double is Scaled(bits) / 2^(BIAS + 52). */
  function Scaled(bits: seq<Byte>): nat {
    var n := FromBytes(bits);
    var exponent, fraction := n / TWO_52 % EXPONENTS, n % TWO_52;
    if exponent == 0 then 2 * fraction else (TWO_52 + fraction) * Pow2(exponent)
  }

  predicate IsNegative(bits: seq<Byte>) { FromBytes(bits) / TWO_52 / EXPONENTS != 0 }

  lemma Pow52()
    ensures Pow2(52) == TWO_52
  {
    hide Pow2;
    Pow2Sum(26, 26);
    Pow2Sum(13, 13);
    assert Pow2(13) == 0x2000 by { Pow13(); }
  }

  lemma Pow13()
    ensures Pow2(13) == 0x2000
  {
  }

  lemma ScaleDivision(a: nat, c: nat, d: nat)
    requires c > 0 && d > 0
    ensures (a * d) / (c * d) == a / c && (a * d) % (c * d) == (a % c) * d
  {
    var q, r := a / c, a % c;
    assert a == c * q + r;
    assert a * d == (c * d) * q + r * d by {
      assert (c * q + r) * d == c * q * d + r * d;
      assert c * q * d == (c * d) * q;
    }
    assert 0 <= r * d < c * d;
    DivisionIsUnique(a * d, c * d, q, r * d);
  }

  lemma Product(m: nat, x: nat, d: nat)
    ensures m * (x * d) == (m * x) * d
  {
  }

  /** m 2^e in units of 2^(b + 52), for a mantissa m. */
  lemma Units(m: nat, e: nat, b: nat)
    requires e >= b
    ensures m * Pow2(e) / Pow2(b + 52) == m * Pow2(e - b) / TWO_52
    ensures m * Pow2(e) % Pow2(b + 52) == m * Pow2(e - b) % TWO_52 * Pow2(b)
  {
    hide Pow2;
    Pow52();
    Pow2Sum(52, b);
    Pow2Sum(e - b, b);
    Product(m, Pow2(e - b), Pow2(b));
    ScaleDivision(m * Pow2(e - b), Pow2(52), Pow2(b));
  }

  lemma SmallUnits(x: nat, p: nat)
    requires x < p
    ensures x / p == 0 && x % p == x
  {
  }

  lemma Below(m: nat, e: nat, b: nat)
    requires TWO_52 <= m < 2 * TWO_52 && e < b
    ensures 0 < m * Pow2(e) < Pow2(b + 52)
  {
    hide Pow2;
    Pow52();
    Pow2Sum(53, e);
    Pow2Sum(b - e - 1, e + 53);
    assert Pow2(53) == 2 * Pow2(52) by { OneMore(52); }
    Larger(m, Pow2(53), Pow2(e));
    Larger(0, m, Pow2(e));
    AtLeast(Pow2(b - e - 1), Pow2(e + 53));
  }

  lemma OneMore(k: nat)
    ensures Pow2(k + 1) == 2 * Pow2(k)
  {
  }

  lemma Larger(a: nat, b: nat, d: nat)
    requires a < b && d > 0
    ensures a * d < b * d
  {
  }

  lemma AtLeast(a: nat, b: nat)
    requires a > 0
    ensures a * b >= b
  {
  }

  /** The reader takes the number in front of a table for an int as C converts a double: towards zero, or
      to INT_MIN if it does not fit. */
  lemma TruncatesToZero(bits: seq<Byte>)
    ensures var q := Scaled(bits) / Pow2(BIAS + 52);
      Truncate(bits) == if q > (if IsNegative(bits) then MAX_INT + 1 else MAX_INT) then MIN_INT
                        else if IsNegative(bits) then -q else q
  {
    hide Pow2, FromBytes;
    var n := FromBytes(bits);
    var e, m := n / TWO_52 % EXPONENTS, TWO_52 + n % TWO_52;
    TruncatesMantissa(m, e, BIAS);
    TinyFraction(n % TWO_52, BIAS);
  }

  lemma TruncatesMantissa(m: nat, e: nat, b: nat)
    requires TWO_52 <= m < 2 * TWO_52
    ensures var q := m * Pow2(e) / Pow2(b + 52);
      && (e < b ==> q == 0) && (e > b + 30 ==> q > MAX_INT && (q == MAX_INT + 1 ==> e == b + 31))
      && (b <= e <= b + 30 ==> q == m * Pow2(e - b) / TWO_52 <= MAX_INT)
  {
    hide Pow2;
    if e < b {
      Below(m, e, b);
      SmallUnits(m * Pow2(e), Pow2(b + 52));
    } else {
      Units(m, e, b);
      Bounds(m, Pow2(e - b));
      Powers(e - b);
    }
  }

  lemma Bounds(m: nat, p: nat)
    requires TWO_52 <= m < 2 * TWO_52 && p > 0
    ensures p <= m * p / TWO_52 < 2 * p
  {
    assert TWO_52 * p <= m * p by { NotLess(TWO_52, m, p); }
    Larger(m, 2 * TWO_52, p);
  }

  lemma NotLess(a: nat, b: nat, d: nat)
    requires a <= b
    ensures a * d <= b * d
  {
  }

  lemma Powers(k: nat)
    ensures k <= 30 ==> Pow2(k) <= 0x4000_0000
    ensures k >= 31 ==> Pow2(k) >= 0x8000_0000
    ensures k >= 32 ==> Pow2(k) >= 0x1_0000_0000
  {
    hide Pow2;
    Pow32();
    if k <= 30 {
      Pow2Sum(30 - k, k);
      AtLeast(Pow2(30 - k), Pow2(k));
    } else {
      Pow2Sum(k - 31, 31);
      AtLeast(Pow2(k - 31), Pow2(31));
      if k >= 32 {
        Pow2Sum(k - 32, 32);
        AtLeast(Pow2(k - 32), Pow2(32));
      }
    }
  }

  lemma Pow32()
    ensures Pow2(30) == 0x4000_0000 && Pow2(31) == 0x8000_0000 && Pow2(32) == 0x1_0000_0000
  {
    hide Pow2;
    Pow2Sum(15, 15);
    assert Pow2(15) == 0x8000 by { Pow15(); }
    OneMore(30);
    OneMore(31);
  }

  lemma Pow15()
    ensures Pow2(15) == 0x8000
  {
    hide Pow2;
    Pow13();
    OneMore(13);
    OneMore(14);
  }

  lemma TinyFraction(f: nat, b: nat)
    requires f < TWO_52 && b > 1
    ensures 2 * f / Pow2(b + 52) == 0 && 2 * f % Pow2(b + 52) == 2 * f
  {
    hide Pow2;
    Pow52();
    OneMore(52);
    Pow2Sum(b - 1, 53);
    AtLeast(Pow2(b - 1), Pow2(53));
    SmallUnits(2 * f, Pow2(b + 52));
  }

  /** The test of _pack_one holds exactly of the doubles that are integers in the range of a lua_Integer. */
  lemma HoldsIntegerIff(bits: seq<Byte>)
    requires |bits| == 8
    ensures var q, r := Scaled(bits) / Pow2(BIAS + 52), Scaled(bits) % Pow2(BIAS + 52);
      HoldsInteger(bits) <==> r == 0 && q <= (if IsNegative(bits) then -MIN_INTEGER else MAX_INTEGER)
  {
    hide Pow2, FromBytes;
    var n := FromBytes(bits);
    SignBit(bits);
    HoldsByParts(n / TWO_52 % EXPONENTS, n % TWO_52, IsNegative(bits));
  }

  lemma SignBit(bits: seq<Byte>)
    requires |bits| == 8
    ensures IsNegative(bits) <==> FromBytes(bits) / TWO_52 / EXPONENTS == 1
  {
    hide FromBytes;
    FromBytesRange(bits);
    assert Range(8) == 2 * EXPONENTS * TWO_52;
  }

  predicate HoldsBy(e: nat, f: nat, negative: bool) {
    if e < BIAS then e == 0 && f == 0
    else if e >= BIAS + 63 then e == BIAS + 63 && f == 0 && negative
    else e >= BIAS + 52 || (TWO_52 + f) % Pow2(52 - (e - BIAS)) == 0
  }

  lemma HoldsByParts(e: nat, f: nat, negative: bool)
    requires f < TWO_52
    ensures var scaled := if e == 0 then 2 * f else (TWO_52 + f) * Pow2(e);
      var q, r := scaled / Pow2(BIAS + 52), scaled % Pow2(BIAS + 52);
      HoldsBy(e, f, negative) <==> r == 0 && q <= (if negative then -MIN_INTEGER else MAX_INTEGER)
  {
    hide Pow2;
    if e == 0 {
      TinyFraction(f, BIAS);
    } else {
      IntegerMantissa(TWO_52 + f, e, BIAS);
    }
  }

  lemma IntegerMantissa(m: nat, e: nat, b: nat)
    requires TWO_52 <= m < 2 * TWO_52
    ensures var q, r := m * Pow2(e) / Pow2(b + 52), m * Pow2(e) % Pow2(b + 52);
      && (e < b ==> r != 0)
      && (b <= e < b + 52 ==> (r == 0 <==> m % Pow2(52 - (e - b)) == 0) && q <= MAX_INTEGER)
      && (b + 52 <= e ==> r == 0)
      && (b + 52 <= e < b + 63 ==> q <= MAX_INTEGER)
      && (b + 63 <= e ==> (q <= -MIN_INTEGER <==> e == b + 63 && m == TWO_52) && q > MAX_INTEGER)
  {
    hide Pow2;
    if e < b {
      Below(m, e, b);
      SmallUnits(m * Pow2(e), Pow2(b + 52));
    } else {
      Units(m, e, b);
      Rests(m, e - b, Pow2(b));
      Sizes(m, e - b);
    }
  }

  lemma Rests(m: nat, k: nat, d: nat)
    requires d > 0
    ensures k >= 52 ==> m * Pow2(k) % TWO_52 * d == 0
    ensures k < 52 ==> (m * Pow2(k) % TWO_52 * d == 0 <==> m % Pow2(52 - k) == 0)
  {
    hide Pow2;
    Pow52();
    if k >= 52 {
      Pow2Sum(k - 52, 52);
      Product(m, Pow2(k - 52), Pow2(52));
      Multiple(m * Pow2(k - 52), Pow2(52));
    } else {
      Pow2Sum(52 - k, k);
      ScaleDivision(m, Pow2(52 - k), Pow2(k));
      ZeroProduct(m % Pow2(52 - k), Pow2(k));
    }
    ZeroProduct(m * Pow2(k) % TWO_52, d);
  }

  lemma Multiple(a: nat, d: nat)
    requires d > 0
    ensures a * d % d == 0
  {
    ScaleDivision(a, 1, d);
  }

  lemma ZeroProduct(a: nat, d: nat)
    requires d > 0
    ensures a * d == 0 <==> a == 0
  {
    if a > 0 {
      Larger(0, a, d);
    }
  }

  lemma Sizes(m: nat, k: nat)
    requires TWO_52 <= m < 2 * TWO_52
    ensures k < 63 ==> m * Pow2(k) / TWO_52 <= MAX_INTEGER
    ensures k == 63 ==> (m * Pow2(k) / TWO_52 <= -MIN_INTEGER <==> m < TWO_52 + 1) && m * Pow2(k) / TWO_52 > MAX_INTEGER
    ensures k > 63 ==> m * Pow2(k) / TWO_52 > -MIN_INTEGER
  {
    hide Pow2;
    Bounds(m, Pow2(k));
    Pow63();
    if k < 63 {
      Pow2Sum(62 - k, k);
      AtLeast(Pow2(62 - k), Pow2(k));
    } else if k > 63 {
      Pow2Sum(k - 64, 64);
      AtLeast(Pow2(k - 64), Pow2(64));
    }
  }

  lemma Pow63()
    ensures Pow2(62) == 0x4000_0000_0000_0000 && Pow2(63) == 0x8000_0000_0000_0000
    ensures Pow2(64) == 0x1_0000_0000_0000_0000
  {
    hide Pow2;
    Pow32();
    Pow2Sum(31, 31);
    OneMore(62);
    OneMore(63);
  }
}
