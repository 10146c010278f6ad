/** Bitwise operators on non-negative C integers, defined bit by bit, and what masking with
    2^k - 1 means in terms of division and remainder. */
module Bits {

  function Pow2(k: nat): (p: nat)
    ensures p > 0
  {
    if k == 0 then 1 else 2 * Pow2(k - 1)
  }

  lemma {:induction false} Pow2Sum(a: nat, b: nat)
    ensures Pow2(a + b) == Pow2(a) * Pow2(b)
  {
    if b > 0 {
      Pow2Sum(a, b - 1);
    }
  }

  function BitAnd(a: nat, b: nat): nat
    decreases a
  {
    if a == 0 || b == 0 then 0
    else a % 2 * (b % 2) + 2 * BitAnd(a / 2, b / 2)
  }

  function BitOr(a: nat, b: nat): nat
    decreases a
  {
    if a == 0 then b
    else (if a % 2 == 1 || b % 2 == 1 then 1 else 0) + 2 * BitOr(a / 2, b / 2)
  }

  lemma HalfMask(k: nat)
    requires k > 0
    ensures (Pow2(k) - 1) % 2 == 1
    ensures (Pow2(k) - 1) / 2 == Pow2(k - 1) - 1
  {
  }

  /** Halving commutes with cutting a number at bit k. */
  lemma CutHalf(a: nat, k: nat)
    requires k > 0
    ensures a % Pow2(k) == a % 2 + 2 * (a / 2 % Pow2(k - 1))
    ensures a / Pow2(k) == a / 2 / Pow2(k - 1)
  {
    var p := Pow2(k - 1);
    var h := a / 2;
    var q, r := h / p, h % p;
    assert h == p * q + r;
    assert a == 2 * p * q + (2 * r + a % 2) by {
      assert 2 * (p * q) == 2 * p * q;
    }
    DivisionIsUnique(a, 2 * p, q, 2 * r + a % 2);
  }

  lemma MulAtLeast(d: nat, k: int)
    requires k >= 1
    ensures d * k >= d
  {
  }

  lemma SameDivision(d: nat, q: int, r: int, q': int, r': int)
    requires d * q + r == d * q' + r'
    requires 0 <= r < d && 0 <= r' < d
    ensures q == q' && r == r'
  {
    assert d * (q - q') == r' - r && d * (q' - q) == r - r';
    if q > q' {
      MulAtLeast(d, q - q');
    } else if q < q' {
      MulAtLeast(d, q' - q);
    }
  }

  lemma DivisionIsUnique(a: nat, d: nat, q: nat, r: nat)
    requires d > 0 && a == d * q + r && r < d
    ensures a / d == q && a % d == r
  {
    SameDivision(d, q, r, a / d, a % d);
  }

  lemma {:induction false} AndMask(a: nat, k: nat)
    ensures BitAnd(a, Pow2(k) - 1) == a % Pow2(k)
    decreases k
  {
    if a != 0 && k > 0 {
      HalfMask(k);
      AndMask(a / 2, k - 1);
      CutHalf(a, k);
    }
  }

  lemma {:induction false} OrMask(a: nat, k: nat)
    ensures BitOr(a, Pow2(k) - 1) == a - a % Pow2(k) + (Pow2(k) - 1)
    decreases k
  {
    if k == 0 {
      OrZero(a);
    } else if a != 0 {
      HalfMask(k);
      OrMask(a / 2, k - 1);
      CutHalf(a, k);
    }
  }

  lemma {:induction false} OrZero(a: nat)
    ensures BitOr(a, 0) == a
  {
    if a != 0 { OrZero(a / 2); }
  }

  /** Two numbers agree after their low k bits are all set exactly when they agree above bit k. */
  lemma OrMaskAgree(a: nat, b: nat, k: nat)
    ensures BitOr(a, Pow2(k) - 1) == BitOr(b, Pow2(k) - 1) <==> a / Pow2(k) == b / Pow2(k)
  {
    OrMask(a, k);
    OrMask(b, k);
    CutAgree(Pow2(k), a, b);
  }

  lemma CutAgree(p: nat, a: nat, b: nat)
    requires p > 0
    ensures a - a % p == b - b % p <==> a / p == b / p
  {
  }
}
