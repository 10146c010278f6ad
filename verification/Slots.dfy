/** The arithmetic of handles and slots in skynet_handle.c. */
module Slots {
  import opened Bits

  const HANDLE_BITS: nat := 24
  const HANDLE_LIMIT: nat := 0x100_0000
  const HANDLE_MASK: nat := 0xff_ffff

  lemma LimitIsPower()
    ensures Pow2(HANDLE_BITS) == HANDLE_LIMIT
  {
    assert Pow2(8) == 0x100;
    Pow2Sum(8, 8);
    Pow2Sum(16, 8);
  }

  lemma {:induction false} Pow2Monotone(a: nat, b: nat)
    ensures a <= b ==> Pow2(a) <= Pow2(b)
    decreases b
  {
    if a < b { Pow2Monotone(a, b - 1); }
  }

  lemma BitsFit(k: nat)
    requires 2 * Pow2(k) <= HANDLE_LIMIT
    ensures k + 1 <= HANDLE_BITS
  {
    LimitIsPower();
    Pow2Monotone(HANDLE_BITS, k);
  }

  /** The slot of a handle: its low bits. */
  lemma SlotOf(h: nat, k: nat)
    ensures BitAnd(h, Pow2(k) - 1) == h % Pow2(k)
    ensures h % Pow2(k) < Pow2(k)
  {
    AndMask(h, k);
  }

  /** Cutting a number to the handle bits does not change its slot. */
  lemma CutToHandle(h: nat, k: nat)
    requires k <= HANDLE_BITS
    ensures BitAnd(h, HANDLE_MASK) == h % HANDLE_LIMIT
    ensures h % HANDLE_LIMIT % Pow2(k) == h % Pow2(k)
  {
    LimitIsPower();
    AndMask(h, HANDLE_BITS);
    HarborAbove(h % HANDLE_LIMIT, h / HANDLE_LIMIT, k);
  }

  lemma WrapOnce(start: nat, i: nat)
    requires start <= HANDLE_LIMIT && i < HANDLE_LIMIT
    ensures (start + i) % HANDLE_LIMIT == if start + i < HANDLE_LIMIT then start + i else start + i - HANDLE_LIMIT
  {
  }

  /** The i-th handle that is tried is below the first exactly if the search wrapped. */
  lemma WrapsAt(start: nat, i: nat, k: nat)
    requires 0 < start <= HANDLE_LIMIT && i < Pow2(k) && k <= HANDLE_BITS
    ensures start <= (start + i) % HANDLE_LIMIT <==> start + i < HANDLE_LIMIT
    ensures (start + i) % HANDLE_LIMIT == 0 <==> start + i == HANDLE_LIMIT
    ensures (start + i) % HANDLE_LIMIT < HANDLE_LIMIT
  {
    Pow2Monotone(k, HANDLE_BITS);
    LimitIsPower();
    WrapOnce(start, i);
  }

  /** Putting the harbor above the low bits adds it. */
  lemma {:induction false} OrDisjoint(low: nat, high: nat, k: nat)
    requires low < Pow2(k)
    ensures BitOr(low, high * Pow2(k)) == low + high * Pow2(k)
    decreases k
  {
    if low > 0 {
      var half := high * Pow2(k - 1);
      assert high * Pow2(k) == 2 * half;
      OrDisjoint(low / 2, high, k - 1);
    }
  }

  lemma AddMultiple(a: nat, d: nat, m: nat, sum: nat)
    requires d > 0 && sum == a + d * m
    ensures sum % d == a % d
  {
    var q, r := a / d, a % d;
    Distribute(d, q, m);
    DivisionIsUnique(sum, d, q + m, r);
  }

  lemma Distribute(d: nat, q: nat, m: nat)
    ensures d * q + d * m == d * (q + m)
  {
  }

  lemma Regroup(high: nat, p: nat, q: nat)
    ensures high * (p * q) == p * (high * q)
  {
  }

  /** The harbor does not matter for the slot. */
  lemma HarborAbove(low: nat, high: nat, k: nat)
    requires k <= HANDLE_BITS
    ensures (low + high * HANDLE_LIMIT) % Pow2(k) == low % Pow2(k)
  {
    hide Pow2;
    LimitIsPower();
    Pow2Sum(k, HANDLE_BITS - k);
    Regroup(high, Pow2(k), Pow2(HANDLE_BITS - k));
    AddMultiple(low, Pow2(k), high * Pow2(HANDLE_BITS - k), low + high * HANDLE_LIMIT);
  }

  lemma HalfSlotOf(a: nat, s: nat, d: nat)
    requires s > 0 && d == s + s
    ensures a % d % s == a % s
  {
    var q, r := a / d, a % d;
    Twice(s, d, q);
    AddMultiple(r, s, q + q, a);
  }

  lemma Twice(s: nat, d: nat, q: nat)
    requires d == s + s
    ensures d * q == s * (q + q)
  {
  }

  /** The slot in a doubled table says what the slot was before: different slots stay different. */
  lemma HalfSlot(a: nat, s: nat)
    requires s > 0
    ensures a % (2 * s) % s == a % s
  {
    HalfSlotOf(a, s, 2 * s);
  }

  /** Probing size handles in a row visits every slot. */
  lemma Visits(start: nat, size: nat, t: nat) returns (i: nat)
    requires t < size
    ensures i < size && (start + i) % size == t
  {
    var r := start % size;
    i := if r <= t then t - r else t + size - r;
    var m := start / size + if r <= t then 0 else 1;
    Distribute(size, start / size, if r <= t then 0 else 1);
    AddMultiple(t, size, m, start + i);
    DivisionIsUnique(t, size, 0, t);
  }

  /** A handle with its harbor: its value, and its slot. */
  lemma Composed(low: nat, harbor: nat, k: nat)
    requires low < HANDLE_LIMIT && harbor % HANDLE_LIMIT == 0 && k <= HANDLE_BITS
    ensures BitOr(low, harbor) == low + harbor
    ensures (low + harbor) % Pow2(k) == low % Pow2(k)
  {
    var high := harbor / HANDLE_LIMIT;
    LimitIsPower();
    OrDisjoint(low, high, HANDLE_BITS);
    HarborAbove(low, high, k);
  }
}
