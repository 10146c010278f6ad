/** Order-preserving selection from sequences. */
module Filters {

  function Filter<T>(p: seq<T>, f: T -> bool): seq<T> {
    if p == [] then []
    else Filter(p[..|p| - 1], f) + (if f(p[|p| - 1]) then [p[|p| - 1]] else [])
  }

  lemma FilterAppend<T>(p: seq<T>, n: T, f: T -> bool)
    ensures Filter(p + [n], f) == Filter(p, f) + (if f(n) then [n] else [])
  {
  }

  lemma {:induction false} FilterMember<T>(p: seq<T>, f: T -> bool, n: T)
    ensures n in Filter(p, f) <==> n in p && f(n)
  {
    if p != [] {
      var init, last := p[..|p| - 1], p[|p| - 1];
      assert p == init + [last];
      FilterMember(init, f, n);
      FilterAppend(init, last, f);
    }
  }

  lemma {:induction false} FilterCongruent<T(!new)>(p: seq<T>, f: T -> bool, g: T -> bool)
    requires forall n :: n in p ==> f(n) == g(n)
    ensures Filter(p, f) == Filter(p, g)
  {
    if p != [] {
      FilterCongruent(p[..|p| - 1], f, g);
    }
  }

  lemma FilterNone<T(!new)>(p: seq<T>, f: T -> bool)
    requires forall n :: n in p ==> !f(n)
    ensures Filter(p, f) == []
  {
  }

  lemma {:induction false} FilterAll<T(!new)>(p: seq<T>, f: T -> bool)
    requires forall n :: n in p ==> f(n)
    ensures Filter(p, f) == p
  {
    if p != [] {
      var init, last := p[..|p| - 1], p[|p| - 1];
      assert p == init + [last];
      assert forall n :: n in init ==> n in p;
      FilterAll(init, f);
    }
  }

  lemma {:induction false} FilterTwice<T(!new)>(p: seq<T>, f: T -> bool, g: T -> bool, both: T -> bool)
    requires forall n :: n in p ==> both(n) == (f(n) && g(n))
    ensures Filter(Filter(p, f), g) == Filter(p, both)
  {
    if p != [] {
      var init, last := p[..|p| - 1], p[|p| - 1];
      assert p == init + [last] && last in p;
      assert forall n :: n in init ==> n in p;
      FilterTwice(init, f, g, both);
      FilterAppend(Filter(init, f), last, g);
      assert Filter(init, f) + [] == Filter(init, f);
    }
  }

  lemma {:induction false} FilterConcat<T>(p: seq<T>, q: seq<T>, f: T -> bool)
    ensures Filter(p + q, f) == Filter(p, f) + Filter(q, f)
  {
    if q == [] {
      assert p + q == p;
    } else {
      var init, last := q[..|q| - 1], q[|q| - 1];
      FilterConcat(p, init, f);
      FilterAppend(p + init, last, f);
      assert p + q == p + init + [last];
    }
  }

  lemma {:induction false} SplitMultiset<T(!new)>(p: seq<T>, f: T -> bool, g: T -> bool)
    requires forall n :: n in p ==> f(n) == !g(n)
    ensures multiset(Filter(p, f)) + multiset(Filter(p, g)) == multiset(p)
  {
    hide Filter;
    if p == [] {
      FilterAll(p, f);
      FilterAll(p, g);
    } else {
      var init, last := p[..|p| - 1], p[|p| - 1];
      assert p == init + [last] && last in p;
      assert forall n :: n in init ==> n in p;
      SplitMultiset(init, f, g);
      FilterAppend(init, last, f);
      FilterAppend(init, last, g);
      AddOne(Filter(init, f), Filter(init, g), init, last, f(last));
    }
  }

  lemma AddOne<T>(x: seq<T>, y: seq<T>, p: seq<T>, n: T, left: bool)
    requires multiset(x) + multiset(y) == multiset(p)
    ensures multiset(x + if left then [n] else []) + multiset(y + if left then [] else [n]) == multiset(p + [n])
  {
  }
}
