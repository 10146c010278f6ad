/** What the two passes of combine_queue compute, step by step, on sequences. */
module Merging {
  import opened Bytes
  import opened Filters
  import Slots

  type Handle = nat

  /** struct pair; a context is named by a number, 0 is NULL. */
  datatype Pair = Pair(handle: Handle, ctx: nat)

  // ---------- the order of qsort

  /** compar_uint: the difference of two unsigned ints, as an int. */
  function Compar(a: Handle, b: Handle): int { Wrap(a - b) }

  /** The values of an unsigned int. */
  predicate IsUint(h: Handle) { h < 0x1_0000_0000 }

  /** compar_uint says of a and b what their order is. */
  predicate Ordered(a: Handle, b: Handle) {
    (Compar(a, b) < 0 <==> a < b) && (Compar(a, b) > 0 <==> a > b)
  }

  /** It does so exactly when their difference fits an int. */
  lemma ComparOrdersIff(a: Handle, b: Handle)
    requires IsUint(a) && IsUint(b)
    ensures Ordered(a, b) <==> IsInt(a - b)
  {
  }

  /** Any two handles of the queue are less than 2^31 apart. */
  predicate Near(q: seq<Handle>) { forall a, b :: a in q && b in q ==> IsInt(a - b) }

  /** So compar_uint orders a queue as the handles are ordered exactly when the queue is Near. */
  lemma ComparOrdersQueueIff(q: seq<Handle>)
    requires forall h :: h in q ==> IsUint(h)
    ensures (forall a, b :: a in q && b in q ==> Ordered(a, b)) <==> Near(q)
  {
    forall a, b | a in q && b in q ensures Ordered(a, b) <==> IsInt(a - b) {
      ComparOrdersIff(a, b);
    }
  }

  /** The handles of one harbor are Near, and so are those of harbors below 128 apart. */
  lemma HarborsNear(q: seq<Handle>, harbor: nat)
    requires forall h :: h in q ==> harbor <= h / Slots.HANDLE_LIMIT < harbor + 128
    ensures Near(q)
  {
    forall a, b | a in q && b in q ensures IsInt(a - b) {
      assert a == a / Slots.HANDLE_LIMIT * Slots.HANDLE_LIMIT + a % Slots.HANDLE_LIMIT;
      assert b == b / Slots.HANDLE_LIMIT * Slots.HANDLE_LIMIT + b % Slots.HANDLE_LIMIT;
    }
  }

  /** Among all unsigned ints it is no order: these three go round in a circle. */
  lemma ComparIsNoOrder()
    ensures Compar(0, 0x6000_0000) < 0 && Compar(0x6000_0000, 0xc000_0000) < 0 && Compar(0xc000_0000, 0) < 0
  {
  }

  function Insert(h: Handle, q: seq<Handle>): seq<Handle> {
    if q == [] || Compar(h, q[0]) <= 0 then [h] + q else [q[0]] + Insert(h, q[1..])
  }

  /** What qsort makes of an array. */
  function Sort(q: seq<Handle>): seq<Handle> {
    if q == [] then [] else Insert(q[0], Sort(q[1..]))
  }

  predicate Ascending(q: seq<Handle>) { forall i, j :: 0 <= i < j < |q| ==> q[i] <= q[j] }

  lemma AscendingFront(a: Handle, q: seq<Handle>)
    requires Ascending(q) && forall x :: x in q ==> a <= x
    ensures Ascending([a] + q)
  {
    var s := [a] + q;
    forall i, j | 0 <= i < j < |s| ensures s[i] <= s[j] {
      assert s[j] == q[j - 1] && q[j - 1] in q;
    }
  }

  lemma AscendingRest(q: seq<Handle>)
    requires Ascending(q) && q != []
    ensures Ascending(q[1..]) && forall x :: x in q[1..] ==> q[0] <= x
  {
  }

  /** Every handle of the queue is less than 2^31 away from h. */
  predicate NearTo(h: Handle, q: seq<Handle>) { forall x :: x in q ==> IsInt(h - x) }

  lemma NearFirst(h: Handle, q: seq<Handle>)
    requires q != [] && NearTo(h, q)
    ensures NearTo(h, q[1..]) && Compar(h, q[0]) == h - q[0]
  {
    assert q[0] in q && forall x :: x in q[1..] ==> x in q;
  }

  lemma {:induction false} InsertInOrder(h: Handle, q: seq<Handle>)
    requires Ascending(q) && NearTo(h, q)
    ensures Ascending(Insert(h, q)) && multiset(Insert(h, q)) == multiset{h} + multiset(q)
  {
    hide Ascending, Compar, NearTo;
    if q == [] {
      AscendingFront(h, q);
    } else {
      NearFirst(h, q);
      AscendingRest(q);
      assert q == [q[0]] + q[1..];
      if h > q[0] {
        InsertInOrder(h, q[1..]);
        var rest := Insert(h, q[1..]);
        forall x | x in rest ensures q[0] <= x {
          assert x in multiset(rest);
          assert x == h || x in q[1..];
        }
        AscendingFront(q[0], rest);
      } else {
        AscendingFront(h, q);
      }
    }
  }

  lemma NearRest(q: seq<Handle>, p: seq<Handle>)
    requires q != [] && Near(q) && multiset(p) == multiset(q[1..])
    ensures Near(q[1..]) && NearTo(q[0], p)
  {
    assert q[0] in q && forall x :: x in q[1..] ==> x in q;
    forall x | x in p ensures x in q {
      assert x in multiset(p);
    }
  }

  /** Sorting a queue that is Near gives an ascending permutation. */
  lemma {:induction false} SortSorts(q: seq<Handle>)
    requires Near(q)
    ensures Ascending(Sort(q)) && multiset(Sort(q)) == multiset(q)
  {
    hide Ascending, Insert, Near, NearTo;
    if q == [] {
      NothingAscending();
    } else {
      NearRest(q, q[1..]);
      SortSorts(q[1..]);
      assert q == [q[0]] + q[1..];
      NearRest(q, Sort(q[1..]));
      InsertInOrder(q[0], Sort(q[1..]));
    }
  }

  lemma NothingAscending()
    ensures Ascending([])
  {
  }

  /** A handle at least 2^31 above the first of an ascending queue is put in front of it. */
  lemma FarGoesFirst(h: Handle, q: seq<Handle>)
    requires q != [] && IsUint(h) && h > q[0] && !IsInt(h - q[0])
    ensures !Ascending(Insert(h, q))
  {
    assert Insert(h, q) == [h] + q;
    assert Insert(h, q)[0] == h && Insert(h, q)[1] == q[0];
  }

  /** Insertion keeps the others in their order. */
  lemma {:induction false} InsertKeepsDisorder(h: Handle, q: seq<Handle>)
    requires !Ascending(q)
    ensures !Ascending(Insert(h, q))
  {
    var i, j :| 0 <= i < j < |q| && q[i] > q[j];
    var s := Insert(h, q);
    if Compar(h, q[0]) <= 0 {
      assert s[i + 1] == q[i] && s[j + 1] == q[j];
    } else if i > 0 {
      assert q[1..][i - 1] > q[1..][j - 1];
      InsertKeepsDisorder(h, q[1..]);
      var k, l :| 0 <= k < l < |Insert(h, q[1..])| && Insert(h, q[1..])[k] > Insert(h, q[1..])[l];
      assert s[k + 1] > s[l + 1];
    } else {
      var k := InsertHas(h, q[1..], j - 1);
      assert s[0] > s[k + 1];
    }
  }

  lemma {:induction false} InsertHas(h: Handle, q: seq<Handle>, j: nat) returns (k: nat)
    requires j < |q|
    ensures k < |Insert(h, q)| && Insert(h, q)[k] == q[j]
  {
    if Compar(h, q[0]) <= 0 {
      k := j + 1;
    } else if j == 0 {
      k := 0;
    } else {
      k := InsertHas(h, q[1..], j - 1);
      k := k + 1;
    }
  }

  /** The least and the greatest handle of a queue that is not Near are far apart. */
  lemma Extremes(q: seq<Handle>) returns (lo: Handle, hi: Handle)
    requires q != []
    ensures lo in q && hi in q && forall x :: x in q ==> lo <= x <= hi
  {
    lo, hi := q[0], q[0];
    for i := 0 to |q|
      invariant lo in q && hi in q && forall j :: 0 <= j < i ==> lo <= q[j] <= hi
    {
      lo, hi := if q[i] < lo then q[i] else lo, if q[i] > hi then q[i] else hi;
    }
  }

  /** Sorting works for every order of the queue exactly when the queue is Near. */
  lemma SortsEveryOrderIff(q: seq<Handle>)
    requires forall h :: h in q ==> IsUint(h)
    ensures Near(q) <==> forall p: seq<Handle> :: multiset(p) == multiset(q) ==> Ascending(Sort(p))
  {
    if Near(q) {
      forall p: seq<Handle> | multiset(p) == multiset(q) ensures Ascending(Sort(p)) {
        NearPermutation(p, q);
        SortSorts(p);
      }
    } else {
      var p := Missorted(q);
    }
  }

  lemma NearPermutation(p: seq<Handle>, q: seq<Handle>)
    requires Near(q) && multiset(p) == multiset(q)
    ensures Near(p)
  {
    forall x | x in p ensures x in q {
      SameMembers(p, q, x);
    }
  }

  /** Otherwise there is an order that comes out wrong: the greatest handle first. */
  lemma Missorted(q: seq<Handle>) returns (p: seq<Handle>)
    requires !Near(q) && forall h :: h in q ==> IsUint(h)
    ensures multiset(p) == multiset(q) && !Ascending(Sort(p))
  {
    var a, b :| a in q && b in q && !IsInt(a - b);
    var lo, hi := Extremes(q);
    var k :| 0 <= k < |q| && q[k] == hi;
    var rest := q[..k] + q[k + 1..];
    assert q == q[..k] + [hi] + q[k + 1..];
    assert multiset([hi] + rest) == multiset(q);
    p := [hi] + rest;
    assert p[1..] == rest && Sort(p) == Insert(hi, Sort(rest));
    if Ascending(Sort(rest)) {
      SortHas(rest, lo);
      FarGoesFirst(hi, Sort(rest));
    } else {
      InsertKeepsDisorder(hi, Sort(rest));
    }
  }

  /** Sorting loses nothing, in whatever order it puts things. */
  lemma {:induction false} SortHas(q: seq<Handle>, h: Handle)
    ensures h in q <==> h in Sort(q)
  {
    if q != [] {
      SortHas(q[1..], h);
      InsertMembers(q[0], Sort(q[1..]), h);
    }
  }

  lemma {:induction false} InsertMembers(h: Handle, q: seq<Handle>, x: Handle)
    ensures x in Insert(h, q) <==> x == h || x in q
  {
    if q != [] && Compar(h, q[0]) > 0 {
      InsertMembers(h, q[1..], x);
    }
  }

  lemma SameMembers(p: seq<Handle>, q: seq<Handle>, h: Handle)
    requires multiset(p) == multiset(q)
    ensures h in p <==> h in q
  {
    assert h in p <==> h in multiset(p);
  }

  // ---------- strictly sorted groups

  predicate Strict(m: seq<Pair>) { forall i, j :: 0 <= i < j < |m| ==> m[i].handle < m[j].handle }

  predicate Has(m: seq<Pair>, h: Handle) { exists p :: p in m && p.handle == h }

  lemma FirstIsIn(n: seq<Pair>)
    ensures n != [] ==> n[0] in n
  {
  }

  lemma StrictFront(p: Pair, m: seq<Pair>)
    requires Strict(m) && (m != [] ==> p.handle < m[0].handle)
    ensures Strict([p] + m)
  {
    var s := [p] + m;
    forall i, j | 0 <= i < j < |s| ensures s[i].handle < s[j].handle {
      assert s[j] == m[j - 1] && m[0].handle <= m[j - 1].handle;
    }
  }

  lemma HasFront(p: Pair, m: seq<Pair>, h: Handle)
    ensures Has([p] + m, h) <==> p.handle == h || Has(m, h)
  {
    var s := [p] + m;
    assert forall x :: x in s <==> x == p || x in m;
  }

  /** A strictly sorted group is determined by what is in it. */
  lemma {:induction false} StrictUnique(m: seq<Pair>, n: seq<Pair>)
    requires Strict(m) && Strict(n) && forall p :: p in m <==> p in n
    ensures m == n
  {
    if m == [] {
      FirstIsIn(n);
    } else {
      assert m[0] in n;
      assert n[0] in m;
      assert m[0] == n[0];
      forall p ensures p in m[1..] <==> p in n[1..] {
        if p in m[1..] { assert p in n && p != n[0]; }
        if p in n[1..] { assert p in m && p != m[0]; }
      }
      StrictUnique(m[1..], n[1..]);
    }
  }

  // ---------- the backward merge

  /** The state between two rounds of the merge of entrants e into the old members d: entrants behind i
      and old members behind o are in out, in order; `last` is an entrant behind i, or 0. */
  ghost predicate Merged(d: seq<Pair>, e: seq<Handle>, live: map<Handle, nat>, o: int, i: int, last: Handle,
                         out: seq<Pair>)
    requires -1 <= o < |d| && -1 <= i < |e|
  {
    && Strict(out) && InFront(d, e, o, i, last, out)
    && From(d, live, e[i + 1..], out) && Taken(d, live, e[i + 1..], out) && Kept(d, o, out)
    && Seen(e[i + 1..], last)
  }

  predicate Seen(es: seq<Handle>, last: Handle) { last != 0 ==> last in es }

  /** What comes next goes in front of out. */
  ghost predicate InFront(d: seq<Pair>, e: seq<Handle>, o: int, i: int, last: Handle, out: seq<Pair>)
    requires -1 <= o < |d| && -1 <= i < |e|
  {
    out != [] ==>
      && (o >= 0 ==> d[o].handle < out[0].handle)
      && (i >= 0 ==> e[i] < out[0].handle || (e[i] == out[0].handle && last == e[i]))
  }

  /** An entrant that is not a member yet and whose context skynet_handle_grab finds among the live. */
  ghost predicate Joins(d: seq<Pair>, live: map<Handle, nat>, p: Pair) {
    p.handle in live && p.ctx == live[p.handle] && !Has(d, p.handle)
  }

  /** Nothing is in out but members d and those of the entrants es that join them. */
  ghost predicate From(d: seq<Pair>, live: map<Handle, nat>, es: seq<Handle>, out: seq<Pair>) {
    forall p :: p in out ==> p in d || (p.handle in es && Joins(d, live, p))
  }

  /** None of these entrants is missing. */
  ghost predicate Taken(d: seq<Pair>, live: map<Handle, nat>, es: seq<Handle>, out: seq<Pair>) {
    forall h :: h in es && h in live ==> Has(out, h) || Has(d, h)
  }

  /** No member behind o is missing. */
  ghost predicate Kept(d: seq<Pair>, o: int, out: seq<Pair>)
    requires -1 <= o < |d|
  {
    forall k :: o < k < |d| ==> d[k] in out
  }

  /** What the queues are when the merge works on them. */
  predicate Mergeable(d: seq<Pair>, e: seq<Handle>, live: map<Handle, nat>) {
    Strict(d) && Ascending(e) && 0 !in live
  }

  lemma CanMerge(d: seq<Pair>, e: seq<Handle>, live: map<Handle, nat>)
    requires Strict(d) && Ascending(e) && 0 !in live
    ensures Mergeable(d, e, live)
  {
  }

  lemma EntrantsFrom(e: seq<Handle>, i: nat)
    requires i < |e| && Ascending(e)
    ensures e[i..] == [e[i]] + e[i + 1..]
    ensures i > 0 ==> e[i - 1] <= e[i]
  {
  }

  lemma SkipContents(d: seq<Pair>, live: map<Handle, nat>, es: seq<Handle>, h: Handle, out: seq<Pair>)
    requires From(d, live, es, out) && Taken(d, live, es, out)
    requires h in es || h !in live || Has(d, h)
    ensures From(d, live, [h] + es, out) && Taken(d, live, [h] + es, out)
  {
    hide Joins, Has;
    assert forall x :: x in [h] + es <==> x == h || x in es;
  }

  lemma PlaceContents(d: seq<Pair>, live: map<Handle, nat>, es: seq<Handle>, p: Pair, out: seq<Pair>)
    requires From(d, live, es, out) && Taken(d, live, es, out) && Joins(d, live, p)
    ensures From(d, live, [p.handle] + es, [p] + out) && Taken(d, live, [p.handle] + es, [p] + out)
  {
    hide Joins, Has;
    assert forall x :: x in [p.handle] + es <==> x == p.handle || x in es;
    assert forall x :: x in [p] + out <==> x == p || x in out;
    forall h ensures Has([p] + out, h) <==> p.handle == h || Has(out, h) {
      HasFront(p, out, h);
    }
  }

  lemma CopyContents(d: seq<Pair>, live: map<Handle, nat>, es: seq<Handle>, o: nat, out: seq<Pair>)
    requires o < |d| && From(d, live, es, out) && Taken(d, live, es, out) && Kept(d, o, out)
    ensures From(d, live, es, [d[o]] + out) && Taken(d, live, es, [d[o]] + out) && Kept(d, o - 1, [d[o]] + out)
  {
    hide Joins, Has;
    var p := d[o];
    assert forall x :: x in [p] + out <==> x == p || x in out;
    forall h ensures Has([p] + out, h) <==> p.handle == h || Has(out, h) {
      HasFront(p, out, h);
    }
  }

  lemma FrontSkip(d: seq<Pair>, e: seq<Handle>, o: int, i: nat, last: Handle, out: seq<Pair>)
    requires -1 <= o < |d| && i < |e| && Ascending(e) && InFront(d, e, o, i, last, out)
    ensures InFront(d, e, o, i - 1, e[i], out)
  {
  }

  lemma FrontPlace(d: seq<Pair>, e: seq<Handle>, o: int, i: nat, last: Handle, p: Pair, out: seq<Pair>)
    requires -1 <= o < |d| && i < |e| && Ascending(e) && InFront(d, e, o, i, last, out)
    requires e[i] == p.handle != last && (o >= 0 ==> e[i] > d[o].handle)
    ensures InFront(d, e, o, i - 1, e[i], [p] + out) && (out != [] ==> p.handle < out[0].handle)
  {
  }

  lemma FrontCopy(d: seq<Pair>, e: seq<Handle>, o: nat, i: int, last: Handle, out: seq<Pair>)
    requires o < |d| && -1 <= i < |e| && Strict(d) && InFront(d, e, o, i, last, out)
    requires i >= 0 ==> e[i] < d[o].handle
    ensures InFront(d, e, o - 1, i, 0, [d[o]] + out) && (out != [] ==> d[o].handle < out[0].handle)
  {
  }

  /** The entrant is dropped: seen before, not to be had, or a member already. */
  lemma MergeSkip(d: seq<Pair>, e: seq<Handle>, live: map<Handle, nat>, o: int, i: int, last: Handle, out: seq<Pair>)
    requires -1 <= o < |d| && 0 <= i < |e| && Mergeable(d, e, live) && Merged(d, e, live, o, i, last, out)
    requires e[i] == last || e[i] !in live || (o >= 0 && e[i] == d[o].handle)
    ensures Merged(d, e, live, o, i - 1, e[i], out)
  {
    hide Strict, Ascending, InFront, From, Taken, Kept;
    EntrantsFrom(e, i);
    FrontSkip(d, e, o, i, last, out);
    if o >= 0 && e[i] == d[o].handle {
      assert d[o] in d;
    }
    SkipContents(d, live, e[i + 1..], e[i], out);
  }

  /** The entrant is put in front of what is there. */
  lemma MergePlace(d: seq<Pair>, e: seq<Handle>, live: map<Handle, nat>, o: int, i: int, last: Handle, out: seq<Pair>)
    requires -1 <= o < |d| && 0 <= i < |e| && Mergeable(d, e, live) && Merged(d, e, live, o, i, last, out)
    requires e[i] != last && e[i] in live && (o >= 0 ==> e[i] > d[o].handle)
    ensures Merged(d, e, live, o, i - 1, e[i], [Pair(e[i], live[e[i]])] + out)
  {
    hide Strict, Ascending, InFront, Joins, From, Taken, Kept;
    var p := Pair(e[i], live[e[i]]);
    EntrantsFrom(e, i);
    FrontPlace(d, e, o, i, last, p, out);
    StrictFront(p, out);
    NewMember(d, e, live, o, p, out);
    PlaceContents(d, live, e[i + 1..], p, out);
    KeptFront(d, o, p, out);
  }

  lemma KeptFront(d: seq<Pair>, o: int, p: Pair, out: seq<Pair>)
    requires -1 <= o < |d| && Kept(d, o, out)
    ensures Kept(d, o, [p] + out)
  {
  }

  lemma NewMember(d: seq<Pair>, e: seq<Handle>, live: map<Handle, nat>, o: int, p: Pair, out: seq<Pair>)
    requires -1 <= o < |d| && Strict(d) && Strict(out) && Kept(d, o, out)
    requires (o >= 0 ==> p.handle > d[o].handle) && (out != [] ==> p.handle < out[0].handle)
    requires p.handle in live && p.ctx == live[p.handle]
    ensures Joins(d, live, p)
  {
    hide Strict;
    forall k | 0 <= k < |d| ensures d[k].handle != p.handle {
      if k > o {
        FirstIsSmallest(out, d[k]);
      } else {
        InOrder(d, k, o);
      }
    }
  }

  lemma InOrder(m: seq<Pair>, j: nat, k: nat)
    requires j <= k < |m| && Strict(m)
    ensures m[j].handle <= m[k].handle
  {
  }

  lemma FirstIsSmallest(m: seq<Pair>, p: Pair)
    requires Strict(m) && p in m
    ensures m[0].handle <= p.handle
  {
  }

  lemma NothingSeen(es: seq<Handle>)
    ensures Seen(es, 0)
  {
  }

  /** An old member is put in front of what is there. */
  lemma MergeCopy(d: seq<Pair>, e: seq<Handle>, live: map<Handle, nat>, o: int, i: int, last: Handle, out: seq<Pair>)
    requires 0 <= o < |d| && -1 <= i < |e| && Mergeable(d, e, live) && Merged(d, e, live, o, i, last, out)
    requires i >= 0 ==> e[i] < d[o].handle
    ensures Merged(d, e, live, o - 1, i, 0, [d[o]] + out)
  {
    hide Strict, Ascending, InFront, Joins, From, Taken, Kept, Seen;
    NothingSeen(e[i + 1..]);
    CopyContents(d, live, e[i + 1..], o, out);
    FrontCopy(d, e, o, i, last, out);
    StrictFront(d[o], out);
  }

  lemma MergeStart(d: seq<Pair>, e: seq<Handle>, live: map<Handle, nat>)
    ensures Merged(d, e, live, |d| - 1, |e| - 1, 0, [])
  {
  }

  /** At the end: the old members, and every entrant that was to be had and was not a member. */
  lemma MergeEnd(d: seq<Pair>, e: seq<Handle>, live: map<Handle, nat>, last: Handle, out: seq<Pair>)
    requires Merged(d, e, live, -1, -1, last, out)
    ensures Strict(out) && forall p: Pair :: p in out <==> p in d || (p.handle in e && Joins(d, live, p))
  {
    assert e[0..] == e;
    forall p: Pair | p.handle in e && Joins(d, live, p) ensures p in out {
      var x :| x in out && x.handle == p.handle;
    }
  }

  // ---------- the forward filter

  function Stays(l: seq<Handle>): Pair -> bool { (p: Pair) => p.handle !in l }

  /** The leavers before i are all below the members from k on. */
  ghost predicate Passed(m: seq<Pair>, l: seq<Handle>, k: nat, i: nat)
    requires k <= |m| && i <= |l|
  {
    k < |m| ==> forall j :: 0 <= j < i ==> l[j] < m[k].handle
  }

  lemma LeaveDrop(m: seq<Pair>, l: seq<Handle>, k: nat, i: nat)
    requires k < |m| && i < |l| && Strict(m) && Passed(m, l, k, i) && l[i] == m[k].handle
    ensures Passed(m, l, k + 1, i + 1) && Filter(m[..k + 1], Stays(l)) == Filter(m[..k], Stays(l))
  {
    assert m[..k + 1] == m[..k] + [m[k]];
    FilterAppend(m[..k], m[k], Stays(l));
  }

  lemma LeaveUnknown(m: seq<Pair>, l: seq<Handle>, k: nat, i: nat)
    requires k < |m| && i < |l| && Passed(m, l, k, i) && l[i] < m[k].handle
    ensures Passed(m, l, k, i + 1)
  {
  }

  lemma LeaveKeep(m: seq<Pair>, l: seq<Handle>, k: nat, i: nat)
    requires k < |m| && i <= |l| && Strict(m) && Ascending(l) && Passed(m, l, k, i) && (i < |l| ==> l[i] > m[k].handle)
    ensures Passed(m, l, k + 1, i) && Filter(m[..k + 1], Stays(l)) == Filter(m[..k], Stays(l)) + [m[k]]
  {
    assert m[..k + 1] == m[..k] + [m[k]];
    forall j | 0 <= j < |l| ensures l[j] != m[k].handle {
      if j >= i { assert l[i] <= l[j]; }
    }
    FilterAppend(m[..k], m[k], Stays(l));
  }

  /** A selection from a strictly sorted group is strictly sorted. */
  lemma {:induction false} FilterStrict(m: seq<Pair>, f: Pair -> bool)
    requires Strict(m)
    ensures Strict(Filter(m, f))
  {
    if m != [] {
      var init, last := m[..|m| - 1], m[|m| - 1];
      FilterStrict(init, f);
      forall p | p in Filter(init, f) ensures p.handle < last.handle {
        FilterMember(init, f, p);
      }
    }
  }

  /** Members, entrants and leavers together decide who is in the group. */
  ghost predicate InGroup(d: seq<Pair>, e: seq<Handle>, l: seq<Handle>, live: map<Handle, nat>, p: Pair) {
    p.handle !in l && (p in d || (p.handle in e && Joins(d, live, p)))
  }

  lemma LeaveStart(m: seq<Pair>, l: seq<Handle>)
    ensures Passed(m, l, 0, 0) && Filter(m[..0], Stays(l)) == []
  {
  }

  /** What is left of the merged group is what should be in the group. */
  lemma CombinedMembers(d: seq<Pair>, es: seq<Handle>, e: seq<Handle>, ls: seq<Handle>, l: seq<Handle>,
                        live: map<Handle, nat>, m: seq<Pair>)
    requires multiset(e) == multiset(es) && multiset(l) == multiset(ls) && Strict(m)
    requires forall p: Pair :: p in m <==> p in d || (p.handle in e && Joins(d, live, p))
    ensures Strict(Filter(m, Stays(l)))
    ensures forall p :: p in Filter(m, Stays(l)) <==> InGroup(d, es, ls, live, p)
  {
    hide Filter, Joins, Strict;
    FilterStrict(m, Stays(l));
    forall p ensures p in Filter(m, Stays(l)) <==> InGroup(d, es, ls, live, p) {
      FilterMember(m, Stays(l), p);
      SameMembers(e, es, p.handle);
      SameMembers(l, ls, p.handle);
    }
  }
}
