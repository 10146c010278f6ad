/** C strings in the order of strcmp, and the sorted name table of skynet_handle.c as a sequence. */
module Names {
  import opened Filters

  /** A character of a C string. */
  type Char = c: int | 0 < c < 0x100 witness 1

  type Name = seq<Char>

  /** struct handle_name */
  datatype Entry = Entry(name: Name, handle: nat)

  /** strcmp: the difference at the first place where two strings differ. */
  function Strcmp(a: Name, b: Name): int {
    if a == [] && b == [] then 0
    else if a == [] then -b[0]
    else if b == [] then a[0]
    else if a[0] != b[0] then a[0] - b[0]
    else Strcmp(a[1..], b[1..])
  }

  lemma {:induction false} StrcmpEqual(a: Name, b: Name)
    ensures Strcmp(a, b) == 0 <==> a == b
  {
    if a != [] && b != [] {
      StrcmpEqual(a[1..], b[1..]);
      assert a == [a[0]] + a[1..] && b == [b[0]] + b[1..];
    }
  }

  /** a comes before b: where they first differ, at k, it ends or has the smaller character. */
  predicate Before(a: Name, b: Name, k: nat) {
    k <= |a| && k < |b| && a[..k] == b[..k] && (k == |a| || a[k] < b[k])
  }

  /** The order of strcmp is the lexicographic order. */
  lemma {:induction false} StrcmpLexicographic(a: Name, b: Name)
    ensures Strcmp(a, b) < 0 <==> exists k :: 0 <= k < |b| && Before(a, b, k)
  {
    if a != [] && b != [] && a[0] == b[0] {
      StrcmpLexicographic(a[1..], b[1..]);
      forall k | 0 <= k < |b[1..]| && Before(a[1..], b[1..], k) ensures Before(a, b, k + 1) {
        assert a[..k + 1] == [a[0]] + a[1..][..k] && b[..k + 1] == [b[0]] + b[1..][..k];
      }
      forall k | 0 < k < |b| && Before(a, b, k) ensures Before(a[1..], b[1..], k - 1) {
        assert a[1..][..k - 1] == a[..k][1..] && b[1..][..k - 1] == b[..k][1..];
      }
      if k :| 0 <= k < |b| && Before(a, b, k) {
        assert Before(a[1..], b[1..], k - 1);
      }
      if k :| 0 <= k < |b[1..]| && Before(a[1..], b[1..], k) {
        assert Before(a, b, k + 1);
      }
    } else if a == [] && b != [] {
      assert Before(a, b, 0);
    } else if a != [] && b != [] {
      assert Before(a, b, 0) <==> a[0] < b[0];
      assert forall k :: 0 < k < |b| && Before(a, b, k) ==> a[..k][0] == b[..k][0];
    }
  }

  lemma {:induction false} StrcmpOpposite(a: Name, b: Name)
    ensures Strcmp(a, b) == -Strcmp(b, a)
  {
    if a != [] && b != [] && a[0] == b[0] {
      StrcmpOpposite(a[1..], b[1..]);
    }
  }

  lemma {:induction false} StrcmpTransitive(a: Name, b: Name, c: Name)
    requires Strcmp(a, b) < 0 && Strcmp(b, c) < 0
    ensures Strcmp(a, c) < 0
  {
    if a != [] && b != [] && c != [] && a[0] == b[0] == c[0] {
      StrcmpTransitive(a[1..], b[1..], c[1..]);
    }
  }

  /** Strictly sorted, so no name twice. */
  predicate Sorted(t: seq<Entry>) {
    forall i, j :: 0 <= i < j < |t| ==> Strcmp(t[i].name, t[j].name) < 0
  }

  predicate Named(t: seq<Entry>, name: Name) { exists e :: e in t && e.name == name }

  /** Where a name belongs: everything before k is smaller, everything from k on is larger. */
  predicate Belongs(t: seq<Entry>, name: Name, k: nat)
    requires k <= |t|
  {
    && (forall i :: 0 <= i < k ==> Strcmp(t[i].name, name) < 0)
    && (forall i :: k <= i < |t| ==> Strcmp(t[i].name, name) > 0)
  }

  lemma NotNamed(t: seq<Entry>, name: Name, k: nat)
    requires k <= |t| && Belongs(t, name, k)
    ensures !Named(t, name)
  {
    StrcmpEqual(name, name);
  }

  lemma BelongsFirst(t: seq<Entry>, name: Name, k: nat)
    requires k <= |t| && Belongs(t, name, k)
    ensures k == 0 <==> Belongs(t, name, 0)
  {
    if k > 0 {
      assert Strcmp(t[0].name, name) < 0;
    }
  }

  lemma Splice(a: seq<Entry>, k: nat, e: Entry, n: nat)
    requires k <= n < |a|
    ensures a[k := e][..n + 1] == a[..k] + [e] + a[k + 1..n + 1]
  {
  }

  /** What a comparison with the middle says of everything to one side. */
  lemma SmallerSide(t: seq<Entry>, name: Name, mid: nat)
    requires mid < |t| && Sorted(t)
    ensures Strcmp(t[mid].name, name) < 0 ==> forall i :: 0 <= i <= mid ==> Strcmp(t[i].name, name) < 0
    ensures Strcmp(t[mid].name, name) > 0 ==> forall i :: mid <= i < |t| ==> Strcmp(t[i].name, name) > 0
  {
    if Strcmp(t[mid].name, name) < 0 {
      forall i | 0 <= i < mid ensures Strcmp(t[i].name, name) < 0 {
        StrcmpTransitive(t[i].name, t[mid].name, name);
      }
    }
    if Strcmp(t[mid].name, name) > 0 {
      StrcmpOpposite(t[mid].name, name);
      forall i | mid < i < |t| ensures Strcmp(t[i].name, name) > 0 {
        StrcmpTransitive(name, t[mid].name, t[i].name);
        StrcmpOpposite(name, t[i].name);
      }
    }
  }

  /** Only one entry has a name. */
  lemma UniqueName(t: seq<Entry>, e: Entry, f: Entry)
    requires Sorted(t) && e in t && f in t && e.name == f.name
    ensures e == f
  {
    StrcmpEqual(e.name, f.name);
  }

  lemma InsertedSorted(t: seq<Entry>, e: Entry, k: nat)
    requires k <= |t| && Sorted(t) && Belongs(t, e.name, k)
    ensures Sorted(t[..k] + [e] + t[k..])
    ensures forall f :: f in t[..k] + [e] + t[k..] <==> f == e || f in t
  {
    hide Strcmp;
    var s := t[..k] + [e] + t[k..];
    forall i, j | 0 <= i < j < |s| ensures Strcmp(s[i].name, s[j].name) < 0 {
      if i == k { StrcmpOpposite(e.name, s[j].name); }
    }
    assert t == t[..k] + t[k..];
  }

  function OtherHandle(handle: nat): Entry -> bool { (e: Entry) => e.handle != handle }

  /** Dropping the names of a handle keeps the order of the others. */
  lemma {:induction false} FilteredSorted(t: seq<Entry>, f: Entry -> bool)
    requires Sorted(t)
    ensures Sorted(Filter(t, f))
  {
    hide Strcmp;
    if t != [] {
      var init, last := t[..|t| - 1], t[|t| - 1];
      FilteredSorted(init, f);
      forall e | e in Filter(init, f) ensures Strcmp(e.name, last.name) < 0 {
        FilterMember(init, f, e);
      }
    }
  }
}
