/** skynet_handle.c: the table of services by handle and the sorted table of their names. */
module Handles {
  import opened Bits
  import opened Filters
  import opened Slots
  import opened Names

  type Handle = nat

  const DEFAULT_SLOT_SIZE: nat := 4
  const DEFAULT_NAME_CAP: nat := 2

  /** Of struct skynet_context: its handle and its reference count. */
  class Context {
    var handle: Handle
    var ref: int
  }

  /** The slot table holds the contexts of a map from handles, each in the slot of its handle. */
  ghost predicate Holds(slots: seq<Context?>, contexts: map<Handle, Context>)
    requires slots != []
    reads contexts.Values`handle
  {
    && (forall h :: h in contexts ==> contexts[h].handle == h && slots[h % |slots|] == contexts[h])
    && (forall i :: 0 <= i < |slots| && slots[i] != null ==>
        slots[i] in contexts.Values && slots[i].handle % |slots| == i)
  }

  lemma HoldsAt(slots: seq<Context?>, contexts: map<Handle, Context>, h: Handle)
    requires slots != [] && Holds(slots, contexts)
    ensures var c := slots[h % |slots|];
      && (h in contexts <==> c != null && c.handle == h)
      && (h in contexts ==> c == contexts[h])
  {
  }

  lemma HoldsInsert(slots: seq<Context?>, contexts: map<Handle, Context>, ctx: Context)
    requires slots != [] && Holds(slots, contexts) && ctx !in contexts.Values
    requires slots[ctx.handle % |slots|] == null
    ensures ctx.handle !in contexts && Holds(slots[ctx.handle % |slots| := ctx], contexts[ctx.handle := ctx])
  {
    var h := ctx.handle;
    var contexts' := contexts[h := ctx];
    assert contexts'[h] in contexts'.Values;
    forall c | c in contexts.Values ensures c in contexts'.Values {
      assert contexts'[c.handle] == c;
    }
  }

  lemma HoldsRemove(slots: seq<Context?>, contexts: map<Handle, Context>, h: Handle)
    requires slots != [] && Holds(slots, contexts) && h in contexts
    ensures Holds(slots[h % |slots| := null], contexts - {h})
  {
    var rest, slots' := contexts - {h}, slots[h % |slots| := null];
    forall k | k in rest ensures slots'[k % |slots'|] == rest[k] {
      assert contexts[k] == slots[k % |slots|];
    }
    forall i | 0 <= i < |slots'| && slots'[i] != null ensures slots'[i] in rest.Values {
      var k := slots[i].handle;
      assert contexts[k] == slots[i] && k != h;
      assert rest[k] == slots[i];
    }
  }

  predicate Busy(slots: seq<Context?>, start: nat, j: nat)
    requires slots != []
  {
    slots[(start + j) % |slots|] != null
  }

  /** Somebody's handle has the j-th slot from `start` on, in a table of that size. */
  ghost predicate Occupied(contexts: map<Handle, Context>, start: nat, j: nat, size: nat)
    requires size > 0
  {
    exists h :: h in contexts && h % size == (start + j) % size
  }

  lemma BusyOccupied(slots: seq<Context?>, contexts: map<Handle, Context>, start: nat, n: nat)
    requires slots != [] && Holds(slots, contexts) && forall j :: 0 <= j < n ==> Busy(slots, start, j)
    ensures forall j :: 0 <= j < n ==> Occupied(contexts, start, j, |slots|)
  {
    forall j | 0 <= j < n ensures Occupied(contexts, start, j, |slots|) {
      assert Busy(slots, start, j);
      var c := slots[(start + j) % |slots|];
      assert c.handle in contexts;
    }
  }

  lemma AllBusy(slots: seq<Context?>, start: nat)
    requires slots != [] && forall j :: 0 <= j < |slots| ==> Busy(slots, start, j)
    ensures forall t :: 0 <= t < |slots| ==> slots[t] != null
  {
    forall t | 0 <= t < |slots| ensures slots[t] != null {
      var j := Visits(start, |slots|, t);
      assert Busy(slots, start, j);
    }
  }

  /** The first n contexts of a full table, and nothing else, at their places in one of twice the size. */
  ghost predicate Spread(slots: seq<Context?>, wide: seq<Context?>, n: nat)
    requires n <= |slots| && slots != [] && |wide| == 2 * |slots|
    reads set c <- slots | c != null
  {
    && (forall j :: 0 <= j < n ==> slots[j] != null && wide[slots[j].handle % |wide|] == slots[j])
    && (forall t :: 0 <= t < |wide| && wide[t] != null ==> Placed(slots, wide, n, t))
  }

  ghost predicate Placed(slots: seq<Context?>, wide: seq<Context?>, n: nat, t: nat)
    requires n <= |slots| && slots != [] && |wide| == 2 * |slots| && t < |wide|
    reads set c <- slots | c != null
  {
    t % |slots| < n && wide[t] == slots[t % |slots|] && wide[t] != null && wide[t].handle % |wide| == t
  }

  lemma SpreadStart(slots: seq<Context?>, wide: seq<Context?>)
    requires slots != [] && |wide| == 2 * |slots| && forall t :: 0 <= t < |wide| ==> wide[t] == null
    ensures Spread(slots, wide, 0)
  {
  }

  lemma HoldsPlaced(slots: seq<Context?>, contexts: map<Handle, Context>, i: nat)
    requires i < |slots| && Holds(slots, contexts) && slots[i] != null
    ensures slots[i].handle % |slots| == i
  {
  }

  lemma SpreadStep(slots: seq<Context?>, wide: seq<Context?>, i: nat)
    requires i < |slots| && |wide| == 2 * |slots| && Spread(slots, wide, i)
    requires slots[i] != null && slots[i].handle % |slots| == i
    ensures var t := slots[i].handle % |wide|; wide[t] == null && Spread(slots, wide[t := slots[i]], i + 1)
  {
    var t := slots[i].handle % |wide|;
    HalfSlot(slots[i].handle, |slots|);
    var wide' := wide[t := slots[i]];
    forall u | 0 <= u < |wide'| && wide'[u] != null ensures Placed(slots, wide', i + 1, u) {
      if u != t { assert Placed(slots, wide, i, u); }
    }
  }

  lemma SpreadHolds(slots: seq<Context?>, wide: seq<Context?>, contexts: map<Handle, Context>)
    requires slots != [] && |wide| == 2 * |slots| && Holds(slots, contexts) && Spread(slots, wide, |slots|)
    ensures Holds(wide, contexts) && exists t :: 0 <= t < |wide| && wide[t] == null
  {
    forall h | h in contexts ensures wide[h % |wide|] == contexts[h] {
      var j := h % |slots|;
      assert slots[j] == contexts[h];
    }
    forall t | 0 <= t < |wide| && wide[t] != null ensures wide[t] in contexts.Values && wide[t].handle % |wide| == t {
      assert Placed(slots, wide, |slots|, t);
      assert slots[t % |slots|] in contexts.Values;
    }
    FreeHalf(slots, wide);
  }

  lemma FreeHalf(slots: seq<Context?>, wide: seq<Context?>)
    requires slots != [] && |wide| == 2 * |slots| && Spread(slots, wide, |slots|)
    ensures exists t :: 0 <= t < |wide| && wide[t] == null
  {
    var n := |slots|;
    SameRest(n);
    assert wide[0] != null ==> Placed(slots, wide, n, 0);
    assert wide[n] != null ==> Placed(slots, wide, n, n);
  }

  lemma SameRest(n: nat)
    requires n > 0
    ensures 0 % n == n % n == 0
  {
  }

  /** handle & (size - 1) */
  method HashOf(handle: Handle, size: nat, ghost bits: nat) returns (hash: nat)
    requires size == Pow2(bits)
    ensures hash == handle % size && hash < size
  {
    SlotOf(handle, bits);
    hash := BitAnd(handle, size - 1);
  }

  class Storage {
    const harbor: nat
    var handleIndex: nat
    var slotSize: nat
    var slot: array<Context?>
    var nameCap: nat
    var nameCount: nat
    var name: array<Entry>

    /** The registered services, and the binary logarithm of slotSize. */
    ghost var contexts: map<Handle, Context>
    ghost var slotBits: nat

    /** What the slots guarantee: every context is in the slot of its handle, and of this harbor. */
    ghost predicate SlotsOk()
      reads this, slot, contexts.Values`handle
    {
      && harbor % HANDLE_LIMIT == 0 && 0 < handleIndex <= HANDLE_LIMIT
      && slotSize == slot.Length == Pow2(slotBits) && slotBits <= HANDLE_BITS
      && Holds(slot[..], contexts)
      && (forall h :: h in contexts ==> harbor <= h < harbor + HANDLE_LIMIT)
    }

    ghost predicate NamesOk()
      reads this, name
    {
      0 < nameCap == name.Length && nameCount <= nameCap && Sorted(name[..nameCount])
    }

    ghost function Table(): seq<Entry>
      reads this, name
      requires nameCount <= name.Length
    {
      name[..nameCount]
    }

    /** skynet_handle_init */
    constructor (harbor: nat)
      ensures SlotsOk() && NamesOk() && contexts == map[] && Table() == []
      ensures handleIndex == 1 && this.harbor == harbor % 0x100 * HANDLE_LIMIT
      ensures fresh(slot) && fresh(name)
    {
      this.harbor := harbor % 0x100 * HANDLE_LIMIT;
      handleIndex := 1;
      slotSize := DEFAULT_SLOT_SIZE;
      slot := new Context?[DEFAULT_SLOT_SIZE](_ => null);
      nameCap, nameCount := DEFAULT_NAME_CAP, 0;
      name := new Entry[DEFAULT_NAME_CAP];
      contexts, slotBits := map[], 2;
      new;
      AddMultiple(0, HANDLE_LIMIT, harbor % 0x100, this.harbor);
    }

    // ---------- services

    /** The look-up of skynet_handle_grab. */
    method Find(handle: Handle) returns (ctx: Context?)
      requires SlotsOk()
      ensures ctx == if handle in contexts then contexts[handle] else null
    {
      var hash := HashOf(handle, slotSize, slotBits);
      HoldsAt(slot[..], contexts, handle);
      ctx := slot[hash];
      if ctx != null && ctx.handle != handle {
        ctx := null;
      }
    }

    /** skynet_handle_grab: the service registered as the handle and not retired since, or NULL. */
    method Grab(handle: Handle) returns (result: Context?)
      requires SlotsOk()
      modifies contexts.Values
      ensures SlotsOk() && result == if handle in contexts then contexts[handle] else null
      ensures forall c :: c in contexts.Values ==> c.handle == old(c.handle)
      ensures forall c :: c in contexts.Values ==> c.ref == old(c.ref) + if c == result then 1 else 0
    {
      result := Find(handle);
      if result != null {
        assert contexts[handle] in contexts.Values;
        result.ref := result.ref + 1;
      }
    }

    /** The i-th handle that is tried, and its slot. */
    method Candidate(i: nat) returns (h: Handle, hash: nat)
      requires SlotsOk()
      ensures h == (handleIndex + i) % HANDLE_LIMIT
      ensures hash == h % slotSize == (handleIndex + i) % slotSize < slotSize
    {
      hide Holds;
      CutToHandle(i + handleIndex, slotBits);
      h := BitAnd(i + handleIndex, HANDLE_MASK);
      hash := HashOf(h, slotSize, slotBits);
    }

    /** The search loop of skynet_handle_register: slotSize handles from handleIndex on. */
    method Probe() returns (found: bool, handle: Handle, ghost tries: nat)
      requires SlotsOk()
      ensures found ==>
        tries < slotSize && handle == (handleIndex + tries) % HANDLE_LIMIT && slot[handle % slotSize] == null
      ensures found ==> forall j :: 0 <= j < tries ==> Busy(slot[..], handleIndex, j)
      ensures !found ==> forall t :: 0 <= t < slotSize ==> slot[t] != null
    {
      hide Holds;
      found, handle, tries := false, 0, 0;
      for i := 0 to slotSize
        invariant forall j :: 0 <= j < i ==> Busy(slot[..], handleIndex, j)
      {
        var h, hash := Candidate(i);
        if slot[hash] == null {
          return true, h, i;
        }
        assert Busy(slot[..], handleIndex, i);
      }
      AllBusy(slot[..], handleIndex);
    }

    /** The new table: no two contexts meet in it. */
    method Rehash() returns (newSlot: array<Context?>)
      requires SlotsOk() && forall t :: 0 <= t < slotSize ==> slot[t] != null
      ensures fresh(newSlot) && newSlot.Length == 2 * slotSize && Spread(slot[..], newSlot[..], slotSize)
    {
      hide Holds, Spread, Placed;
      newSlot := new Context?[slotSize * 2](_ => null);
      SpreadStart(slot[..], newSlot[..]);
      for i := 0 to slotSize
        invariant Spread(slot[..], newSlot[..], i)
      {
        HoldsPlaced(slot[..], contexts, i);
        var hash := HashOf(slot[i].handle, slotSize * 2, slotBits + 1);
        SpreadStep(slot[..], newSlot[..], i);
        assert newSlot[hash] == null;
        ghost var wide := newSlot[..];
        newSlot[hash] := slot[i];
        assert newSlot[..] == wide[hash := slot[i]];
      }
    }

    /** Doubling keeps every context and leaves free slots. */
    method Double()
      requires SlotsOk() && 2 * slotSize <= HANDLE_LIMIT
      requires forall t :: 0 <= t < slotSize ==> slot[t] != null
      modifies `slot, `slotSize, `slotBits
      ensures SlotsOk() && fresh(slot) && slotSize == 2 * old(slotSize)
      ensures exists t :: 0 <= t < slotSize && slot[t] == null
    {
      hide Holds, Spread;
      var newSlot := Rehash();
      SpreadHolds(slot[..], newSlot[..], contexts);
      BitsFit(slotBits);
      slot, slotSize, slotBits := newSlot, slotSize * 2, slotBits + 1;
    }

    /** The free slot is taken. */
    method Place(ctx: Context, low: Handle) returns (handle: Handle)
      requires SlotsOk() && ctx !in contexts.Values
      requires low < HANDLE_LIMIT && slot[low % slotSize] == null
      modifies `handleIndex, `contexts, slot, ctx`handle
      ensures SlotsOk() && handle == low + harbor && handleIndex == low + 1
      ensures handle !in old(contexts) && contexts == old(contexts)[handle := ctx]
    {
      hide Holds;
      var hash := HashOf(low, slotSize, slotBits);
      Composed(low, harbor, slotBits);
      handle := BitOr(low, harbor);
      ctx.handle := handle;
      HoldsInsert(slot[..], contexts, ctx);
      ghost var slots := slot[..];
      slot[hash] := ctx;
      assert slot[..] == slots[handle % slotSize := ctx];
      handleIndex := low + 1;
      contexts := contexts[handle := ctx];
    }

    /** skynet_handle_register: the context gets a handle that nobody has, and the table doubles, once,
        exactly when it was full (the source asserts that it may). The handle is above all that were
        given out before exactly while the search does not wrap, which takes it past `tries` taken
        slots; where it wraps it may even give out handle 0 of the harbor. */
    method Register(ctx: Context) returns (handle: Handle, ghost tries: nat)
      requires SlotsOk() && ctx !in contexts.Values
      requires (forall t :: 0 <= t < slotSize ==> slot[t] != null) ==> 2 * slotSize <= HANDLE_LIMIT
      modifies `handleIndex, `slot, `slotSize, `slotBits, `contexts, slot, ctx`handle
      ensures SlotsOk() && (slot == old(slot) || fresh(slot))
      ensures handle !in old(contexts) && contexts == old(contexts)[handle := ctx]
      ensures handle - harbor == handleIndex - 1 == (old(handleIndex) + tries) % HANDLE_LIMIT && tries < slotSize
      ensures forall j :: 0 <= j < tries ==> Occupied(old(contexts), old(handleIndex), j, slotSize)
      ensures old(handleIndex) <= handle - harbor <==> old(handleIndex) + tries < HANDLE_LIMIT
      ensures handle == harbor <==> old(handleIndex) + tries == HANDLE_LIMIT
      ensures slotSize ==
        if exists t :: 0 <= t < old(slotSize) && old(slot[t]) == null then old(slotSize) else 2 * old(slotSize)
    {
      hide Holds, Busy, Pow2, Occupied;
      while true
        invariant SlotsOk() && (slot == old(slot) || fresh(slot))
        invariant contexts == old(contexts) && handleIndex == old(handleIndex)
        invariant slot == old(slot) ==> slotSize == old(slotSize) && slot[..] == old(slot[..])
        invariant slot != old(slot) ==>
          slotSize == 2 * old(slotSize) && forall t :: 0 <= t < old(slotSize) ==> old(slot[t]) != null
        invariant slot != old(slot) ==> exists t :: 0 <= t < slotSize && slot[t] == null
        decreases slot == old(slot)
      {
        var found, low;
        found, low, tries := Probe();
        if found {
          WrapsAt(handleIndex, tries, slotBits);
          BusyOccupied(slot[..], contexts, handleIndex, tries);
          handle := Place(ctx, low);
          return;
        }
        Double();
      }
    }

    /** The compaction of the name table in skynet_handle_retire. */
    method DropNames(handle: Handle)
      requires NamesOk()
      modifies `nameCount, name
      ensures NamesOk() && Table() == Filter(old(Table()), OtherHandle(handle))
    {
      hide Filter, Sorted;
      ghost var t, kept := Table(), [];
      var j := 0;
      FilterNone([], OtherHandle(handle));
      for i := 0 to nameCount
        invariant j <= i && name[..j] == kept == Filter(t[..i], OtherHandle(handle))
        invariant forall k :: i <= k < nameCount ==> name[k] == t[k]
        modifies name
      {
        assert t[..i + 1] == t[..i] + [t[i]];
        FilterAppend(t[..i], t[i], OtherHandle(handle));
        if name[i].handle == handle {
          assert kept + [] == kept;
        } else {
          if i != j {
            name[j] := name[i];
          }
          kept := kept + [t[i]];
          j := j + 1;
        }
      }
      assert t[..nameCount] == t;
      FilteredSorted(t, OtherHandle(handle));
      nameCount := j;
    }

    /** skynet_handle_retire: the handle is free again and its names, only, are gone. Where the slot of
        the handle holds another service nothing changes; where it is empty the source reads through a
        NULL pointer (`empty`), whoever called it. */
    method Retire(handle: Handle) returns (empty: bool)
      requires SlotsOk() && NamesOk()
      modifies `contexts, `nameCount, slot, name, contexts.Values
      ensures SlotsOk() && NamesOk() && contexts == old(contexts) - {handle}
      ensures empty <==> old(slot[handle % slotSize]) == null
      ensures handle !in old(contexts) ==> slot[..] == old(slot[..])
      ensures forall c :: c in old(contexts).Values ==> c.handle == old(c.handle)
      ensures forall c :: c in old(contexts).Values ==>
        c.ref == old(c.ref) - if handle in old(contexts) && c == old(contexts)[handle] then 1 else 0
      ensures Table() == if handle in old(contexts) then Filter(old(Table()), OtherHandle(handle)) else old(Table())
    {
      hide Holds, Filter, Sorted;
      var hash := HashOf(handle, slotSize, slotBits);
      HoldsAt(slot[..], contexts, handle);
      var ctx := slot[hash];
      empty := ctx == null;
      if !empty && ctx.handle == handle {
        Vacate(handle, ctx);
        DropNames(handle);
      } else {
        assert contexts - {handle} == contexts;
      }
    }

    method Vacate(handle: Handle, ctx: Context)
      requires SlotsOk() && handle in contexts && ctx == contexts[handle]
      modifies `contexts, slot, ctx`ref
      ensures SlotsOk() && contexts == old(contexts) - {handle}
      ensures ctx.ref == old(ctx.ref) - 1
    {
      hide Holds;
      var hash := HashOf(handle, slotSize, slotBits);
      HoldsRemove(slot[..], contexts, handle);
      ctx.ref := ctx.ref - 1;
      ghost var slots := slot[..];
      slot[hash] := null;
      assert slot[..] == slots[handle % slotSize := null];
      contexts := contexts - {handle};
    }

    // ---------- names

    /** The binary search that skynet_handle_findname and _insert_name share: an entry of that name, or
        the place where it belongs. */
    method Search(n: Name) returns (found: bool, at: nat)
      requires NamesOk()
      ensures found ==> at < nameCount && name[at].name == n
      ensures !found ==> at <= nameCount && Belongs(Table(), n, at)
    {
      hide Strcmp;
      var begin, end := 0, nameCount - 1;
      while begin <= end
        invariant 0 <= begin <= end + 1 <= nameCount
        invariant forall i :: 0 <= i < begin ==> Strcmp(Table()[i].name, n) < 0
        invariant forall i :: end < i < nameCount ==> Strcmp(Table()[i].name, n) > 0
      {
        var mid := (begin + end) / 2;
        var c := Strcmp(name[mid].name, n);
        StrcmpEqual(name[mid].name, n);
        SmallerSide(Table(), n, mid);
        if c == 0 {
          return true, mid;
        }
        if c < 0 {
          begin := mid + 1;
        } else {
          end := mid - 1;
        }
      }
      return false, begin;
    }

    /** skynet_handle_findname: the handle of the name, or 0. */
    method FindName(n: Name) returns (handle: Handle)
      requires NamesOk()
      ensures forall e :: e in Table() && e.name == n ==> handle == e.handle
      ensures !Named(Table(), n) ==> handle == 0
    {
      var found, at := Search(n);
      if found {
        handle := name[at].handle;
        assert Table()[at] in Table();
        forall e | e in Table() && e.name == n ensures handle == e.handle {
          UniqueName(Table(), e, Table()[at]);
        }
      } else {
        handle := 0;
        NotNamed(Table(), n, at);
      }
    }

    /** _insert_name_before, into a table that grows. */
    method Grow(before: nat)
      requires NamesOk() && before <= nameCount == nameCap
      modifies `name, `nameCap
      ensures fresh(name) && nameCap == name.Length == 2 * old(nameCap)
      ensures name[..before] == old(Table())[..before] && name[before + 1..nameCount + 1] == old(Table())[before..]
    {
      nameCap := nameCap * 2;
      var a := new Entry[nameCap];
      forall i | 0 <= i < before {
        a[i] := name[i];
      }
      forall i | before <= i < nameCount {
        a[i + 1] := name[i];
      }
      name := a;
    }

    /** ... into one with room. The loop runs once more than it has to: it also copies the entry before
        `before` over the place that is filled next, and if `before` is 0 that entry is outside the
        array (`stray` stands for what is found there). */
    method Shift(before: nat, stray: Entry) returns (outside: bool)
      requires NamesOk() && before <= nameCount < nameCap
      modifies name
      ensures name[..before] == old(Table())[..before] && name[before + 1..nameCount + 1] == old(Table())[before..]
      ensures outside <==> before == 0
    {
      hide Sorted;
      ghost var t := Table();
      outside := false;
      var i := nameCount;
      while i >= before
        invariant before - 1 <= i <= nameCount
        invariant forall k :: 0 <= k <= i && k < nameCount ==> name[k] == t[k]
        invariant forall k :: i < k <= nameCount && before < k ==> name[k] == t[k - 1]
        invariant outside <==> i < 0
      {
        outside := i == 0;
        name[i] := if i > 0 then name[i - 1] else stray;
        i := i - 1;
      }
    }

    /** _insert_name_before */
    method InsertBefore(n: Name, handle: Handle, before: nat, stray: Entry) returns (outside: bool)
      requires NamesOk() && before <= nameCount
      modifies `name, `nameCap, `nameCount, name
      ensures 0 < nameCap == name.Length && nameCount == old(nameCount) + 1 <= nameCap
      ensures name == old(name) || fresh(name)
      ensures Table() == old(Table())[..before] + [Entry(n, handle)] + old(Table())[before..]
      ensures outside <==> before == 0 && old(nameCount) < old(nameCap)
    {
      hide Sorted;
      outside := false;
      if nameCount >= nameCap {
        Grow(before);
      } else {
        outside := Shift(before, stray);
      }
      var e := Entry(n, handle);
      ghost var a := name[..];
      Splice(a, before, e, nameCount);
      name[before] := e;
      assert name[..] == a[before := e];
      nameCount := nameCount + 1;
    }

    /** skynet_handle_namehandle: a name is given once; the other names stay as they are. */
    method NameHandle(handle: Handle, n: Name, stray: Entry) returns (ok: bool, outside: bool)
      requires NamesOk()
      modifies `name, `nameCap, `nameCount, name
      ensures NamesOk() && (name == old(name) || fresh(name))
      ensures ok <==> !Named(old(Table()), n)
      ensures !ok ==> Table() == old(Table())
      ensures ok ==> forall e :: e in Table() <==> e == Entry(n, handle) || e in old(Table())
      ensures outside <==> ok && old(nameCount) < old(nameCap) && Belongs(old(Table()), n, 0)
    {
      hide Strcmp, Sorted;
      var found, at := Search(n);
      if found {
        assert Table()[at] in Table();
        return false, false;
      }
      NotNamed(Table(), n, at);
      InsertedSorted(Table(), Entry(n, handle), at);
      BelongsFirst(Table(), n, at);
      outside := InsertBefore(n, handle, at, stray);
      ok := true;
    }
  }

  /** The very first name of a registry is smaller than all others and finds room, so the read in front
      of the array happens at once. */
  method FirstNameStrays(harbor: nat, handle: Handle, n: Name, stray: Entry) returns (s: Storage, outside: bool)
    ensures fresh(s) && outside && s.NamesOk()
    ensures forall e :: e in s.Table() <==> e == Entry(n, handle)
  {
    s := new Storage(harbor);
    var ok;
    ok, outside := s.NameHandle(handle, n, stray);
  }
}
