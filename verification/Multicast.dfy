/** skynet_multicast.c: the members of a group, and the in-place merge and filter that brings them up to
    date. */
module Multicast {
  import opened Filters
  import opened Merging

  /** struct array: the handles queued to enter or to leave. */
  class HandleArray {
    var cap: nat
    var number: nat
    var data: array<Handle>

    ghost predicate Valid()
      reads this
    {
      number <= cap == data.Length
    }

    ghost function Contents(): seq<Handle>
      reads this, data
      requires Valid()
    {
      data[..number]
    }

    constructor ()
      ensures Valid() && Contents() == [] && fresh(data)
    {
      cap, number := 0, 0;
      data := new Handle[0];
    }

    /** push_array */
    method Push(v: Handle)
      requires Valid()
      modifies this, data
      ensures Valid() && Contents() == old(Contents()) + [v]
      ensures data == old(data) || fresh(data)
      ensures cap == if old(number) < old(cap) then old(cap) else if old(cap) == 0 then 4 else 2 * old(cap)
    {
      if number >= cap {
        cap := cap * 2;
        if cap == 0 {
          cap := 4;
        }
        var a := new Handle[cap];
        forall i | 0 <= i < number {
          a[i] := data[i];
        }
        data := a;
      }
      data[number] := v;
      number := number + 1;
    }

    /** qsort with compar_uint */
    method Qsort()
      requires Valid() && Near(Contents())
      modifies data
      ensures Valid() && Contents() == Sort(old(Contents()))
      ensures Ascending(Contents()) && multiset(Contents()) == multiset(old(Contents()))
    {
      var sorted := Sort(data[..number]);
      SortSorts(Contents());
      SameLength(sorted, Contents());
      forall i | 0 <= i < number {
        data[i] := sorted[i];
      }
      assert Contents() == sorted;
    }
  }

  lemma SameLength(p: seq<Handle>, q: seq<Handle>)
    requires multiset(p) == multiset(q)
    ensures |p| == |q|
  {
    assert |multiset(p)| == |p| && |multiset(q)| == |q|;
  }

  class Group {
    const enterQueue: HandleArray
    const leaveQueue: HandleArray
    var cap: nat
    var number: nat
    var data: array<Pair>

    ghost predicate Valid()
      reads this, enterQueue, leaveQueue, data
    {
      && enterQueue.Valid() && leaveQueue.Valid()
      && enterQueue != leaveQueue && enterQueue.data != leaveQueue.data
      && number <= cap == data.Length && Strict(data[..number])
    }

    ghost function Members(): seq<Pair>
      reads this, data
      requires number <= data.Length
    {
      data[..number]
    }

    /** skynet_multicast_newgroup */
    constructor ()
      ensures Valid() && Members() == [] && enterQueue.Contents() == [] == leaveQueue.Contents()
      ensures fresh(data) && fresh(enterQueue) && fresh(leaveQueue) && fresh(enterQueue.data) && fresh(leaveQueue.data)
    {
      enterQueue := new HandleArray();
      leaveQueue := new HandleArray();
      cap, number := 0, 0;
      data := new Pair[0];
    }

    /** Room for the entrants behind the members. */
    method Reserve(size: nat)
      requires number <= cap == data.Length && number <= size
      modifies this
      ensures data == old(data) || fresh(data)
      ensures size <= cap == data.Length && number == old(number) && Members() == old(Members())
    {
      if size > cap {
        var a := new Pair[size];
        forall i | 0 <= i < number {
          a[i] := data[i];
        }
        data, cap := a, size;
      }
    }

    method Put(at: nat, p: Pair, size: nat)
      requires at < size <= data.Length
      modifies data
      ensures data[at..size] == [p] + old(data[at + 1..size])
      ensures forall k :: 0 <= k < at ==> data[k] == old(data[k])
    {
      data[at] := p;
    }

    /** The backward pass over the entrants e, from behind: the members of d that were not passed yet
        stay where they are in front, the merged part grows down from the end of the array. */
    method MergeEnter(e: seq<Handle>, live: map<Handle, nat>, newSize: nat)
      returns (oldIndex: int, newIndex: int, ghost last: Handle, ghost out: seq<Pair>)
      requires newSize == number + |e| <= data.Length && Mergeable(Members(), e, live)
      modifies data
      ensures -1 <= oldIndex < number && oldIndex <= newIndex < newSize
      ensures Merged(old(Members()), e, live, oldIndex, -1, last, out)
      ensures data[newIndex + 1..newSize] == out
      ensures forall k :: 0 <= k <= oldIndex ==> data[k] == old(data[k])
    {
      hide Merged, Mergeable, Strict, Ascending;
      ghost var d := Members();
      oldIndex, newIndex, last, out := number - 1, newSize - 1, 0, [];
      var lastHandle: Handle := 0;
      var i := |e| - 1;
      MergeStart(d, e, live);
      while i >= 0
        invariant -1 <= oldIndex < |d| && -1 <= i < |e| && oldIndex + i + 1 <= newIndex < newSize
        invariant Merged(d, e, live, oldIndex, i, lastHandle, out)
        invariant data[newIndex + 1..newSize] == out && forall k :: 0 <= k <= oldIndex ==> data[k] == d[k]
        decreases i + oldIndex + 2
      {
        var handle := e[i];
        if handle == lastHandle {
          MergeSkip(d, e, live, oldIndex, i, lastHandle, out);
          i := i - 1;
          continue;
        }
        if handle !in live {
          MergeSkip(d, e, live, oldIndex, i, lastHandle, out);
          lastHandle, i := handle, i - 1;
          continue;
        }
        if oldIndex < 0 || handle > data[oldIndex].handle {
          MergePlace(d, e, live, oldIndex, i, lastHandle, out);
          Put(newIndex, Pair(handle, live[handle]), newSize);
          out := [Pair(handle, live[handle])] + out;
          lastHandle, i := handle, i - 1;
        } else if handle == data[oldIndex].handle {
          MergeSkip(d, e, live, oldIndex, i, lastHandle, out);
          lastHandle, i := handle, i - 1;
          continue;
        } else {
          MergeCopy(d, e, live, oldIndex, i, lastHandle, out);
          Put(newIndex, data[oldIndex], newSize);
          out := [d[oldIndex]] + out;
          oldIndex, lastHandle := oldIndex - 1, 0;
        }
        newIndex := newIndex - 1;
      }
      last := lastHandle;
    }

    /** The members below all entrants move up to the others. */
    method MergeRest(oldFrom: int, newFrom: int, newSize: nat, ghost d: seq<Pair>, ghost e: seq<Handle>,
                     live: map<Handle, nat>, ghost last: Handle, ghost merged: seq<Pair>)
      returns (newIndex: int, ghost out: seq<Pair>)
      requires -1 <= oldFrom <= newFrom < newSize <= data.Length && oldFrom < |d| && Mergeable(d, e, live)
      requires Merged(d, e, live, oldFrom, -1, last, merged) && data[newFrom + 1..newSize] == merged
      requires forall k :: 0 <= k <= oldFrom ==> data[k] == d[k]
      modifies data
      ensures -1 <= newIndex < newSize && data[newIndex + 1..newSize] == out
      ensures Strict(out) && forall p: Pair :: p in out <==> p in d || (p.handle in e && Joins(d, live, p))
    {
      hide Merged, Mergeable, Strict, Joins;
      newIndex, out := newFrom, merged;
      var oldIndex := oldFrom;
      ghost var l := last;
      while oldIndex >= 0
        invariant -1 <= oldIndex <= newIndex < newSize && oldIndex < |d|
        invariant Merged(d, e, live, oldIndex, -1, l, out) && data[newIndex + 1..newSize] == out
        invariant forall k :: 0 <= k <= oldIndex ==> data[k] == d[k]
      {
        MergeCopy(d, e, live, oldIndex, -1, l, out);
        Put(newIndex, data[oldIndex], newSize);
        out, l := [d[oldIndex]] + out, 0;
        oldIndex := oldIndex - 1;
        newIndex := newIndex - 1;
      }
      MergeEnd(d, e, live, l, out);
    }

    /** The forward pass over the leavers l: of the merged members, data[from..size], those that stay move
        to the front; it ends at a member behind all leavers, or behind the last member. */
    method Leave(l: seq<Handle>, from: nat, size: nat) returns (oldIndex: nat, newIndex: nat, count: nat)
      requires from <= size <= data.Length && Strict(data[from..size]) && Ascending(l)
      modifies data
      ensures from <= oldIndex <= size && newIndex <= oldIndex - from
      ensures data[..newIndex] == Filter(old(data[from..size])[..oldIndex - from], Stays(l))
      ensures forall j :: oldIndex <= j < size ==> data[j] == old(data[j])
      ensures newIndex < count ==>
        count == newIndex + size - oldIndex && Passed(old(data[from..size]), l, oldIndex - from, |l|)
      ensures newIndex >= count ==> oldIndex == size
    {
      hide Strict, Ascending, Passed, Filter;
      ghost var m, kept := data[from..size], [];
      var i := 0;
      oldIndex, count, newIndex := from, size - from, 0;
      LeaveStart(m, l);
      while i < |l|
        invariant i <= |l| && from <= oldIndex <= size && newIndex <= oldIndex - from
        invariant count == newIndex + size - oldIndex && Passed(m, l, oldIndex - from, i)
        invariant data[..newIndex] == kept == Filter(m[..oldIndex - from], Stays(l))
        invariant forall j :: oldIndex <= j < size ==> data[j] == m[j - from]
        decreases |l| - i + size - oldIndex
      {
        if oldIndex >= size {
          count := 0;
          break;
        }
        var handle, k := l[i], oldIndex - from;
        if handle == data[oldIndex].handle {
          LeaveDrop(m, l, k, i);
          count := count - 1;
          oldIndex := oldIndex + 1;
          i := i + 1;
        } else if handle > data[oldIndex].handle {
          LeaveKeep(m, l, k, i);
          Move(newIndex, oldIndex);
          kept := kept + [m[k]];
          newIndex := newIndex + 1;
          oldIndex := oldIndex + 1;
        } else {
          LeaveUnknown(m, l, k, i);
          i := i + 1;
        }
      }
    }

    /** The members behind all leavers move up. */
    method LeaveRest(l: seq<Handle>, from: nat, size: nat, oldFrom: nat, newFrom: nat, count: nat, ghost m: seq<Pair>)
      returns (newIndex: nat)
      requires from <= oldFrom <= size <= data.Length && newFrom <= oldFrom - from && |m| == size - from
      requires Strict(m) && Ascending(l) && data[..newFrom] == Filter(m[..oldFrom - from], Stays(l))
      requires forall j :: oldFrom <= j < size ==> data[j] == m[j - from]
      requires newFrom < count ==> count == newFrom + size - oldFrom && Passed(m, l, oldFrom - from, |l|)
      requires newFrom >= count ==> oldFrom == size
      modifies data
      ensures newIndex <= size - from && data[..newIndex] == Filter(m, Stays(l))
    {
      hide Strict, Ascending, Passed, Filter;
      newIndex := newFrom;
      var oldIndex := oldFrom;
      ghost var kept := data[..newIndex];
      while newIndex < count
        invariant from <= oldIndex <= size && newIndex <= oldIndex - from
        invariant newFrom < count ==> count == newIndex + size - oldIndex && Passed(m, l, oldIndex - from, |l|)
        invariant newFrom >= count ==> oldIndex == size
        invariant data[..newIndex] == kept == Filter(m[..oldIndex - from], Stays(l))
        invariant forall j :: oldIndex <= j < size ==> data[j] == m[j - from]
      {
        LeaveKeep(m, l, oldIndex - from, |l|);
        Move(newIndex, oldIndex);
        kept := kept + [m[oldIndex - from]];
        newIndex := newIndex + 1;
        oldIndex := oldIndex + 1;
      }
      assert m[..oldIndex - from] == m;
    }

    method Move(to: nat, from: nat)
      requires to <= from < data.Length
      modifies data
      ensures data[..to + 1] == old(data[..to]) + [old(data[from])]
      ensures forall k :: from < k < data.Length ==> data[k] == old(data[k])
    {
      data[to] := data[from];
    }

    /** Sorting the queues and making room. */
    method Prepare() returns (newSize: nat)
      requires Valid() && Near(enterQueue.Contents()) && Near(leaveQueue.Contents())
      modifies this, enterQueue.data, leaveQueue.data
      ensures Valid() && Members() == old(Members()) && (data == old(data) || fresh(data))
      ensures enterQueue.data == old(enterQueue.data) && leaveQueue.data == old(leaveQueue.data)
      ensures newSize == number + |enterQueue.Contents()| <= data.Length
      ensures Ascending(enterQueue.Contents()) && Ascending(leaveQueue.Contents())
      ensures multiset(enterQueue.Contents()) == multiset(old(enterQueue.Contents()))
      ensures multiset(leaveQueue.Contents()) == multiset(old(leaveQueue.Contents()))
    {
      hide Strict, Ascending, Near, Sort;
      enterQueue.Qsort();
      leaveQueue.Qsort();
      newSize := number + enterQueue.number;
      Reserve(newSize);
    }

    /** The second pass as a whole. */
    method RemoveLeavers(l: seq<Handle>, from: nat, size: nat, ghost m: seq<Pair>) returns (left: nat)
      requires from <= size <= data.Length && data[from..size] == m && Strict(m) && Ascending(l)
      modifies data
      ensures left <= size - from && data[..left] == Filter(m, Stays(l))
    {
      hide Strict, Ascending, Passed, Filter;
      var oldIndex, newIndex, count := Leave(l, from, size);
      left := LeaveRest(l, from, size, oldIndex, newIndex, count, m);
    }

    /** The first pass as a whole. */
    method AddEntrants(e: seq<Handle>, live: map<Handle, nat>, newSize: nat) returns (from: nat, ghost m: seq<Pair>)
      requires newSize == number + |e| <= data.Length && Mergeable(Members(), e, live)
      modifies data
      ensures from <= newSize && data[from..newSize] == m && Strict(m)
      ensures forall p: Pair :: p in m <==> p in old(Members()) || (p.handle in e && Joins(old(Members()), live, p))
    {
      hide Mergeable, Merged, Strict, Joins;
      ghost var d := Members();
      var oldIndex, newIndex;
      ghost var last;
      oldIndex, newIndex, last, m := MergeEnter(e, live, newSize);
      newIndex, m := MergeRest(oldIndex, newIndex, newSize, d, e, live, last, m);
      from := newIndex + 1;
    }

    /** combine_queue: afterwards the group holds, in order, the old members and the entrants whose
        context is live, without the leavers; old members keep their contexts; the queues are empty. */
    method CombineQueue(live: map<Handle, nat>)
      requires Valid() && Near(enterQueue.Contents()) && Near(leaveQueue.Contents()) && 0 !in live
      modifies this, data, enterQueue, enterQueue.data, leaveQueue, leaveQueue.data
      ensures Valid() && enterQueue.Contents() == [] == leaveQueue.Contents()
      ensures forall p :: p in Members() <==>
        InGroup(old(Members()), old(enterQueue.Contents()), old(leaveQueue.Contents()), live, p)
    {
      hide Strict, Ascending, Mergeable, Merged, Joins, InGroup, Passed, Filter, Near;
      ghost var d, es, ls := Members(), enterQueue.Contents(), leaveQueue.Contents();
      var newSize := Prepare();
      var e, l := enterQueue.data[..enterQueue.number], leaveQueue.data[..leaveQueue.number];
      CanMerge(Members(), e, live);
      var from;
      ghost var m;
      from, m := AddEntrants(e, live, newSize);
      enterQueue.number := 0;
      number := RemoveLeavers(l, from, newSize, m);
      leaveQueue.number := 0;
      CombinedMembers(d, es, e, ls, l, live, m);
    }
  }
}
