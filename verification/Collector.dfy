/** A collector that keeps its items ordered by timestamp. */
module Collector {
  import opened Spans

  datatype Item<T> = Item(timestamp: u64, value: T)

  ghost predicate Sorted<T>(items: seq<Item<T>>) {
    forall i, j | 0 <= i < j < |items| :: items[i].timestamp <= items[j].timestamp
  }

  /** The items stamped `t`, in order. */
  function AtTime<T>(items: seq<Item<T>>, t: u64): seq<Item<T>> {
    if items == [] then []
    else if items[0].timestamp == t then [items[0]] + AtTime(items[1..], t)
    else AtTime(items[1..], t)
  }

  /** `items` is the stable sort of `arrivals`: ordered by timestamp, with the items
      of each timestamp in the order in which they arrived. */
  ghost predicate IsStableSort<T>(items: seq<Item<T>>, arrivals: seq<Item<T>>) {
    Sorted(items) && forall t: u64 :: AtTime(items, t) == AtTime(arrivals, t)
  }

  lemma {:induction false} AtTimeConcat<T>(a: seq<Item<T>>, b: seq<Item<T>>, t: u64)
    ensures AtTime(a + b, t) == AtTime(a, t) + AtTime(b, t)
  {
    if a == [] {
      assert a + b == b;
    } else {
      assert (a + b)[1..] == a[1..] + b;
      AtTimeConcat(a[1..], b, t);
    }
  }

  lemma {:induction false} AtTimeNone<T>(items: seq<Item<T>>, t: u64)
    requires forall x | x in items :: x.timestamp != t
    ensures AtTime(items, t) == []
  {
    if items != [] {
      AtTimeNone(items[1..], t);
    }
  }

  lemma {:induction false} AtTimeHolds<T>(items: seq<Item<T>>, x: Item<T>)
    ensures x in AtTime(items, x.timestamp) <==> x in items
  {
    if items != [] {
      AtTimeHolds(items[1..], x);
      assert items == [items[0]] + items[1..];
    }
  }

  lemma {:induction false} AtTimeCounts<T>(items: seq<Item<T>>, x: Item<T>)
    ensures multiset(AtTime(items, x.timestamp))[x] == multiset(items)[x]
  {
    if items != [] {
      AtTimeCounts(items[1..], x);
      assert items == [items[0]] + items[1..];
    }
  }

  /** A stable sort loses and invents nothing. */
  lemma StableSortIsPermutation<T>(items: seq<Item<T>>, arrivals: seq<Item<T>>)
    requires IsStableSort(items, arrivals)
    ensures multiset(items) == multiset(arrivals)
  {
    forall x ensures multiset(items)[x] == multiset(arrivals)[x] {
      AtTimeCounts(items, x);
      AtTimeCounts(arrivals, x);
    }
  }

  /** Arrival orders that agree for every timestamp sort to the same sequence. */
  lemma {:induction false} StableSortUnique<T>(a: seq<Item<T>>, b: seq<Item<T>>)
    requires Sorted(a) && Sorted(b) && forall t: u64 :: AtTime(a, t) == AtTime(b, t)
    ensures a == b
  {
    if a == [] {
      assert b != [] ==> AtTime(a, b[0].timestamp) == AtTime(b, b[0].timestamp);
    } else {
      AtTimeHolds(a, a[0]);
      AtTimeHolds(b, a[0]);
      assert AtTime(a, a[0].timestamp) == AtTime(b, a[0].timestamp);
      AtTimeHolds(a, b[0]);
      AtTimeHolds(b, b[0]);
      assert AtTime(a, b[0].timestamp) == AtTime(b, b[0].timestamp);
      var i :| 0 <= i < |b| && b[i] == a[0];
      var j :| 0 <= j < |a| && a[j] == b[0];
      assert a[0].timestamp == b[0].timestamp;
      assert AtTime(a, a[0].timestamp)[0] == a[0] && AtTime(b, a[0].timestamp)[0] == b[0];
      forall t: u64 ensures AtTime(a[1..], t) == AtTime(b[1..], t) {
        assert AtTime(a, t) == AtTime(b, t);
        if t == a[0].timestamp {
          assert AtTime(a, t)[1..] == AtTime(a[1..], t);
          assert AtTime(b, t)[1..] == AtTime(b[1..], t);
        }
      }
      StableSortUnique(a[1..], b[1..]);
      assert a == [a[0]] + a[1..] && b == [b[0]] + b[1..];
    }
  }

  /** `pos` splits `items` into those stamped no later than `t` and those after. */
  ghost predicate IsPartitionPoint<T>(items: seq<Item<T>>, t: u64, pos: int) {
    && 0 <= pos <= |items|
    && (forall i | 0 <= i < pos :: items[i].timestamp <= t)
    && (forall i | pos <= i < |items| :: items[i].timestamp > t)
  }

  /** Binary search for the first item stamped after `t`. */
  method PartitionPoint<T>(items: seq<Item<T>>, t: u64) returns (pos: nat)
    requires Sorted(items)
    ensures IsPartitionPoint(items, t, pos)
  {
    var lo, hi := 0, |items|;
    while lo < hi
      invariant 0 <= lo <= hi <= |items|
      invariant forall i | 0 <= i < lo :: items[i].timestamp <= t
      invariant forall i | hi <= i < |items| :: items[i].timestamp > t
    {
      var mid := (lo + hi) / 2;
      if items[mid].timestamp <= t {
        lo := mid + 1;
      } else {
        hi := mid;
      }
    }
    pos := lo;
  }

  lemma InsertAtTime<T>(lo: seq<Item<T>>, hi: seq<Item<T>>, x: Item<T>, t: u64)
    requires forall y | y in hi :: y.timestamp > x.timestamp
    ensures AtTime(lo + [x] + hi, t) == AtTime(lo + hi, t) + AtTime([x], t)
  {
    AtTimeConcat(lo + [x], hi, t);
    AtTimeConcat(lo, [x], t);
    AtTimeConcat(lo, hi, t);
    if t == x.timestamp {
      AtTimeNone(hi, t);
    } else {
      AtTimeNone([x], t);
    }
  }

  /** An item inserted at the partition point of its timestamp lands after its ties. */
  lemma InsertKeepsStableSort<T>(items: seq<Item<T>>, arrivals: seq<Item<T>>, x: Item<T>, pos: nat)
    requires IsStableSort(items, arrivals) && IsPartitionPoint(items, x.timestamp, pos)
    ensures IsStableSort(items[..pos] + [x] + items[pos..], arrivals + [x])
  {
    assert items == items[..pos] + items[pos..];
    forall t: u64 ensures AtTime(items[..pos] + [x] + items[pos..], t) == AtTime(arrivals + [x], t) {
      InsertAtTime(items[..pos], items[pos..], x, t);
      AtTimeConcat(arrivals, [x], t);
      assert AtTime(items, t) == AtTime(arrivals, t);
    }
  }

  class TimeOrderedCollector<T> {
    var items: seq<Item<T>>
    ghost var arrivals: seq<Item<T>>

    ghost predicate Valid()
      reads this
    {
      IsStableSort(items, arrivals)
    }

    constructor ()
      ensures Valid() && arrivals == []
    {
      items, arrivals := [], [];
    }

    /** An item no earlier than the last is appended; any other goes to the position
        that binary search finds. */
    method Push(state: Item<T>)
      requires Valid()
      modifies this
      ensures Valid() && arrivals == old(arrivals) + [state]
    {
      if items != [] && items[|items| - 1].timestamp <= state.timestamp {
        InsertKeepsStableSort(items, arrivals, state, |items|);
        assert items[..|items|] + [state] + items[|items|..] == items + [state];
        items := items + [state];
      } else {
        var pos := PartitionPoint(items, state.timestamp);
        InsertKeepsStableSort(items, arrivals, state, pos);
        items := items[..pos] + [state] + items[pos..];
      }
      arrivals := arrivals + [state];
    }

    method Extend(states: seq<Item<T>>)
      requires Valid()
      modifies this
      ensures Valid() && arrivals == old(arrivals) + states
    {
      for i := 0 to |states|
        invariant Valid() && arrivals == old(arrivals) + states[..i]
      {
        Push(states[i]);
        assert states[..i + 1] == states[..i] + [states[i]];
      }
      assert states[..|states|] == states;
    }

    method IntoInner() returns (r: seq<Item<T>>)
      requires Valid()
      ensures IsStableSort(r, arrivals)
    {
      r := items;
    }
  }

  /** The vector a collector ends up with depends only on the arrivals, and only on
      their order within each timestamp. */
  method Collect<T>(arrivals: seq<Item<T>>) returns (r: seq<Item<T>>)
    ensures IsStableSort(r, arrivals) && multiset(r) == multiset(arrivals)
    ensures forall other | IsStableSort(other, arrivals) :: other == r
  {
    var collector := new TimeOrderedCollector<T>();
    collector.Extend(arrivals);
    r := collector.IntoInner();
    assert [] + arrivals == arrivals;
    StableSortIsPermutation(r, arrivals);
    forall other | IsStableSort(other, arrivals) ensures other == r {
      StableSortUnique(other, r);
    }
  }
}
