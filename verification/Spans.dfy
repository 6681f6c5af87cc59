/** Half-open spans of 64-bit nanosecond timestamps. */
module Spans {
  import opened Wrappers

  const MAX: int := 0xffff_ffff_ffff_ffff

  type u64 = x: int | 0 <= x <= MAX

  /** The outcome of 64-bit arithmetic that has no wrapping or saturating form. */
  datatype Checked<+T> = Fits(value: T) | Overflow

  function SaturatingAdd(a: u64, b: u64): u64 {
    if a + b > MAX then MAX else a + b
  }

  function SaturatingSub(a: u64, b: u64): u64 {
    if a < b then 0 else a - b
  }

  function SaturatingMul(a: u64, b: u64): (r: u64) {
    assert a * b >= 0;
    if a * b > MAX then MAX else a * b
  }

  function Min(a: u64, b: u64): u64 {
    if a <= b then a else b
  }

  function Max(a: u64, b: u64): u64 {
    if a <= b then b else a
  }

  datatype Span = Span(start: u64, end: u64) {

    ghost predicate Valid() {
      start <= end
    }

    predicate Intersects(other: Span) {
      start < other.end && end > other.start
    }

    function Intersection(other: Span): (r: Option<Span>)
      requires Valid() && other.Valid()
      ensures r.Some? ==> r.value.Valid() && r.value.start < r.value.end
      ensures forall t :: this.Contains(t) && other.Contains(t) <==> r.Some? && r.value.Contains(t)
    {
      var s, e := Max(start, other.start), Min(end, other.end);
      if s >= e then None else Some(Span(s, e))
    }

    predicate During(other: Span) {
      start >= other.start && end <= other.end
    }

    function Duration(): u64 {
      SaturatingSub(end, start)
    }

    predicate Contains(t: u64) {
      start <= t < end
    }
  }

  function TryNew(start: u64, end: u64): (r: Option<Span>)
    ensures r.None? <==> end < start
    ensures r.Some? ==> r.value == Span(start, end) && r.value.Valid()
  {
    if end < start then None else Some(Span(start, end))
  }

  /** How much of `a` lies in `b`. */
  function Overlap(a: Span, b: Span): u64
    requires a.Valid() && b.Valid()
  {
    var i := a.Intersection(b);
    if i.Some? then i.value.Duration() else 0
  }

  ghost function Timestamps(s: Span): set<int> {
    set t | s.start <= t < s.end && s.Contains(t)
  }

  /** A duration counts the timestamps of its span. */
  lemma {:induction false} DurationCountsTimestamps(s: Span)
    requires s.Valid()
    ensures s.Duration() == |Timestamps(s)|
    decreases s.end - s.start
  {
    if s.start < s.end {
      var shorter := Span(s.start, s.end - 1);
      DurationCountsTimestamps(shorter);
      assert s.Contains(s.end - 1);
      assert forall t: u64 :: s.Contains(t) <==> shorter.Contains(t) || t == s.end - 1;
      assert Timestamps(s) == Timestamps(shorter) + {s.end - 1};
    } else {
      assert Timestamps(s) == {};
    }
  }

  /** `a` is empty and lies strictly within `b`. */
  predicate IsEmptyWithin(a: Span, b: Span) {
    a.start == a.end && b.start < a.start < b.end
  }

  /** `Intersects` tells whether spans share a timestamp, except that an empty span is
      said to intersect one that it lies strictly within. */
  lemma IntersectsIffShared(a: Span, b: Span)
    requires a.Valid() && b.Valid()
    ensures (a.Intersects(b) <==> exists t :: a.Contains(t) && b.Contains(t)) <==>
            !IsEmptyWithin(a, b) && !IsEmptyWithin(b, a)
    ensures IsEmptyWithin(a, b) || IsEmptyWithin(b, a) ==> a.Intersects(b)
  {
    if a.Intersects(b) && a.start < a.end && b.start < b.end {
      assert a.Contains(Max(a.start, b.start)) && b.Contains(Max(a.start, b.start));
    }
  }
}
