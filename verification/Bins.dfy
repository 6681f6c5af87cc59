/** A span of time cut into equally long bins. */
module Bins {
  import opened Wrappers
  import opened Spans

  type Positive = x: u64 | x > 0 witness 1

  datatype BinnedSpan = BinnedSpan(span: Span, binDuration: Positive, numBins: Positive)

  /** `i` times `d`, as repeated addition. */
  ghost function Offset(d: nat, i: nat): nat {
    if i == 0 then 0 else Offset(d, i - 1) + d
  }

  lemma {:induction false} OffsetIsProduct(d: nat, i: nat)
    ensures Offset(d, i) == i * d
  {
    if i > 0 {
      OffsetIsProduct(d, i - 1);
      assert i * d == (i - 1) * d + d;
    }
  }

  lemma {:induction false} OffsetsGrow(d: nat, i: nat, j: nat)
    ensures i <= j ==> Offset(d, i) <= Offset(d, j)
    ensures i < j ==> Offset(d, i) + d <= Offset(d, j)
  {
    if i < j {
      OffsetsGrow(d, i, j - 1);
    }
  }

  /** Division finds the last multiple that does not exceed the dividend. */
  lemma DivFacts(a: nat, d: nat)
    requires d > 0
    ensures 0 <= a / d <= a
    ensures Offset(d, a / d) + a % d == a && 0 <= a % d < d
    ensures a % d > 0 ==> a / d < a
  {
    var q := a / d;
    OffsetIsProduct(d, q);
    assert a == q * d + a % d;
    OffsetAtLeast(d, q);
  }

  lemma {:induction false} OffsetAtLeast(d: nat, i: nat)
    requires d > 0
    ensures i <= Offset(d, i)
  {
    if i > 0 { OffsetAtLeast(d, i - 1); }
  }

  /** The size of `numBins` bins that together cover `duration`. */
  function DivCeil(duration: u64, numBins: Positive): u64 {
    DivFacts(duration, numBins);
    if duration % numBins == 0 then duration / numBins else duration / numBins + 1
  }

  lemma DivCeilCovers(duration: u64, numBins: Positive)
    ensures var r := DivCeil(duration, numBins); duration <= numBins * r < duration + numBins
    ensures DivCeil(duration, numBins) == 0 <==> duration == 0
  {
    DivFacts(duration, numBins);
    var r := DivCeil(duration, numBins);
    OffsetIsProduct(numBins, r);
    OffsetsGrow(numBins, 0, r);
  }

  /** The bins cover the span exactly: their total length did not saturate. */
  ghost predicate Exact(b: BinnedSpan) {
    b.span.Valid() && b.span.end - b.span.start == Offset(b.binDuration, b.numBins)
  }

  datatype BinningError = ZeroDuration | SpanError | AssertionFailed

  /** Cuts `span` into `numBins` bins, growing it so that bins are of equal size. */
  function TryNew(span: Span, numBins: Positive): (r: Result<BinnedSpan, BinningError>)
    requires span.Valid()
    ensures r.Err? <==> span.start == span.end
    ensures r.Err? ==> r.error == ZeroDuration
    ensures r.Ok? ==> r.value.numBins == numBins && span.During(r.value.span) && r.value.span.Valid()
    ensures r.Ok? ==> (Exact(r.value) <==> numBins * r.value.binDuration <= MAX)
    ensures r.Ok? && !Exact(r.value) ==> r.value.span == Span(0, MAX)
    ensures r.Ok? ==> span.Duration() <= numBins * r.value.binDuration < span.Duration() + numBins
    ensures r.Ok? && span.start + numBins * r.value.binDuration <= MAX ==> r.value.span.start == span.start
    ensures r.Ok? && span.start + numBins * r.value.binDuration > MAX ==> r.value.span.end == MAX
  {
    var binSize := DivCeil(span.Duration(), numBins);
    DivCeilCovers(span.Duration(), numBins);
    if binSize == 0 then Err(ZeroDuration)
    else
      OffsetIsProduct(binSize, numBins);
      var total := SaturatingMul(numBins, binSize);
      assert total >= span.Duration();
      var end := SaturatingAdd(span.start, total);
      var start := SaturatingSub(end, total);
      match Spans.TryNew(start, end)
      case None => Err(SpanError)
      case Some(grown) =>
        if grown.Duration() != total then Err(AssertionFailed)
        else Ok(BinnedSpan(grown, binSize, numBins))
  }

  /** The index of the bin `t` lies in, if any. */
  function IndexOf(b: BinnedSpan, t: u64): Option<u64> {
    if t < b.span.start then None
    else
      var index := (t - b.span.start) / b.binDuration;
      if index >= b.numBins then None else Some(index)
  }

  /** The span of a bin; the sums are plain 64-bit arithmetic. */
  function Bin(b: BinnedSpan, index: u64): (r: Checked<Option<Span>>) {
    if index < b.numBins then
      var offset := index * b.binDuration;
      if b.span.start + offset > MAX || b.span.start + offset + b.binDuration > MAX then Overflow
      else
        assert offset >= 0;
        Fits(Spans.TryNew(b.span.start + offset, b.span.start + offset + b.binDuration))
    else Fits(None)
  }

  /** Bins `start`, `start + 1`, ... below `end`. */
  datatype Range = Range(start: int, end: int) {
    predicate Contains(i: int) {
      start <= i < end
    }
  }

  /** The indices of the bins a span overlaps. */
  function IterIndices(b: BinnedSpan, q: Span): (r: Range)
    ensures 0 <= r.start && r.end <= b.numBins
  {
    var first := IndexOf(b, q.start);
    var last := if q.end == 0 then None else IndexOf(b, q.end - 1);
    match (first, last)
    case (Some(i), Some(j)) => Range(i, j + 1)
    case (Some(i), None) => Range(i, b.numBins)
    case (None, Some(j)) => Range(0, j + 1)
    case (None, None) => if b.span.During(q) then Range(0, b.numBins) else Range(0, 0)
  }

  /** The time of `q` in one of the bins of `r`: the first and last bin of the range
      are measured, those between are taken to be covered. */
  function TimeIn(b: BinnedSpan, q: Span, r: Range, index: int): Checked<u64>
    requires r.Contains(index) && index >= 0
  {
    if index == r.start || index == r.end - 1 then
      var lo := index * b.binDuration;
      var hi := (index + 1) * b.binDuration;
      assert lo >= 0 && hi >= 0;
      if b.span.start + lo > MAX || b.span.start + hi > MAX then Overflow
      else
        var binStart := Max(q.start, b.span.start + lo);
        var binEnd := Min(q.end, b.span.start + hi);
        if binEnd < binStart then Overflow else Fits(binEnd - binStart)
    else Fits(b.binDuration)
  }

  /** The pairs the iterator yields. */
  function Durations(b: BinnedSpan, q: Span): seq<(int, Checked<u64>)> {
    var r := IterIndices(b, q);
    if r.end <= r.start then []
    else seq(r.end - r.start, k requires 0 <= k < r.end - r.start => (r.start + k, TimeIn(b, q, r, r.start + k)))
  }

  // ---- Bin boundaries -------------------------------------------------------

  /** Where bin `i` starts, and the bin before it ends. */
  ghost function Edge(b: BinnedSpan, i: nat): int {
    b.span.start + Offset(b.binDuration, i)
  }

  lemma EdgeStep(b: BinnedSpan, i: nat)
    ensures Edge(b, i + 1) == Edge(b, i) + b.binDuration
  {}

  lemma EdgesGrow(b: BinnedSpan, i: nat, j: nat)
    ensures i <= j ==> Edge(b, i) <= Edge(b, j)
    ensures i < j ==> Edge(b, i) + b.binDuration <= Edge(b, j)
  {
    OffsetsGrow(b.binDuration, i, j);
  }

  /** In an exact binning every edge lies in the span. */
  lemma EdgeInSpan(b: BinnedSpan, i: nat)
    requires Exact(b) && i <= b.numBins
    ensures b.span.start <= Edge(b, i) <= b.span.end
    ensures Edge(b, 0) == b.span.start && Edge(b, b.numBins) == b.span.end
  {
    EdgesGrow(b, 0, i);
    EdgesGrow(b, i, b.numBins);
    OffsetIsProduct(b.binDuration, b.numBins);
  }

  ghost function BinSpan(b: BinnedSpan, i: nat): (s: Span)
    requires Exact(b) && i < b.numBins
    ensures s.Valid() && s.start < s.end
    ensures s.start == Edge(b, i) && s.end == Edge(b, i + 1)
  {
    EdgeInSpan(b, i);
    EdgeInSpan(b, i + 1);
    EdgeStep(b, i);
    Span(Edge(b, i), Edge(b, i + 1))
  }

  // ---- Bins tile the span ---------------------------------------------------

  /** In an exact binning no bin overflows; the bins join without gap or overlap
      and cover the span. */
  lemma BinsTile(b: BinnedSpan, i: u64)
    requires Exact(b)
    ensures i < b.numBins ==> Bin(b, i) == Fits(Some(BinSpan(b, i))) && BinSpan(b, i).During(b.span)
    ensures i < b.numBins ==> BinSpan(b, i).Duration() == b.binDuration
    ensures i >= b.numBins ==> Bin(b, i) == Fits(None)
    ensures BinSpan(b, 0).start == b.span.start && BinSpan(b, b.numBins - 1).end == b.span.end
    ensures i + 1 < b.numBins ==> BinSpan(b, i).end == BinSpan(b, i + 1).start
  {
    EdgeInSpan(b, 0);
    if i < b.numBins {
      EdgeInSpan(b, i);
      EdgeInSpan(b, i + 1);
      EdgeStep(b, i);
      OffsetIsProduct(b.binDuration, i);
    }
  }

  /** A binning made by `TryNew` has a bin that overflows exactly when its total
      length saturated. */
  lemma EveryBinFitsIffExact(span: Span, numBins: Positive)
    requires span.Valid() && TryNew(span, numBins).Ok?
    ensures var b := TryNew(span, numBins).value;
            (forall i: u64 | i < b.numBins :: Bin(b, i).Fits?) <==> numBins * b.binDuration <= MAX
  {
    var b := TryNew(span, numBins).value;
    if Exact(b) {
      forall i: u64 | i < b.numBins ensures Bin(b, i).Fits? {
        BinsTile(b, i);
      }
    } else {
      var last := b.numBins - 1;
      OffsetIsProduct(b.binDuration, last);
      OffsetIsProduct(b.binDuration, numBins);
      assert Bin(b, last).Overflow?;
    }
  }

  /** `TryNew` does accept spans whose total length saturates. */
  lemma SaturatedBinning()
    ensures TryNew(Span(0, MAX), 2).Ok? && !Exact(TryNew(Span(0, MAX), 2).value)
    ensures Bin(TryNew(Span(0, MAX), 2).value, 1).Overflow?
  {}

  /** Whatever the binning, a bin overflows exactly if its end passes `MAX`, and is
      otherwise the span between its edges. */
  lemma BinIsBetween(b: BinnedSpan, i: u64)
    ensures i < b.numBins && Edge(b, i + 1) <= MAX ==>
              exists s: Span :: Bin(b, i) == Fits(Some(s)) && s.start == Edge(b, i) && s.end == Edge(b, i + 1)
    ensures i < b.numBins && Edge(b, i + 1) > MAX ==> Bin(b, i) == Overflow
    ensures i >= b.numBins ==> Bin(b, i) == Fits(None)
  {
    OffsetIsProduct(b.binDuration, i);
    OffsetsGrow(b.binDuration, 0, i);
    EdgeStep(b, i);
    if i < b.numBins && Edge(b, i + 1) <= MAX {
      assert Bin(b, i) == Fits(Some(Span(Edge(b, i), Edge(b, i + 1))));
    }
  }

  // ---- Looking up a bin -----------------------------------------------------

  lemma IndexOfSpec(b: BinnedSpan, t: u64, i: nat)
    requires Exact(b) && i < b.numBins
    ensures IndexOf(b, t) == Some(i) <==> BinSpan(b, i).Contains(t)
    ensures IndexOf(b, t) == None <==> !b.span.Contains(t)
    ensures IndexOf(b, t).Some? ==> (Edge(b, i) <= t <==> i <= IndexOf(b, t).value)
    ensures IndexOf(b, t).Some? ==> (t < Edge(b, i + 1) <==> IndexOf(b, t).value <= i)
  {
    EdgeInSpan(b, b.numBins);
    EdgeInSpan(b, i);
    if t >= b.span.start {
      var index := (t - b.span.start) / b.binDuration;
      DivFacts(t - b.span.start, b.binDuration);
      Between(b, t, index, i);
      Between(b, t, index, b.numBins);
    }
  }

  /** Whatever the binning, a timestamp has the index of the bin whose edges enclose
      it, and none exactly outside all bins. */
  lemma IndexIffBetween(b: BinnedSpan, t: u64, i: nat)
    ensures IndexOf(b, t) == Some(i) <==> i < b.numBins && Edge(b, i) <= t < Edge(b, i + 1)
    ensures IndexOf(b, t) == None <==> t < b.span.start || Edge(b, b.numBins) <= t
  {
    if t >= b.span.start {
      var index := (t - b.span.start) / b.binDuration;
      DivFacts(t - b.span.start, b.binDuration);
      Between(b, t, index, i);
      Between(b, t, index, b.numBins);
    } else {
      EdgesGrow(b, 0, i);
    }
  }

  /** A timestamp between two edges is ordered like them against any other edge. */
  lemma Between(b: BinnedSpan, t: int, index: nat, i: nat)
    requires Edge(b, index) <= t < Edge(b, index + 1)
    ensures Edge(b, i) <= t <==> i <= index
    ensures t < Edge(b, i + 1) <==> index <= i
  {
    EdgesGrow(b, i, index);
    EdgesGrow(b, index + 1, i);
    EdgesGrow(b, i + 1, index);
    EdgesGrow(b, index + 1, i + 1);
  }

  /** The condition under which the index range is right: the query is not an empty
      span at either end of the binned one. */
  predicate RangeSound(b: BinnedSpan, q: Span) {
    q.start < q.end || (q.start != b.span.start && q.start != b.span.end)
  }

  lemma BinInRange(b: BinnedSpan, q: Span, i: nat)
    requires Exact(b) && q.Valid() && i < b.numBins && RangeSound(b, q)
    ensures IterIndices(b, q).Contains(i) <==> BinSpan(b, i).Intersects(q)
  {
    IndexOfSpec(b, q.start, i);
    if q.end > 0 { IndexOfSpec(b, q.end - 1, i); }
    EdgeInSpan(b, i);
    EdgeInSpan(b, i + 1);
    EdgeStep(b, i);
  }

  /** `IterIndices` yields exactly the bins that intersect the query if and only if
      the query is non-empty or lies at neither end of the binned span. */
  lemma IterIndicesExact(b: BinnedSpan, q: Span)
    requires Exact(b) && q.Valid()
    ensures (forall i :: IterIndices(b, q).Contains(i) <==> 0 <= i < b.numBins && BinSpan(b, i).Intersects(q))
            <==> RangeSound(b, q)
  {
    if RangeSound(b, q) {
      forall i ensures IterIndices(b, q).Contains(i) <==> 0 <= i < b.numBins && BinSpan(b, i).Intersects(q) {
        if 0 <= i < b.numBins { BinInRange(b, q, i); }
      }
    } else {
      IndexOfSpec(b, q.start, 0);
      if q.end > 0 { IndexOfSpec(b, q.end - 1, 0); }
      EdgeInSpan(b, 0);
      EdgeStep(b, 0);
      EdgesGrow(b, 1, b.numBins);
      var r := IterIndices(b, q);
      assert r.Contains(0);
      assert !BinSpan(b, 0).Intersects(q);
    }
  }

  /** One pair for each bin of the range, in order. */
  lemma PairsFollowRange(b: BinnedSpan, q: Span, k: nat)
    ensures var r, ds := IterIndices(b, q), Durations(b, q);
            && |ds| == (if r.start < r.end then r.end - r.start else 0)
            && (k < |ds| ==> ds[k].0 == r.start + k)
  {}

  // ---- Time per bin ---------------------------------------------------------

  ghost predicate AllFit(ds: seq<(int, Checked<u64>)>) {
    forall k | 0 <= k < |ds| :: ds[k].1.Fits?
  }

  ghost function Time(time: Checked<u64>): nat {
    if time.Fits? then time.value else 0
  }

  ghost function Sum(ds: seq<(int, Checked<u64>)>): nat {
    if ds == [] then 0 else Sum(ds[..|ds| - 1]) + Time(ds[|ds| - 1].1)
  }

  /** The pair names a bin that ends within 64 bits and carries the time the query
      spends in it. */
  ghost predicate RightTime(b: BinnedSpan, q: Span, d: (int, Checked<u64>))
    requires q.Valid()
  {
    && 0 <= d.0 < b.numBins && Edge(b, d.0 + 1) <= MAX
    && d.1 == Fits(Overlap(Span(Edge(b, d.0), Edge(b, d.0 + 1)), q))
  }

  /** The yielded times are sound: no arithmetic overflows, each pair carries the
      time the query spends in its bin, and together they carry all of the query
      that lies in the binned span. */
  ghost predicate Conserved(b: BinnedSpan, q: Span)
    requires b.span.Valid() && q.Valid()
  {
    var ds := Durations(b, q);
    && (forall k | 0 <= k < |ds| :: RightTime(b, q, ds[k]))
    && Sum(ds) == Overlap(b.span, q)
  }

  /** An empty query at either end of the binned span makes the range run over bins
      it does not touch; a single bin is measured all the same. */
  predicate TimesSound(b: BinnedSpan, q: Span) {
    RangeSound(b, q) || b.numBins == 1
  }

  /** Up to bin `i`, the query is covered by the bins before it. */
  ghost function Covered(b: BinnedSpan, q: Span, i: nat): nat
    requires Exact(b) && q.Valid() && i <= b.numBins
  {
    EdgeInSpan(b, i);
    Overlap(Span(b.span.start, Edge(b, i)), q)
  }

  lemma CoveredStep(b: BinnedSpan, q: Span, i: nat)
    requires Exact(b) && q.Valid() && i < b.numBins
    ensures Covered(b, q, i + 1) == Covered(b, q, i) + Overlap(BinSpan(b, i), q)
  {
    EdgeInSpan(b, i);
    EdgeInSpan(b, i + 1);
    EdgeStep(b, i);
  }

  /** What the iterator measures, in terms of the bin's edges. */
  lemma MeasuredTime(b: BinnedSpan, q: Span, r: Range, i: nat)
    requires r.Contains(i)
    ensures var lo, hi := Edge(b, i), Edge(b, i + 1);
            TimeIn(b, q, r, i) ==
            if r.start < i < r.end - 1 then Fits(b.binDuration)
            else if lo > MAX || hi > MAX then Overflow
            else if Min(q.end, hi) < Max(q.start, lo) then Overflow
            else Fits(Min(q.end, hi) - Max(q.start, lo))
  {
    OffsetIsProduct(b.binDuration, i);
    OffsetIsProduct(b.binDuration, i + 1);
  }

  /** The time measured in a bin of the range is the query's time in that bin. */
  lemma TimeInBin(b: BinnedSpan, q: Span, i: nat)
    requires Exact(b) && q.Valid() && TimesSound(b, q)
    requires IterIndices(b, q).Contains(i)
    ensures i < b.numBins && TimeIn(b, q, IterIndices(b, q), i) == Fits(Overlap(BinSpan(b, i), q))
  {
    var r := IterIndices(b, q);
    MeasuredTime(b, q, r, i);
    EdgeInSpan(b, i);
    EdgeInSpan(b, i + 1);
    EdgeStep(b, i);
    if RangeSound(b, q) {
      BinInRange(b, q, i);
      if r.start < i < r.end - 1 {
        BinInRange(b, q, i - 1);
        BinInRange(b, q, i + 1);
        EdgeInSpan(b, i - 1);
        EdgeInSpan(b, i + 2);
        EdgeStep(b, i - 1);
        EdgeStep(b, i + 1);
      }
    }
  }

  /** Pair `j` carries the time the query spends in bin `lo + j`. */
  ghost predicate TimeMatches(b: BinnedSpan, q: Span, ds: seq<(int, Checked<u64>)>, lo: nat, j: nat) {
    && Exact(b) && q.Valid() && j < |ds| && lo + j < b.numBins
    && Time(ds[j].1) == Overlap(BinSpan(b, lo + j), q)
  }

  /** Times spent in successive bins sum to what those bins cover of the query. */
  lemma {:induction false} SumAccumulates(b: BinnedSpan, q: Span, ds: seq<(int, Checked<u64>)>, lo: nat, k: nat)
    requires Exact(b) && q.Valid() && k <= |ds| && lo + |ds| <= b.numBins && Covered(b, q, lo) == 0
    requires forall j: nat | j < |ds| :: TimeMatches(b, q, ds, lo, j)
    ensures Sum(ds[..k]) == Covered(b, q, lo + k)
  {
    if k > 0 {
      SumAccumulates(b, q, ds, lo, k - 1);
      SumNext(b, q, ds, lo, k - 1);
    }
  }

  lemma SumNext(b: BinnedSpan, q: Span, ds: seq<(int, Checked<u64>)>, lo: nat, j: nat)
    requires TimeMatches(b, q, ds, lo, j)
    ensures Sum(ds[..j + 1]) - Sum(ds[..j]) == Covered(b, q, lo + j + 1) - Covered(b, q, lo + j)
  {
    SumStep(ds, j);
    CoveredStep(b, q, lo + j);
  }

  lemma SumStep(ds: seq<(int, Checked<u64>)>, k: nat)
    requires k < |ds|
    ensures Sum(ds[..k + 1]) == Sum(ds[..k]) + Time(ds[k].1)
  {
    assert ds[..k + 1][..k] == ds[..k];
  }

  lemma SumIsCovered(b: BinnedSpan, q: Span)
    requires Exact(b) && q.Valid() && TimesSound(b, q)
    requires IterIndices(b, q).start < IterIndices(b, q).end
    requires Covered(b, q, IterIndices(b, q).start) == 0
    ensures Sum(Durations(b, q)) == Covered(b, q, IterIndices(b, q).end)
  {
    var ds, lo := Durations(b, q), IterIndices(b, q).start;
    forall j: nat | j < |ds| ensures TimeMatches(b, q, ds, lo, j) {
      TimeOfPair(b, q, j);
    }
    SumAccumulates(b, q, ds, lo, |ds|);
    assert ds[..|ds|] == ds;
  }

  lemma TimeOfPair(b: BinnedSpan, q: Span, k: nat)
    requires Exact(b) && q.Valid() && TimesSound(b, q)
    requires k < |Durations(b, q)|
    ensures var i := IterIndices(b, q).start + k;
            i < b.numBins && Time(Durations(b, q)[k].1) == Overlap(BinSpan(b, i), q)
  {
    TimeInBin(b, q, IterIndices(b, q).start + k);
  }

  /** Before the first bin of the range there is nothing of the query. */
  lemma NothingBefore(b: BinnedSpan, q: Span)
    requires Exact(b) && q.Valid() && TimesSound(b, q) && IterIndices(b, q).start < IterIndices(b, q).end
    ensures Covered(b, q, IterIndices(b, q).start) == 0
  {
    var lo := IterIndices(b, q).start;
    EdgeInSpan(b, lo);
    IndexOfSpec(b, q.start, lo);
  }

  /** After the last bin of the range there is nothing of the query. */
  lemma NothingAfter(b: BinnedSpan, q: Span)
    requires Exact(b) && q.Valid() && TimesSound(b, q) && IterIndices(b, q).start < IterIndices(b, q).end
    ensures Covered(b, q, IterIndices(b, q).end) == Overlap(b.span, q)
  {
    var hi := IterIndices(b, q).end;
    EdgeInSpan(b, hi);
    EdgeInSpan(b, b.numBins);
    if q.end > 0 { IndexOfSpec(b, q.end - 1, hi - 1); }
  }

  lemma NothingAtAll(b: BinnedSpan, q: Span)
    requires Exact(b) && q.Valid() && IterIndices(b, q).start >= IterIndices(b, q).end
    ensures Overlap(b.span, q) == 0
  {
    EdgeInSpan(b, b.numBins);
    if q.start < q.end {
      var n := b.numBins;
      IndexOfSpec(b, q.start, 0);
      IndexOfSpec(b, q.end - 1, 0);
      if IndexOf(b, q.start).Some? && IndexOf(b, q.end - 1).Some? {
        IndexOfSpec(b, q.start, IndexOf(b, q.start).value);
        IndexOfSpec(b, q.end - 1, IndexOf(b, q.start).value);
      }
    }
  }

  lemma UnsoundRange(b: BinnedSpan, q: Span)
    requires Exact(b) && q.Valid() && !RangeSound(b, q)
    ensures IterIndices(b, q) == Range(0, b.numBins)
  {
    EdgeInSpan(b, 0);
    EdgeInSpan(b, b.numBins - 1);
    EdgeStep(b, b.numBins - 1);
    IndexOfSpec(b, q.start, 0);
    if q.end > 0 { IndexOfSpec(b, q.end - 1, b.numBins - 1); }
  }

  lemma UnsoundTimes(b: BinnedSpan, q: Span)
    requires Exact(b) && q.Valid() && !TimesSound(b, q)
    ensures !AllFit(Durations(b, q))
  {
    var n, ds := b.numBins, Durations(b, q);
    UnsoundRange(b, q);
    EdgeInSpan(b, n - 1);
    EdgesGrow(b, 0, n - 1);
    EdgesGrow(b, 1, n - 1);
    EdgeStep(b, 0);
    EdgeStep(b, n - 1);
    if q.start == b.span.start {
      MeasuredTime(b, q, Range(0, n), n - 1);
      assert ds[n - 1] == (n - 1, TimeIn(b, q, Range(0, n), n - 1));
    } else {
      MeasuredTime(b, q, Range(0, n), 0);
      assert ds[0] == (0, TimeIn(b, q, Range(0, n), 0));
    }
  }

  lemma TimesAreRight(b: BinnedSpan, q: Span)
    requires Exact(b) && q.Valid() && TimesSound(b, q)
    ensures var ds := Durations(b, q); forall k | 0 <= k < |ds| :: RightTime(b, q, ds[k])
  {
    forall k: nat | k < |Durations(b, q)| ensures RightTime(b, q, Durations(b, q)[k]) {
      RightPair(b, q, k);
    }
  }

  lemma RightPair(b: BinnedSpan, q: Span, k: nat)
    requires Exact(b) && q.Valid() && TimesSound(b, q) && k < |Durations(b, q)|
    ensures RightTime(b, q, Durations(b, q)[k])
  {
    var i := IterIndices(b, q).start + k;
    TimeInBin(b, q, i);
    EdgeInSpan(b, i + 1);
  }

  lemma SoundTimesConserve(b: BinnedSpan, q: Span)
    requires Exact(b) && q.Valid() && TimesSound(b, q)
    ensures Conserved(b, q)
  {
    var ds, r := Durations(b, q), IterIndices(b, q);
    TimesAreRight(b, q);
    if r.start < r.end {
      NothingBefore(b, q);
      NothingAfter(b, q);
      SumIsCovered(b, q);
    } else {
      NothingAtAll(b, q);
    }
  }

  /** Time is conserved over the yielded bins exactly when the query is non-empty,
      or lies at neither end of the binned span, or there is a single bin. */
  lemma DurationsConserve(b: BinnedSpan, q: Span)
    requires Exact(b) && q.Valid()
    ensures Conserved(b, q) <==> TimesSound(b, q)
  {
    if TimesSound(b, q) {
      SoundTimesConserve(b, q);
    } else {
      UnsoundTimes(b, q);
    }
  }

  // ---- Saturated binnings ---------------------------------------------------

  /** A binning made by `TryNew` whose total length did not fit in 64 bits. */
  predicate IsSaturated(b: BinnedSpan) {
    b.span == Span(0, MAX) && b.numBins * b.binDuration > MAX
  }

  /** In a saturated binning every timestamp has a bin, also `MAX`, which lies outside
      the span; that bin ends within 64 bits exactly if it is one of the whole bins
      below `MAX`. */
  lemma SaturatedBinEnd(b: BinnedSpan, t: u64)
    requires IsSaturated(b)
    ensures IndexOf(b, t) == Some(t / b.binDuration) && (b.span.Contains(t) <==> t < MAX)
    ensures Edge(b, t / b.binDuration + 1) <= MAX <==> t / b.binDuration < MAX / b.binDuration
    ensures t < MAX && MAX % b.binDuration == 0 ==> Edge(b, t / b.binDuration + 1) <= MAX
    ensures t == MAX - 1 && MAX % b.binDuration != 0 ==> Edge(b, t / b.binDuration + 1) > MAX
  {
    var d, j := b.binDuration, t / b.binDuration;
    DivFacts(t, d);
    DivFacts(MAX, d);
    OffsetIsProduct(d, b.numBins);
    OffsetsGrow(d, b.numBins, j);
    OffsetsGrow(d, MAX / d, j);
    OffsetsGrow(d, MAX / d + 1, j + 1);
    OffsetsGrow(d, j + 1, MAX / d);
  }

  /** In a binning made by `TryNew`, exactly the timestamps of the span have a bin if
      and only if the total length of the bins fits in 64 bits; otherwise `MAX` has
      one too, and it alone is out of place. */
  lemma LookupInSpanIff(span: Span, numBins: Positive)
    requires span.Valid() && TryNew(span, numBins).Ok?
    ensures var b := TryNew(span, numBins).value;
            (forall t: u64 :: IndexOf(b, t).Some? <==> b.span.Contains(t)) <==> numBins * b.binDuration <= MAX
    ensures var b := TryNew(span, numBins).value;
            forall t: u64 | t < MAX :: IndexOf(b, t).Some? <==> b.span.Contains(t)
  {
    var b := TryNew(span, numBins).value;
    forall t: u64 ensures IndexOf(b, t).Some? <==> b.span.Contains(t) || (t == MAX && !Exact(b)) {
      if Exact(b) {
        IndexOfSpec(b, t, 0);
      } else {
        SaturatedBinEnd(b, t);
      }
    }
    assert Exact(b) || !b.span.Contains(MAX);
  }

  lemma SaturatedRange(b: BinnedSpan, q: Span)
    requires IsSaturated(b) && q.start < q.end
    ensures IterIndices(b, q) == Range(q.start / b.binDuration, (q.end - 1) / b.binDuration + 1)
  {
    SaturatedBinEnd(b, q.start);
    SaturatedBinEnd(b, q.end - 1);
  }

  /** The first `n` bins of a saturated binning, if they end within 64 bits. */
  function FirstBins(b: BinnedSpan, n: Positive): (w: BinnedSpan)
    requires IsSaturated(b) && n * b.binDuration <= MAX
    ensures Exact(w) && w.span.start == 0 && w.span.end == Edge(b, n) && n < b.numBins
  {
    OffsetIsProduct(b.binDuration, n);
    OffsetIsProduct(b.binDuration, b.numBins);
    OffsetsGrow(b.binDuration, b.numBins, n);
    BinnedSpan(Span(0, n * b.binDuration), b.binDuration, n)
  }

  /** The number of bins up to and including the one in which the query ends. */
  function BinsUpTo(b: BinnedSpan, q: Span): (n: nat)
    requires b.span.start == 0 && q.end > 0
    ensures n > 0 && Edge(b, n - 1) < q.end <= Edge(b, n)
  {
    EdgesAround(b, q.end - 1);
    (q.end - 1) / b.binDuration + 1
  }

  /** The query ends in one of the whole bins below `MAX`. */
  predicate EndsInWholeBin(b: BinnedSpan, q: Span) {
    q.end > 0 && (q.end - 1) / b.binDuration < MAX / b.binDuration
  }

  lemma WholeBinEnd(b: BinnedSpan, q: Span)
    requires IsSaturated(b) && q.end > 0
    ensures EndsInWholeBin(b, q) <==> BinsUpTo(b, q) * b.binDuration <= MAX
    ensures EndsInWholeBin(b, q) <==> Edge(b, BinsUpTo(b, q)) <= MAX
    ensures MAX % b.binDuration == 0 ==> EndsInWholeBin(b, q)
  {
    SaturatedBinEnd(b, q.end - 1);
    OffsetIsProduct(b.binDuration, BinsUpTo(b, q));
  }

  lemma FirstBinsIndex(b: BinnedSpan, n: Positive, t: u64)
    requires IsSaturated(b) && n * b.binDuration <= MAX && t < Edge(b, n)
    ensures IndexOf(FirstBins(b, n), t) == Some(t / b.binDuration)
  {
    EdgesAround(b, t);
    EdgesGrow(b, n, t / b.binDuration);
  }

  lemma FirstBinsRange(b: BinnedSpan, q: Span)
    requires IsSaturated(b) && q.Valid() && EndsInWholeBin(b, q) && q.start < Edge(b, BinsUpTo(b, q))
    ensures BinsUpTo(b, q) * b.binDuration <= MAX
    ensures IterIndices(FirstBins(b, BinsUpTo(b, q)), q) == IterIndices(b, q)
  {
    WholeBinEnd(b, q);
    var n := BinsUpTo(b, q);
    SaturatedBinEnd(b, q.start);
    SaturatedBinEnd(b, q.end - 1);
    FirstBinsIndex(b, n, q.start);
    FirstBinsIndex(b, n, q.end - 1);
  }

  /** The bins up to the end of a query measure it as the whole binning does. */
  lemma FirstBinsMeasure(b: BinnedSpan, q: Span)
    requires IsSaturated(b) && q.Valid() && EndsInWholeBin(b, q) && q.start < Edge(b, BinsUpTo(b, q))
    ensures BinsUpTo(b, q) * b.binDuration <= MAX
    ensures Durations(b, q) == Durations(FirstBins(b, BinsUpTo(b, q)), q)
  {
    FirstBinsRange(b, q);
    var r, w := IterIndices(b, q), FirstBins(b, BinsUpTo(b, q));
    forall i: nat | r.Contains(i) ensures TimeIn(b, q, r, i) == TimeIn(w, q, r, i) {}
  }

  lemma FirstBinsConserve(b: BinnedSpan, q: Span)
    requires IsSaturated(b) && q.Valid() && EndsInWholeBin(b, q) && q.start < Edge(b, BinsUpTo(b, q))
    ensures Conserved(b, q)
  {
    FirstBinsMeasure(b, q);
    var w, ds := FirstBins(b, BinsUpTo(b, q)), Durations(b, q);
    SoundTimesConserve(w, q);
    forall k | 0 <= k < |ds| ensures RightTime(b, q, ds[k]) {
      RightInWhole(b, w, q, ds[k]);
    }
  }

  lemma RightInWhole(b: BinnedSpan, w: BinnedSpan, q: Span, d: (int, Checked<u64>))
    requires q.Valid() && RightTime(w, q, d)
    requires w.numBins < b.numBins && w.binDuration == b.binDuration && w.span.start == b.span.start
    ensures RightTime(b, q, d)
  {}

  /** An empty query on an edge touches no bin. */
  lemma EmptyOnEdge(b: BinnedSpan, q: Span)
    requires IsSaturated(b) && q.Valid() && q.end > 0 && Edge(b, BinsUpTo(b, q)) <= q.start
    ensures Conserved(b, q)
  {
    var n := BinsUpTo(b, q);
    SaturatedBinEnd(b, q.start);
    SaturatedBinEnd(b, q.end - 1);
    EdgesAround(b, q.start);
    Between(b, q.start, q.start / b.binDuration, n);
    assert Durations(b, q) == [];
  }

  lemma QueryEndOverflows(b: BinnedSpan, q: Span)
    requires IsSaturated(b) && q.Valid() && !EndsInWholeBin(b, q)
    ensures !AllFit(Durations(b, q))
  {
    SaturatedBinEnd(b, q.start);
    if q.end > 0 {
      var j := BinsUpTo(b, q) - 1;
      WholeBinEnd(b, q);
      SaturatedBinEnd(b, q.end - 1);
      EdgesAround(b, q.start);
      Between(b, q.start, q.start / b.binDuration, j);
      LastOverflows(b, q, j);
    } else {
      OffsetIsProduct(b.binDuration, b.numBins);
      LastOverflows(b, q, b.numBins - 1);
    }
  }

  lemma LastOverflows(b: BinnedSpan, q: Span, j: nat)
    requires IterIndices(b, q).Contains(j) && IterIndices(b, q).end == j + 1 && Edge(b, j + 1) > MAX
    ensures !AllFit(Durations(b, q))
  {
    var r := IterIndices(b, q);
    MeasuredTime(b, q, r, j);
    assert Durations(b, q)[j - r.start].1.Overflow?;
  }

  lemma ConservedFits(b: BinnedSpan, q: Span)
    requires b.span.Valid() && q.Valid() && Conserved(b, q)
    ensures AllFit(Durations(b, q))
  {
    var ds := Durations(b, q);
    forall k | 0 <= k < |ds| ensures ds[k].1.Fits? {
      assert RightTime(b, q, ds[k]);
    }
  }

  /** When the times of one query on a binning made by `TryNew` are sound: if the total
      length of the bins fits in 64 bits, the query is non-empty or at neither end of
      the binned span or there is one bin; otherwise, it ends in a whole bin. */
  predicate QuerySound(b: BinnedSpan, q: Span) {
    if b.numBins * b.binDuration <= MAX then TimesSound(b, q) else EndsInWholeBin(b, q)
  }

  /** For a binning made by `TryNew`, saturated or not, the times of a query are sound,
      and likewise free of overflow, if and only if the query passes this guard. */
  lemma TimesConserveIff(span: Span, numBins: Positive, q: Span)
    requires span.Valid() && TryNew(span, numBins).Ok? && q.Valid()
    ensures var b := TryNew(span, numBins).value;
            (Conserved(b, q) <==> QuerySound(b, q)) && (AllFit(Durations(b, q)) <==> QuerySound(b, q))
  {
    var b := TryNew(span, numBins).value;
    if Exact(b) {
      DurationsConserve(b, q);
      if !TimesSound(b, q) { UnsoundTimes(b, q); }
    } else {
      SaturatedTimesConserveIff(b, q);
    }
    if Conserved(b, q) { ConservedFits(b, q); }
  }

  lemma SaturatedTimesConserveIff(b: BinnedSpan, q: Span)
    requires IsSaturated(b) && q.Valid()
    ensures EndsInWholeBin(b, q) ==> Conserved(b, q)
    ensures !EndsInWholeBin(b, q) ==> !AllFit(Durations(b, q))
  {
    if !EndsInWholeBin(b, q) {
      QueryEndOverflows(b, q);
    } else if q.start < Edge(b, BinsUpTo(b, q)) {
      FirstBinsConserve(b, q);
    } else {
      EmptyOnEdge(b, q);
    }
  }

  /** For a binning made by `TryNew`, the times of every non-empty query are sound, and
      likewise free of overflow, if and only if the total length of the bins fits in 64
      bits or bins end exactly at `MAX`. */
  lemma TimesFitIff(span: Span, numBins: Positive)
    requires span.Valid() && TryNew(span, numBins).Ok?
    ensures var b := TryNew(span, numBins).value;
            (forall q: Span | q.start < q.end :: AllFit(Durations(b, q)))
            <==> numBins * b.binDuration <= MAX || MAX % b.binDuration == 0
    ensures var b := TryNew(span, numBins).value;
            (forall q: Span | q.start < q.end :: Conserved(b, q))
            <==> numBins * b.binDuration <= MAX || MAX % b.binDuration == 0
  {
    var b := TryNew(span, numBins).value;
    if numBins * b.binDuration <= MAX || MAX % b.binDuration == 0 {
      forall q: Span | q.start < q.end ensures Conserved(b, q) && AllFit(Durations(b, q)) {
        TimesConserveIff(span, numBins, q);
        NonEmptySound(b, q);
      }
    } else {
      var q := Span(0, MAX);
      TimesConserveIff(span, numBins, q);
      SaturatedBinEnd(b, MAX - 1);
      assert !QuerySound(b, q);
    }
  }

  lemma NonEmptySound(b: BinnedSpan, q: Span)
    requires Exact(b) || IsSaturated(b)
    requires q.start < q.end && (b.numBins * b.binDuration <= MAX || MAX % b.binDuration == 0)
    ensures QuerySound(b, q)
  {
    if b.numBins * b.binDuration > MAX {
      OffsetIsProduct(b.binDuration, b.numBins);
      WholeBinEnd(b, q);
    }
  }

  /** In every binning made by `TryNew`, saturated or not, the range of a non-empty
      query is exactly the bins that overlap it. */
  lemma AcceptedIndicesExact(span: Span, numBins: Positive, q: Span, i: nat)
    requires span.Valid() && TryNew(span, numBins).Ok? && q.start < q.end
    ensures var b := TryNew(span, numBins).value;
            IterIndices(b, q).Contains(i) <==> i < numBins && Edge(b, i) < q.end && q.start < Edge(b, i + 1)
  {
    var b := TryNew(span, numBins).value;
    if Exact(b) {
      if i < numBins { BinInRange(b, q, i); }
    } else {
      SaturatedIndicesExact(b, q, i);
    }
  }

  lemma SaturatedIndicesExact(b: BinnedSpan, q: Span, i: nat)
    requires IsSaturated(b) && q.start < q.end
    ensures IterIndices(b, q).Contains(i) <==> i < b.numBins && Edge(b, i) < q.end && q.start < Edge(b, i + 1)
  {
    SaturatedRange(b, q);
    EdgesAround(b, q.start);
    EdgesAround(b, q.end - 1);
    WithinEdges(b, q, q.start / b.binDuration, (q.end - 1) / b.binDuration, i);
    SaturatedBinEnd(b, q.end - 1);
  }

  lemma EdgesAround(b: BinnedSpan, t: u64)
    requires b.span.start == 0
    ensures t / b.binDuration >= 0
    ensures Edge(b, t / b.binDuration) <= t < Edge(b, t / b.binDuration + 1)
  {
    DivFacts(t, b.binDuration);
  }

  lemma WithinEdges(b: BinnedSpan, q: Span, first: nat, last: nat, i: nat)
    requires Edge(b, first) <= q.start < Edge(b, first + 1)
    requires Edge(b, last) < q.end <= Edge(b, last + 1)
    ensures first <= i <= last <==> Edge(b, i) < q.end && q.start < Edge(b, i + 1)
  {
    EdgesGrow(b, i + 1, first);
    EdgesGrow(b, first + 1, i + 1);
    EdgesGrow(b, last + 1, i);
    EdgesGrow(b, i, last);
  }
}
