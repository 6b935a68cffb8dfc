/** `ZarrsArrayHandle.read_subset` (src/array.rs): validate the ranges, widen them to
    chunk boundaries, read whole chunks, and cut the request back out. */
module Reader {
  import opened ChunkedArrays
  import opened MachineWords
  import opened RowMajor
  import opened Slicing
  import opened Wrappers

  datatype ReadError =
    | RankMismatch(expected: nat, got: nat)
    | StartAfterStop(axis: nat)
    | StopExceedsDim(axis: nat)
    | StoreReadFailed
    | AlignmentWrapped   // the box asked of the store misses part of the request

  // ----- chunk alignment -----

  function DivCeil(n: nat, d: nat): nat
    requires d > 0
  {
    if n % d == 0 then n / d else n / d + 1
  }

  function AlignedStart(start: nat, cs: nat): nat
    requires cs > 0
  {
    start / cs * cs
  }

  /** `stop.div_ceil(cs) * cs`, wrapping, clipped to the axis. */
  function AlignedStop(stop: nat, cs: nat, dim: nat): nat
    requires cs > 0
  {
    var unbounded := Wrap(DivCeil(stop, cs) * cs);
    if unbounded <= dim then unbounded else dim
  }

  /** Rounding the stop up to a chunk boundary stays within a machine word. */
  predicate RoundingFits(stop: nat, cs: nat)
    requires cs > 0
  {
    DivCeil(stop, cs) * cs < WORD_MODULUS
  }

  lemma {:induction false} DivMulBounds(n: nat, d: nat)
    requires d > 0
    ensures n / d * d <= n < n / d * d + d
    ensures n / d * d % d == 0
    ensures n % d == n - n / d * d
  {
    MultipleMod(n / d, d);
  }

  lemma {:induction false} MultipleMod(q: nat, d: nat)
    requires d > 0
    ensures q * d % d == 0 && q * d / d == q
  {
    assert q * d == d * q + 0;
    QuotientUnique(q * d, q, d);
  }

  lemma {:induction false} QuotientUnique(n: nat, q: nat, d: nat)
    requires d > 0 && n == q * d
    ensures n / d == q && n % d == 0
  {
    DigitUnique(n / d, n % d, q, 0, d);
  }

  lemma {:induction false} DivCeilBounds(n: nat, d: nat)
    requires d > 0
    ensures n <= DivCeil(n, d) * d < n + d
    ensures DivCeil(n, d) * d % d == 0
  {
    DivMulBounds(n, d);
    MultipleMod(DivCeil(n, d), d);
    Distribute(n / d, d);
  }

  /** The widened axis contains the request, starts and stops on chunk boundaries or
      the array's edge, and over-fetches less than a chunk on either side. */
  lemma {:induction false} AlignedAxis(start: nat, stop: nat, cs: nat, dim: nat)
    requires cs > 0 && start < stop <= dim && RoundingFits(stop, cs)
    ensures AlignedStart(start, cs) <= start < stop <= AlignedStop(stop, cs, dim) <= dim
    ensures AlignedStart(start, cs) % cs == 0
    ensures AlignedStop(stop, cs, dim) % cs == 0 || AlignedStop(stop, cs, dim) == dim
    ensures start - AlignedStart(start, cs) < cs && AlignedStop(stop, cs, dim) - stop < cs
  {
    DivMulBounds(start, cs);
    AlignedStopIs(stop, cs, dim);
    DivCeilBounds(stop, cs);
  }

  /** As long as rounding up fits, the stop is rounded up and clipped. */
  lemma {:induction false} AlignedStopIs(stop: nat, cs: nat, dim: nat)
    requires cs > 0 && RoundingFits(stop, cs)
    ensures var rounded := DivCeil(stop, cs) * cs;
            AlignedStop(stop, cs, dim) == if rounded <= dim then rounded else dim
  {
    WrapFits(DivCeil(stop, cs) * cs);
  }

  /** The widened axis is the smallest one made of whole chunks: it lies inside any
      other chunk-bounded range `lo..hi` around the request. */
  lemma {:induction false} AlignedAxisIsSmallest(start: nat, stop: nat, cs: nat, dim: nat, lo: nat, hi: nat)
    requires cs > 0 && start < stop <= dim && RoundingFits(stop, cs)
    requires lo <= start && lo % cs == 0
    requires stop <= hi <= dim && (hi % cs == 0 || hi == dim)
    ensures lo <= AlignedStart(start, cs) && AlignedStop(stop, cs, dim) <= hi
  {
    LargestMultipleBelow(start, cs, lo);
    SmallestMultipleAbove(stop, cs, hi);
  }

  lemma {:induction false} LargestMultipleBelow(n: nat, d: nat, m: nat)
    requires d > 0 && m <= n && m % d == 0
    ensures m <= n / d * d
  {
    DivMulBounds(n, d);
    DivMulBounds(m, d);
    MultiplesApart(m / d, n / d, d);
  }

  lemma {:induction false} SmallestMultipleAbove(n: nat, d: nat, m: nat)
    requires d > 0 && n <= m
    ensures n <= DivCeil(n, d) * d
    ensures m % d == 0 ==> DivCeil(n, d) * d <= m
  {
    DivCeilBounds(n, d);
    DivMulBounds(m, d);
    MultiplesApart(DivCeil(n, d), m / d, d);
  }

  /** Of two multiples of `d`, the first is no larger unless it is larger by at least `d`. */
  lemma {:induction false} MultiplesApart(p: nat, q: nat, d: nat)
    ensures p * d <= q * d || q * d + d <= p * d
  {
    MulMono(p, q, d);
    Successor(q, p, d);
  }

  /** Wrap-around is the only way alignment goes wrong: the widened stop covers the
      request exactly when rounding it up fits a machine word. */
  lemma {:induction false} AlignmentCoversIffRoundingFits(stop: nat, cs: nat, dim: nat)
    requires 0 < cs < WORD_MODULUS && 0 < stop <= dim < WORD_MODULUS
    ensures stop <= AlignedStop(stop, cs, dim) <==> RoundingFits(stop, cs)
  {
    DivCeilBounds(stop, cs);
    if !RoundingFits(stop, cs) {
      assert Wrap(DivCeil(stop, cs) * cs) == DivCeil(stop, cs) * cs - WORD_MODULUS < stop;
    }
  }

  /** And it does go wrong: on an axis of the largest length, in chunks of two, rounding
      the last stop up wraps to zero. */
  lemma {:induction false} AlignmentCanWrap()
    ensures var last := 0xFFFF_FFFF_FFFF_FFFF;
            !RoundingFits(last, 2) && AlignedStop(last, 2, last) == 0
  {}

  /** It does fit whenever the axis is at least a chunk away from the largest word. */
  lemma {:induction false} RoundingFitsBelowLimit(stop: nat, cs: nat, dim: nat)
    requires cs > 0 && stop <= dim && dim + cs - 1 < WORD_MODULUS
    ensures RoundingFits(stop, cs)
  {
    DivCeilBounds(stop, cs);
  }

  // ----- validation -----

  ghost predicate AxisFault(shape: seq<nat>, ranges: seq<Range>, i: nat)
    requires i < |ranges| == |shape|
  {
    ranges[i].start > ranges[i].stop || ranges[i].stop > shape[i]
  }

  /** The error a request is refused with: the rank first, then the first faulty axis. */
  ghost predicate Refusal(shape: seq<nat>, ranges: seq<Range>, e: ReadError)
  {
    if |ranges| != |shape| then e == RankMismatch(|shape|, |ranges|)
    else exists i: nat :: i < |ranges| && AxisFault(shape, ranges, i)
                          && (forall k: nat :: k < i ==> !AxisFault(shape, ranges, k))
                          && e == if ranges[i].start > ranges[i].stop then StartAfterStop(i) else StopExceedsDim(i)
  }

  method Validate(shape: seq<nat>, ranges: seq<Range>) returns (fault: Option<ReadError>)
    ensures fault.None? <==> Within(ranges, shape)
    ensures fault.Some? ==> Refusal(shape, ranges, fault.value)
  {
    if |ranges| != |shape| {
      return Some(RankMismatch(|shape|, |ranges|));
    }
    for i := 0 to |ranges|
      invariant forall k :: 0 <= k < i ==> ranges[k].start <= ranges[k].stop <= shape[k]
    {
      assert forall k: nat :: k < i ==> !AxisFault(shape, ranges, k);
      if ranges[i].start > ranges[i].stop {
        return Some(StartAfterStop(i));
      }
      if ranges[i].stop > shape[i] {
        return Some(StopExceedsDim(i));
      }
    }
    return None;
  }

  // ----- read_subset -----

  ghost predicate EmptyRequest(ranges: seq<Range>)
  {
    exists i :: 0 <= i < |ranges| && ranges[i].start == ranges[i].stop
  }

  function AlignedBox(shape: seq<nat>, chunkShape: seq<nat>, ranges: seq<Range>): (box: seq<Range>)
    requires |shape| == |chunkShape| == |ranges| && forall i :: 0 <= i < |chunkShape| ==> chunkShape[i] > 0
    ensures |box| == |ranges|
  {
    seq(|ranges|, i requires 0 <= i < |ranges| =>
      Range(AlignedStart(ranges[i].start, chunkShape[i]), AlignedStop(ranges[i].stop, chunkShape[i], shape[i])))
  }

  lemma {:induction false} EmptyIffZeroVolume(ranges: seq<Range>, shape: seq<nat>)
    requires Within(ranges, shape)
    ensures EmptyRequest(ranges) <==> Volume(Extent(ranges)) == 0
  {
    VolumeZero(Extent(ranges));
    if EmptyRequest(ranges) {
      var i :| 0 <= i < |ranges| && ranges[i].start == ranges[i].stop;
      assert Extent(ranges)[i] == 0;
    }
  }

  /** The widened box of a non-empty request meets the whole-chunk read's precondition
      and contains the request. */
  lemma {:induction false} AlignedBoxIsWholeChunks<T>(a: ChunkedArray<T>, ranges: seq<Range>)
    requires a.Valid() && Within(ranges, a.shape) && !EmptyRequest(ranges)
    requires forall i :: 0 <= i < |ranges| ==> RoundingFits(ranges[i].stop, a.chunkShape[i])
    ensures WholeChunks(a, AlignedBox(a.shape, a.chunkShape, ranges))
    ensures forall i :: 0 <= i < |ranges| ==>
                          && AlignedBox(a.shape, a.chunkShape, ranges)[i].start <= ranges[i].start
                          && ranges[i].stop <= AlignedBox(a.shape, a.chunkShape, ranges)[i].stop
  {
    forall i | 0 <= i < |ranges|
      ensures var r := AlignedBox(a.shape, a.chunkShape, ranges)[i];
              && r.start <= ranges[i].start <= ranges[i].stop <= r.stop <= a.shape[i]
              && r.start % a.chunkShape[i] == 0
              && (r.stop % a.chunkShape[i] == 0 || r.stop == a.shape[i])
    {
      AlignedAxis(ranges[i].start, ranges[i].stop, a.chunkShape[i], a.shape[i]);
    }
  }

  /** A position of the request, seen from the larger box. */
  lemma {:induction false} OffsetPosition(box: seq<Range>, ranges: seq<Range>, shape: seq<nat>,
                                          offsets: seq<nat>, j: seq<nat>)
    requires Within(box, shape) && Within(ranges, shape) && |offsets| == |ranges|
    requires forall i :: 0 <= i < |ranges| ==>
                           box[i].start + offsets[i] == ranges[i].start && ranges[i].stop <= box[i].stop
    requires InBounds(Extent(ranges), j)
    ensures InBounds(Extent(box), Add(offsets, j))
    ensures Add(Starts(box), Add(offsets, j)) == Add(Starts(ranges), j)
  {
    var p := Add(offsets, j);
    forall i | 0 <= i < |box| ensures p[i] < Extent(box)[i] {
      assert j[i] < Extent(ranges)[i];
    }
  }

  /** Cutting the request out of a listing of a larger box gives the request's own listing. */
  lemma {:induction false} SliceOfListing<T>(a: ChunkedArray<T>, box: seq<Range>, ranges: seq<Range>,
                                             offsets: seq<nat>, out: seq<T>)
    requires a.Valid() && Within(box, a.shape) && Within(ranges, a.shape) && |offsets| == |ranges|
    requires forall i :: 0 <= i < |ranges| ==>
                           box[i].start + offsets[i] == ranges[i].start && ranges[i].stop <= box[i].stop
    requires IsSlice(Listing(a, box), Extent(box), offsets, Extent(ranges), out)
    ensures out == Listing(a, ranges)
  {
    forall k | 0 <= k < |out| ensures out[k] == Listing(a, ranges)[k] {
      var j := Unflat(Extent(ranges), k);
      FlatUnflat(Extent(ranges), k);
      OffsetPosition(box, ranges, a.shape, offsets, j);
      ListingAt(a, ranges, j);
      ListingAt(a, box, Add(offsets, j));
    }
  }

  /** What has been pushed is the alignment of the axes before the `i`-th. */
  ghost predicate AlignedUpTo(shape: seq<nat>, chunkShape: seq<nat>, ranges: seq<Range>, i: nat,
                              alignedRanges: seq<Range>, offsets: seq<nat>, alignedShape: seq<nat>)
    requires |shape| == |chunkShape| == |ranges| && forall k :: 0 <= k < |chunkShape| ==> chunkShape[k] > 0
  {
    && |alignedRanges| == |offsets| == |alignedShape| == i <= |ranges|
    && forall k :: 0 <= k < i ==>
                     AlignsTo(shape[k], chunkShape[k], ranges[k], alignedRanges[k], offsets[k], alignedShape[k])
  }

  /** One axis: the widened range, the request's offset in it and its wrapped extent. */
  ghost predicate AlignsTo(dim: nat, cs: nat, range: Range, aligned: Range, offset: nat, extent: nat)
    requires cs > 0
  {
    && aligned == Range(AlignedStart(range.start, cs), AlignedStop(range.stop, cs, dim))
    && aligned.start + offset == range.start
    && extent == Wrap(aligned.stop - aligned.start)
  }

  /** The loop body. */
  method AlignAxis(dim: nat, chunk: nat, range: Range) returns (aligned: Range, offset: nat, extent: nat)
    requires chunk > 0
    ensures AlignsTo(dim, chunk, range, aligned, offset, extent)
  {
    var cs := if chunk >= 1 then chunk else 1;
    var alignedStart: int := AlignedStart(range.start, cs);
    var alignedStop: int := AlignedStop(range.stop, cs, dim);
    DivMulBounds(range.start, cs);
    return Range(alignedStart, alignedStop), range.start - alignedStart, Wrap(alignedStop - alignedStart);
  }

  /** The alignment loop: the widened box, and the request's offsets and shape in it. */
  method AlignRequest(shape: seq<nat>, chunkShape: seq<nat>, ranges: seq<Range>)
    returns (alignedRanges: seq<Range>, offsets: seq<nat>, requestShape: seq<nat>, alignedShape: seq<nat>)
    requires |chunkShape| == |shape| && (forall i :: 0 <= i < |chunkShape| ==> chunkShape[i] > 0)
    requires Within(ranges, shape)
    ensures alignedRanges == AlignedBox(shape, chunkShape, ranges) && requestShape == Extent(ranges)
    ensures |offsets| == |alignedShape| == |ranges|
    ensures forall k :: 0 <= k < |ranges| ==> alignedRanges[k].start + offsets[k] == ranges[k].start
    ensures forall k :: 0 <= k < |ranges| ==> alignedShape[k] == Wrap(alignedRanges[k].stop - alignedRanges[k].start)
  {
    alignedRanges, offsets, requestShape, alignedShape := [], [], [], [];
    for i := 0 to |ranges|
      invariant AlignedUpTo(shape, chunkShape, ranges, i, alignedRanges, offsets, alignedShape)
      invariant requestShape == Extent(ranges)[..i]
    {
      var aligned, offset, extent := AlignAxis(shape[i], chunkShape[i], ranges[i]);
      alignedRanges, offsets := alignedRanges + [aligned], offsets + [offset];
      requestShape := requestShape + [ranges[i].stop - ranges[i].start];
      alignedShape := alignedShape + [extent];
    }
  }

  lemma {:induction false} NoWrapInside(box: seq<Range>, shape: seq<nat>, alignedShape: seq<nat>)
    requires Within(box, shape) && |alignedShape| == |box| && forall i :: 0 <= i < |shape| ==> IsWord(shape[i])
    requires forall k :: 0 <= k < |box| ==> alignedShape[k] == Wrap(box[k].stop - box[k].start)
    ensures alignedShape == Extent(box)
  {
    forall k | 0 <= k < |box| ensures alignedShape[k] == Extent(box)[k] {
      assert IsWord(shape[k]);
    }
  }

  /** Rounding every stop up to a chunk boundary stays within a machine word. */
  predicate RequestFits(chunkShape: seq<nat>, ranges: seq<Range>)
    requires |chunkShape| == |ranges| && forall i :: 0 <= i < |chunkShape| ==> chunkShape[i] > 0
  {
    forall i :: 0 <= i < |ranges| ==> RoundingFits(ranges[i].stop, chunkShape[i])
  }

  ghost predicate Covers(box: seq<Range>, ranges: seq<Range>)
    requires |box| == |ranges|
  {
    forall i :: 0 <= i < |ranges| ==> box[i].start <= ranges[i].start && ranges[i].stop <= box[i].stop
  }

  /** The box asked of the store covers the request if and only if no rounding overflows. */
  lemma {:induction false} BoxCoversIffRequestFits<T>(a: ChunkedArray<T>, ranges: seq<Range>)
    requires a.Valid() && Within(ranges, a.shape) && !EmptyRequest(ranges)
    ensures Covers(AlignedBox(a.shape, a.chunkShape, ranges), ranges) <==> RequestFits(a.chunkShape, ranges)
  {
    forall i | 0 <= i < |ranges|
      ensures AlignedStart(ranges[i].start, a.chunkShape[i]) <= ranges[i].start
      ensures ranges[i].stop <= AlignedStop(ranges[i].stop, a.chunkShape[i], a.shape[i]) <==>
              RoundingFits(ranges[i].stop, a.chunkShape[i])
    {
      DivMulBounds(ranges[i].start, a.chunkShape[i]);
      assert IsWord(a.shape[i]) && IsWord(a.chunkShape[i]);
      AlignmentCoversIffRoundingFits(ranges[i].stop, a.chunkShape[i], a.shape[i]);
    }
  }

  /** The box asked of the store is the smallest: any other union of whole chunks that
      covers the request contains it. */
  lemma {:induction false} AlignedBoxIsSmallest<T>(a: ChunkedArray<T>, ranges: seq<Range>, other: seq<Range>)
    requires a.Valid() && Within(ranges, a.shape) && !EmptyRequest(ranges) && RequestFits(a.chunkShape, ranges)
    requires WholeChunks(a, other) && Covers(other, ranges)
    ensures Covers(other, AlignedBox(a.shape, a.chunkShape, ranges))
  {
    forall i | 0 <= i < |ranges|
      ensures other[i].start <= AlignedStart(ranges[i].start, a.chunkShape[i])
      ensures AlignedStop(ranges[i].stop, a.chunkShape[i], a.shape[i]) <= other[i].stop
    {
      var r, o := ranges[i], other[i];
      AlignedAxisIsSmallest(r.start, r.stop, a.chunkShape[i], a.shape[i], o.start, o.stop);
    }
  }

  /** Only a valid request without an empty axis reaches the store. */
  ghost predicate NeedsRead<T>(a: ChunkedArray<T>, ranges: seq<Range>)
    requires a.Valid()
  {
    Within(ranges, a.shape) && !EmptyRequest(ranges)
  }

  /** What `read_subset` returns, for every request. */
  ghost predicate ReadsAs<T>(a: ChunkedArray<T>, storeFails: bool, ranges: seq<Range>, r: Result<seq<T>, ReadError>)
    requires a.Valid()
  {
    if !Within(ranges, a.shape) then r.Failure? && Refusal(a.shape, ranges, r.error)
    else if EmptyRequest(ranges) then r == Success([]) && Listing(a, ranges) == []
    else
      var box := AlignedBox(a.shape, a.chunkShape, ranges);
      && (Covers(box, ranges) <==> RequestFits(a.chunkShape, ranges))
      && if !RequestFits(a.chunkShape, ranges) then r == Failure(AlignmentWrapped)
         else && WholeChunks(a, box)
              && r == if storeFails || Volume(Extent(box)) >= WORD_MODULUS then Failure(StoreReadFailed)
                      else Success(Listing(a, ranges))
  }

  /** The read. The store is asked for one box at most, which its log shows. What it
      answers when that box does not cover the request is unknown; the source does not
      notice, and AlignmentWrapped stands for whatever comes of it. */
  method ReadSubset<T>(handle: StoredArray<T>, ranges: seq<Range>) returns (r: Result<seq<T>, ReadError>)
    requires handle.content.Valid()
    requires forall i :: 0 <= i < |ranges| ==> IsWord(ranges[i].start) && IsWord(ranges[i].stop)
    modifies handle
    ensures ReadsAs(handle.content, handle.fails, ranges, r)
    ensures handle.log == old(handle.log) + if NeedsRead(handle.content, ranges)
                          then [AlignedBox(handle.content.shape, handle.content.chunkShape, ranges)]
                          else []
  {
    var a := handle.content;
    var fault := Validate(a.shape, ranges);
    if fault.Some? {
      return Failure(fault.value);
    }
    var isEmpty := exists i :: 0 <= i < |ranges| && ranges[i].start == ranges[i].stop;
    EmptyIffZeroVolume(ranges, a.shape);

    var alignedRanges, requestOffsets, requestShape, alignedShape := AlignRequest(a.shape, a.chunkShape, ranges);
    var elements: seq<T> := [];
    if !isEmpty {
      BoxCoversIffRequestFits(a, ranges);
      if !RequestFits(a.chunkShape, ranges) {
        handle.RetrieveOffGrid(alignedRanges);
        return Failure(AlignmentWrapped);
      }
      AlignedBoxIsWholeChunks(a, ranges);
      NoWrapInside(alignedRanges, a.shape, alignedShape);
      var read := handle.RetrieveArraySubset(alignedRanges);
      if read.None? {
        return Failure(StoreReadFailed);
      }
      elements := read.value;
    }
    var sliced := SliceNd(elements, alignedShape, requestOffsets, requestShape);
    if !isEmpty {
      SliceOfListing(a, alignedRanges, ranges, requestOffsets, sliced);
    }
    return Success(sliced);
  }


  /** A successful read of one whole chunk returns what the store holds of it. */
  lemma {:induction false} ReadOfOneChunk<T>(a: ChunkedArray<T>, storeFails: bool, c: seq<nat>,
                                             r: Result<seq<T>, ReadError>)
    requires a.Valid() && |c| == |a.shape| && Within(ChunkBox(a, c), a.shape)
    requires ReadsAs(a, storeFails, ChunkBox(a, c), r) && r.Success?
    ensures r.value == if c in a.chunks then a.chunks[c] else seq(Volume(a.chunkShape), _ => a.fill)
  {
    ChunkListing(a, c);
  }
}
