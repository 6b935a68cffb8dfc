/** `slice_nd` (src/array.rs): cut a hyperrectangle out of a flat row-major buffer. */
module Slicing {
  import opened MachineWords
  import opened RowMajor

  /** `out` is the row-major listing of the box of shape `outShape` placed at
      `offsets` inside the row-major buffer `elements` of shape `alignedShape`. */
  ghost predicate IsSlice<T>(elements: seq<T>, alignedShape: seq<nat>, offsets: seq<nat>, outShape: seq<nat>,
                             out: seq<T>)
    requires |alignedShape| == |offsets| == |outShape|
  {
    && |out| == Volume(outShape)
    && forall j | InBounds(outShape, j) ::
         && Flat(outShape, j) < |out|
         && Flat(alignedShape, Add(offsets, j)) < |elements|
         && out[Flat(outShape, j)] == elements[Flat(alignedShape, Add(offsets, j))]
  }

  /** Every axis of the requested box lies inside the buffer's box. */
  ghost predicate FitsInside(offsets: seq<nat>, outShape: seq<nat>, alignedShape: seq<nat>)
    requires |alignedShape| == |offsets| == |outShape|
  {
    forall i :: 0 <= i < |offsets| ==> offsets[i] + outShape[i] <= alignedShape[i]
  }

  /** A slice is determined by its four inputs. */
  lemma {:induction false} SliceUnique<T>(elements: seq<T>, alignedShape: seq<nat>, offsets: seq<nat>,
                                          outShape: seq<nat>,
                                          a: seq<T>, b: seq<T>)
    requires |alignedShape| == |offsets| == |outShape|
    requires IsSlice(elements, alignedShape, offsets, outShape, a)
    requires IsSlice(elements, alignedShape, offsets, outShape, b)
    ensures a == b
  {
    forall k | 0 <= k < |a| ensures a[k] == b[k] {
      var j := Unflat(outShape, k);
      FlatUnflat(outShape, k);
      assert InBounds(outShape, j);
    }
  }

  lemma {:induction false} VolumeMono(small: seq<nat>, big: seq<nat>)
    requires |small| == |big| && forall i :: 0 <= i < |small| ==> small[i] <= big[i]
    ensures Volume(small) <= Volume(big)
  {
    if small == [] {
    } else {
      VolumeMono(small[1..], big[1..]);
      MulMono(small[0], big[0], Volume(small[1..]));
      MulMono(Volume(small[1..]), Volume(big[1..]), big[0]);
      assert big[0] * Volume(small[1..]) == Volume(small[1..]) * big[0];
    }
  }

  /** The dot product with the strides, seen from axis `i` on. */
  lemma {:induction false} FlatStep(shape: seq<nat>, idx: seq<nat>, i: nat)
    requires |shape| == |idx| && i < |shape|
    ensures Flat(shape[i..], idx[i..]) == idx[i] * Volume(shape[i + 1..]) + Flat(shape[i + 1..], idx[i + 1..])
  {
    assert shape[i..][1..] == shape[i + 1..] && idx[i..][1..] == idx[i + 1..];
  }

  /** Advancing the position within the trailing axes advances it by as much overall. */
  lemma {:induction false} SuffixStep(shape: seq<nat>, before: seq<nat>, after: seq<nat>, axis: nat, step: int)
    requires |shape| == |before| == |after| && axis <= |shape|
    requires before[..axis] == after[..axis]
    requires Flat(shape[axis..], after[axis..]) == Flat(shape[axis..], before[axis..]) + step
    ensures Flat(shape, after) == Flat(shape, before) + step
  {
    if axis == 0 {
      assert shape[0..] == shape && before[0..] == before && after[0..] == after;
    } else {
      assert before[0] == before[..axis][0] == after[..axis][0] == after[0];
      assert shape[1..][axis - 1..] == shape[axis..];
      assert before[1..][axis - 1..] == before[axis..] && after[1..][axis - 1..] == after[axis..];
      assert before[1..][..axis - 1] == before[..axis][1..] == after[..axis][1..] == after[1..][..axis - 1];
      SuffixStep(shape[1..], before[1..], after[1..], axis - 1, step);
    }
  }

  lemma {:induction false} FlatZeros(shape: seq<nat>, idx: seq<nat>)
    requires |shape| == |idx| && forall i :: 0 <= i < |idx| ==> idx[i] == 0
    ensures Flat(shape, idx) == 0
  {
    if shape == [] {
    } else {
      FlatZeros(shape[1..], idx[1..]);
    }
  }

  lemma {:induction false} VolumeStep(shape: seq<nat>, i: nat)
    requires i < |shape|
    ensures Volume(shape[i..]) == shape[i] * Volume(shape[i + 1..]) == Volume(shape[i + 1..]) * shape[i]
  {
    assert shape[i..][1..] == shape[i + 1..];
  }

  /** Bumping one axis while every later one rolls over from its last value to zero
      moves the row-major position by exactly one. */
  lemma {:induction false} BumpAxis(shape: seq<nat>, before: seq<nat>, after: seq<nat>, axis: nat)
    requires |shape| == |before| == |after| && axis < |shape|
    requires before[..axis] == after[..axis] && after[axis] == before[axis] + 1
    requires forall i :: axis < i < |after| ==> after[i] == 0
    requires Flat(shape[axis + 1..], before[axis + 1..]) + 1 == Volume(shape[axis + 1..])
    ensures Flat(shape, after) == Flat(shape, before) + 1
  {
    FlatZeros(shape[axis + 1..], after[axis + 1..]);
    BumpDigit(shape[axis..], before[axis..], after[axis..]);
    SuffixStep(shape, before, after, axis, 1);
  }

  lemma {:induction false} BumpStaysInBounds(shape: seq<nat>, before: seq<nat>, after: seq<nat>, axis: nat)
    requires InBounds(shape, before) && |after| == |shape| && axis < |shape|
    requires before[..axis] == after[..axis] && after[axis] == before[axis] + 1 < shape[axis]
    requires forall i :: axis < i < |after| ==> after[i] == 0
    ensures InBounds(shape, after) && Flat(shape, after) < Volume(shape)
  {
    forall i | 0 <= i < |shape| ensures after[i] < shape[i] {
      if i < axis {
        assert after[i] == after[..axis][i] == before[..axis][i] == before[i];
      } else if i > axis {
        assert before[i] < shape[i];
      }
    }
    FlatInRange(shape, after);
  }

  lemma {:induction false} BumpDigit(shape: seq<nat>, before: seq<nat>, after: seq<nat>)
    requires |shape| == |before| == |after| > 0
    requires after[0] == before[0] + 1 && Flat(shape[1..], after[1..]) == 0
    requires Flat(shape[1..], before[1..]) + 1 == Volume(shape[1..])
    ensures Flat(shape, after) == Flat(shape, before) + 1
  {
    Distribute(before[0], Volume(shape[1..]));
  }

  /** A multi-index at the last value of every axis from `axis` on is the last of its box. */
  lemma {:induction false} LastOfSuffix(shape: seq<nat>, idx: seq<nat>, axis: nat)
    requires |shape| == |idx| && axis < |shape|
    requires idx[axis] + 1 == shape[axis]
    requires Flat(shape[axis + 1..], idx[axis + 1..]) + 1 == Volume(shape[axis + 1..])
    ensures Flat(shape[axis..], idx[axis..]) + 1 == Volume(shape[axis..])
  {
    FlatStep(shape, idx, axis);
    VolumeStep(shape, axis);
    Distribute(idx[axis], Volume(shape[axis + 1..]));
  }

  /** One step of the odometer, in place: the multi-index after `idx`, last axis
      first, carrying upwards; the last one rolls over to all zeros. */
  method Advance(idx: array<nat>, outShape: seq<nat>)
    requires idx.Length == |outShape| && InBounds(outShape, idx[..])
    modifies idx
    ensures InBounds(outShape, idx[..])
    ensures Flat(outShape, old(idx[..])) + 1 < Volume(outShape)
            ==> Flat(outShape, idx[..]) == Flat(outShape, old(idx[..])) + 1
    ensures Flat(outShape, old(idx[..])) + 1 == Volume(outShape) ==> Flat(outShape, idx[..]) == 0
  {
    ghost var start := idx[..];
    var axis := idx.Length;
    while axis > 0
      invariant 0 <= axis <= idx.Length
      invariant idx[..axis] == start[..axis]
      invariant forall i :: axis <= i < idx.Length ==> idx[i] == 0
      invariant Flat(outShape[axis..], start[axis..]) + 1 == Volume(outShape[axis..])
    {
      axis := axis - 1;
      assert idx[axis] == idx[..axis + 1][axis] == start[axis];
      idx[axis] := idx[axis] + 1;
      if idx[axis] < outShape[axis] {
        BumpStaysInBounds(outShape, start, idx[..], axis);
        BumpAxis(outShape, start, idx[..], axis);
        return;
      }
      LastOfSuffix(outShape, start, axis);
      idx[axis] := 0;
    }
    assert start[0..] == start && outShape[0..] == outShape;
    FlatZeros(outShape, idx[..]);
  }

  /** `shape.iter().product()` in machine words: exact unless the true product
      overflows, and still zero as soon as some axis is empty. */
  method WrappingProduct(shape: seq<nat>) returns (total: nat)
    ensures Volume(shape) < WORD_MODULUS ==> total == Volume(shape)
  {
    total := 1;
    VolumeZero(shape);
    for i := 0 to |shape|
      invariant 0 < Volume(shape) < WORD_MODULUS ==> total == Volume(shape[..i])
      invariant 0 in shape[..i] ==> total == 0
    {
      assert shape[..i + 1] == shape[..i] + [shape[i]];
      VolumeAppend(shape[..i], shape[i]);
      if Volume(shape) > 0 { VolumePrefix(shape, i + 1); }
      total := Wrap(total * shape[i]);
    }
    assert shape[..|shape|] == shape;
  }

  /** The row-major strides: each axis's is the volume of the later axes. */
  ghost predicate AreStrides(shape: seq<nat>, strides: seq<nat>)
  {
    |strides| == |shape| && forall j :: 0 <= j < |shape| ==> strides[j] == Volume(shape[j + 1..])
  }

  /** Row-major strides of the source buffer, filled from the last axis backwards. */
  method RowMajorStrides(shape: seq<nat>) returns (strides: array<nat>)
    ensures fresh(strides) && strides.Length == |shape|
    ensures 0 < Volume(shape) < WORD_MODULUS ==> AreStrides(shape, strides[..])
  {
    var n := |shape|;
    strides := new nat[n](_ => 1);
    var i := if n == 0 then 0 else n - 1;
    while i > 0
      invariant 0 <= i <= n && (n > 0 ==> i < n)
      invariant 0 < Volume(shape) < WORD_MODULUS ==>
                  forall j :: i <= j < n ==> strides[j] == Volume(shape[j + 1..])
    {
      i := i - 1;
      if 0 < Volume(shape) {
        VolumeSuffix(shape, i + 1);
      }
      VolumeStep(shape, i + 1);
      strides[i] := Wrap(strides[i + 1] * shape[i + 1]);
    }
  }

  /** The dot product's first `n` terms, in unbounded arithmetic. */
  function PartialSum(strides: seq<nat>, pos: seq<nat>, n: nat): nat
    requires n <= |strides| == |pos|
  {
    if n == 0 then 0 else PartialSum(strides, pos, n - 1) + pos[n - 1] * strides[n - 1]
  }

  /** No position, term or partial sum of the dot product reaches `bound`, so none of
      the machine-word operations that compute it wraps. */
  ghost predicate StaysBelow(bound: nat, strides: seq<nat>, pos: seq<nat>)
    requires |strides| == |pos|
  {
    && (forall i :: 0 <= i < |pos| ==> pos[i] < bound && pos[i] * strides[i] < bound)
    && (forall n :: 0 <= n <= |pos| ==> PartialSum(strides, pos, n) < bound)
  }

  /** The terms still to come are the position within the trailing axes. */
  lemma {:induction false} PartialSumIs(shape: seq<nat>, strides: seq<nat>, pos: seq<nat>, n: nat)
    requires AreStrides(shape, strides) && |pos| == |shape| && n <= |shape|
    ensures PartialSum(strides, pos, n) + Flat(shape[n..], pos[n..]) == Flat(shape, pos)
  {
    if n == 0 {
      assert shape[0..] == shape && pos[0..] == pos;
    } else {
      PartialSumIs(shape, strides, pos, n - 1);
      FlatStep(shape, pos, n - 1);
    }
  }

  lemma {:induction false} DotStaysBelow(shape: seq<nat>, strides: seq<nat>, pos: seq<nat>)
    requires AreStrides(shape, strides) && InBounds(shape, pos)
    ensures PartialSum(strides, pos, |pos|) == Flat(shape, pos) < Volume(shape)
    ensures StaysBelow(Volume(shape), strides, pos)
  {
    FlatInRange(shape, pos);
    PartialSumIs(shape, strides, pos, |pos|);
    forall n | 0 <= n <= |pos| ensures PartialSum(strides, pos, n) < Volume(shape) {
      PartialSumIs(shape, strides, pos, n);
    }
    forall i | 0 <= i < |pos| ensures pos[i] < Volume(shape) && pos[i] * strides[i] < Volume(shape) {
      PartialSumIs(shape, strides, pos, i + 1);
      VolumeSuffix(shape, i + 1);
      MulMono(1, strides[i], pos[i]);
      assert pos[i] * strides[i] == strides[i] * pos[i];
    }
  }

  lemma {:induction false} NextTerm(bound: nat, strides: seq<nat>, pos: seq<nat>, i: nat)
    requires |strides| == |pos| && StaysBelow(bound, strides, pos) && bound <= WORD_MODULUS && i < |pos|
    ensures Wrap(pos[i]) == pos[i] && Wrap(pos[i] * strides[i]) == pos[i] * strides[i]
    ensures Wrap(PartialSum(strides, pos, i) + pos[i] * strides[i]) == PartialSum(strides, pos, i + 1)
  {
    assert PartialSum(strides, pos, i + 1) < bound;
  }

  /** The loop, in machine words. */
  method DotProduct(ghost bound: nat, offsets: seq<nat>, idx: array<nat>, strides: array<nat>) returns (src: nat)
    requires |offsets| == idx.Length == strides.Length && bound <= WORD_MODULUS
    requires StaysBelow(bound, strides[..], Add(offsets, idx[..]))
    ensures src == PartialSum(strides[..], Add(offsets, idx[..]), |offsets|)
  {
    ghost var pos := Add(offsets, idx[..]);
    src := 0;
    for i := 0 to |offsets|
      invariant src == PartialSum(strides[..], pos, i)
    {
      NextTerm(bound, strides[..], pos, i);
      src := Wrap(src + Wrap(Wrap(offsets[i] + idx[i]) * strides[i]));
    }
  }

  /** The dot product of a position with the strides: the row-major position, with every
      term and every partial sum below the buffer's length. */
  method SourceIndex(shape: seq<nat>, offsets: seq<nat>, idx: array<nat>, strides: array<nat>) returns (src: nat)
    requires |shape| == |offsets| == idx.Length && AreStrides(shape, strides[..])
    requires Volume(shape) < WORD_MODULUS && InBounds(shape, Add(offsets, idx[..]))
    ensures src == Flat(shape, Add(offsets, idx[..])) < Volume(shape)
    ensures StaysBelow(Volume(shape), strides[..], Add(offsets, idx[..]))
  {
    DotStaysBelow(shape, strides[..], Add(offsets, idx[..]));
    src := DotProduct(Volume(shape), offsets, idx, strides);
  }

  /** The slicer. A request with an empty axis may come with no elements at all. */
  method SliceNd<T>(elements: seq<T>, alignedShape: seq<nat>, offsets: seq<nat>, outShape: seq<nat>)
    returns (out: seq<T>)
    requires |alignedShape| == |offsets| == |outShape|
    requires |elements| < WORD_MODULUS
    requires Volume(outShape) > 0 ==> |elements| == Volume(alignedShape) && FitsInside(offsets, outShape, alignedShape)
    requires Volume(outShape) == 0 ==> elements == [] || |elements| == Volume(alignedShape)
    ensures IsSlice(elements, alignedShape, offsets, outShape, out)
  {
    var n := |alignedShape|;
    if alignedShape == outShape && forall i :: 0 <= i < n ==> offsets[i] == 0 {
      forall j | InBounds(outShape, j) ensures Add(offsets, j) == j && Flat(outShape, j) < Volume(outShape) {
        FlatInRange(outShape, j);
      }
      return elements;
    }
    if Volume(outShape) > 0 { VolumeMono(outShape, alignedShape); }
    var totalOut := WrappingProduct(outShape);
    var srcStrides := RowMajorStrides(alignedShape);

    out := [];
    var idx := new nat[n](_ => 0);
    FlatZeros(outShape, idx[..]);
    VolumeZero(outShape);
    for k := 0 to totalOut
      invariant totalOut > 0 ==> AreStrides(alignedShape, srcStrides[..])
      invariant |out| == k
      invariant totalOut > 0 ==> InBounds(outShape, idx[..])
      invariant k < totalOut ==> Flat(outShape, idx[..]) == k
      invariant forall j | InBounds(outShape, j) && Flat(outShape, j) < k ::
          && Flat(alignedShape, Add(offsets, j)) < |elements|
          && out[Flat(outShape, j)] == elements[Flat(alignedShape, Add(offsets, j))]
    {
      ghost var here := idx[..];
      var src := SourceIndex(alignedShape, offsets, idx, srcStrides);
      out := out + [elements[src]];
      forall j | InBounds(outShape, j) && Flat(outShape, j) == k ensures j == here {
        FlatInjective(outShape, j, here);
      }
      Advance(idx, outShape);
    }
    forall j | InBounds(outShape, j) ensures Flat(outShape, j) < totalOut {
      FlatInRange(outShape, j);
    }
  }
}
