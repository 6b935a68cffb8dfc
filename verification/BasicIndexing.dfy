/** `RustyBackendArray._raw_indexing_method` (python/rustytree/_array.py): turn a basic
    NumPy key into ranges, read them, and reshape. The reference is NumPy's own
    reading of the key, stated element by element. */
module BasicIndexing {
  import opened ChunkedArrays
  import opened MachineWords
  import opened Reader
  import opened RowMajor
  import opened Slicing
  import opened Wrappers

  datatype Entry =
    | Slice(start: Option<int>, stop: Option<int>, step: Option<int>)
    | Integer(index: int)

  datatype IndexingError =
    | KeyRankMismatch
    | ZeroStep
    | SteppedSlice(axis: nat)
    | NotAWord
    | Read(error: ReadError)

  /** A row-major n-dimensional array. */
  datatype NDArray<T> = NDArray(shape: seq<nat>, data: seq<T>)

  // ----- what NumPy means by a key -----

  function FromEnd(i: int, dim: nat): int
  {
    if i < 0 then i + dim else i
  }

  /** Position `i` of an axis is selected by `start:stop`; either end may be missing,
      count from the end, or lie outside the axis. */
  predicate Selects(start: Option<int>, stop: Option<int>, dim: nat, i: nat)
  {
    && (start.Some? ==> FromEnd(start.value, dim) <= i)
    && (stop.Some? ==> i < FromEnd(stop.value, dim))
  }

  /** The selected positions below `n`, in ascending order. */
  function Selected(start: Option<int>, stop: Option<int>, dim: nat, n: nat): seq<nat>
  {
    if n == 0 then []
    else Selected(start, stop, dim, n - 1) + if Selects(start, stop, dim, n - 1) then [n - 1] else []
  }

  predicate UnitStep(step: Option<int>)
  {
    step.None? || step.value == 1
  }

  /** Unit-step slices of any endpoints and in-range signed integers, one per axis. */
  ghost predicate ValidKey(key: seq<Entry>, shape: seq<nat>)
  {
    |key| == |shape| && forall i :: 0 <= i < |key| ==> ValidEntry(key[i], shape[i])
  }

  predicate ValidEntry(e: Entry, dim: nat)
  {
    match e
    case Slice(_, _, step) => UnitStep(step)
    case Integer(index) => 0 <= index + dim && index < dim
  }

  /** Integer entries drop their axis; slices keep as many positions as they select. */
  function ResultShape(key: seq<Entry>, shape: seq<nat>): seq<nat>
    requires |key| == |shape|
  {
    if key == [] then []
    else
      var rest := ResultShape(key[1..], shape[1..]);
      match key[0]
      case Integer(_) => rest
      case Slice(start, stop, _) => [|Selected(start, stop, shape[0], shape[0])|] + rest
  }

  /** The array position a result position refers to. */
  ghost function SourcePosition(key: seq<Entry>, shape: seq<nat>, j: seq<nat>): seq<int>
    requires |key| == |shape| && InBounds(ResultShape(key, shape), j)
  {
    if key == [] then []
    else
      match key[0]
      case Integer(index) => [FromEnd(index, shape[0])] + SourcePosition(key[1..], shape[1..], j)
      case Slice(start, stop, _) =>
        var all := Selected(start, stop, shape[0], shape[0]);
        assert ResultShape(key, shape)[1..] == ResultShape(key[1..], shape[1..]);
        [all[j[0]]] + SourcePosition(key[1..], shape[1..], j[1..])
  }

  ghost predicate IsPosition(shape: seq<nat>, p: seq<int>)
  {
    |p| == |shape| && forall i :: 0 <= i < |shape| ==> 0 <= p[i] < shape[i]
  }

  ghost function AsIndex(shape: seq<nat>, p: seq<int>): (idx: seq<nat>)
    requires IsPosition(shape, p)
    ensures InBounds(shape, idx) && forall i :: 0 <= i < |p| ==> idx[i] == p[i]
  {
    seq(|p|, i requires 0 <= i < |p| => p[i])
  }

  /** `r` is `array[key]`: the right shape, and every element from the right place. */
  ghost predicate IsBasicIndex<T>(a: ChunkedArray<T>, key: seq<Entry>, r: NDArray<T>)
    requires a.Valid() && |key| == |a.shape|
  {
    && r.shape == ResultShape(key, a.shape)
    && |r.data| == Volume(r.shape)
    && forall j | InBounds(r.shape, j) ::
         && Flat(r.shape, j) < |r.data|
         && IsPosition(a.shape, SourcePosition(key, a.shape, j))
         && r.data[Flat(r.shape, j)] == a.At(AsIndex(a.shape, SourcePosition(key, a.shape, j)))
  }

  /** There is only one such array. */
  lemma {:induction false} BasicIndexUnique<T>(a: ChunkedArray<T>, key: seq<Entry>, r: NDArray<T>, s: NDArray<T>)
    requires a.Valid() && |key| == |a.shape| && IsBasicIndex(a, key, r) && IsBasicIndex(a, key, s)
    ensures r == s
  {
    forall k | 0 <= k < |r.data| ensures r.data[k] == s.data[k] {
      FlatUnflat(r.shape, k);
      assert InBounds(r.shape, Unflat(r.shape, k));
    }
  }

  // ----- the same, spelled out -----

  /** NumPy's slice bounds: a bound counts from the front if it is not negative and from
      the end otherwise; a missing one is no bound. */
  ghost predicate Between(start: Option<int>, stop: Option<int>, dim: nat, i: int)
  {
    && 0 <= i < dim
    && (match start case None => true case Some(s) => (if s >= 0 then s else dim + s) <= i)
    && (match stop case None => true case Some(t) => i < (if t >= 0 then t else dim + t))
  }

  lemma {:induction false} InSelected(start: Option<int>, stop: Option<int>, dim: nat, n: nat, i: nat)
    ensures i in Selected(start, stop, dim, n) <==> i < n && Selects(start, stop, dim, i)
  {
    if n == 0 {
    } else {
      InSelected(start, stop, dim, n - 1, i);
    }
  }

  /** A slice selects exactly the positions between its bounds, in ascending order. */
  lemma {:induction false} SliceSelects(start: Option<int>, stop: Option<int>, dim: nat)
    ensures forall i: nat :: i in Selected(start, stop, dim, dim) <==> Between(start, stop, dim, i)
    ensures forall a, b :: 0 <= a < b < |Selected(start, stop, dim, dim)| ==>
                             Selected(start, stop, dim, dim)[a] < Selected(start, stop, dim, dim)[b]
  {
    forall i: nat ensures i in Selected(start, stop, dim, dim) <==> Between(start, stop, dim, i) {
      InSelected(start, stop, dim, dim, i);
    }
    SelectedAscends(start, stop, dim, dim);
  }

  lemma {:induction false} SelectedAscends(start: Option<int>, stop: Option<int>, dim: nat, n: nat)
    ensures forall a, b :: 0 <= a < b < |Selected(start, stop, dim, n)| ==>
                             Selected(start, stop, dim, n)[a] < Selected(start, stop, dim, n)[b]
    ensures forall a :: 0 <= a < |Selected(start, stop, dim, n)| ==> Selected(start, stop, dim, n)[a] < n
  {
    if n == 0 {
    } else {
      SelectedAscends(start, stop, dim, n - 1);
    }
  }

  /** Valid keys: steps of one, written or not, and integers from `-dim` up to `dim`. */
  lemma {:induction false} ValidKeyMeans(key: seq<Entry>, shape: seq<nat>)
    ensures ValidKey(key, shape) <==>
            && |key| == |shape|
            && forall i :: 0 <= i < |key| ==>
                             match key[i]
                             case Slice(_, _, step) => step == None || step == Some(1)
                             case Integer(index) => -shape[i] <= index < shape[i]
  {}

  /** How many slices come before the `i`-th entry: the result axis a slice there gets. */
  function SlicesBefore(key: seq<Entry>, i: nat): (n: nat)
    requires i <= |key|
    ensures n <= i
  {
    if i == 0 then 0 else SlicesBefore(key, i - 1) + if key[i - 1].Slice? then 1 else 0
  }

  lemma {:induction false} SlicesBeforeStep(key: seq<Entry>, i: nat)
    requires 0 < i <= |key|
    ensures SlicesBefore(key, i) == SlicesBefore(key[1..], i - 1) + if key[0].Slice? then 1 else 0
  {
    if i == 1 {
    } else {
      SlicesBeforeStep(key, i - 1);
    }
  }

  /** The first entry's share of the result shape and of the array position. */
  lemma {:induction false} KeyStep(key: seq<Entry>, shape: seq<nat>, j: seq<nat>) returns (tail: seq<nat>)
    requires |key| == |shape| > 0 && InBounds(ResultShape(key, shape), j)
    ensures InBounds(ResultShape(key[1..], shape[1..]), tail)
    ensures match key[0]
            case Integer(index) =>
              && tail == j && ResultShape(key, shape) == ResultShape(key[1..], shape[1..])
              && SourcePosition(key, shape, j) ==
                 [if index >= 0 then index else shape[0] + index] + SourcePosition(key[1..], shape[1..], tail)
            case Slice(start, stop, _) =>
              var all := Selected(start, stop, shape[0], shape[0]);
              && j != [] && tail == j[1..] && j[0] < |all|
              && ResultShape(key, shape) == [|all|] + ResultShape(key[1..], shape[1..])
              && SourcePosition(key, shape, j) == [all[j[0]]] + SourcePosition(key[1..], shape[1..], tail)
  {
    tail := if key[0].Integer? then j else j[1..];
    if key[0].Slice? {
      assert ResultShape(key, shape)[1..] == ResultShape(key[1..], shape[1..]);
    }
  }

  lemma {:induction false} OneAxisPerSlice(key: seq<Entry>, shape: seq<nat>)
    requires |key| == |shape|
    ensures |ResultShape(key, shape)| == SlicesBefore(key, |key|)
  {
    if key == [] {
    } else {
      OneAxisPerSlice(key[1..], shape[1..]);
      SlicesBeforeStep(key, |key|);
    }
  }

  /** What entry `i` of the key says of the array position `p` that result position `j`
      of shape `result` comes from. */
  ghost predicate EntryMeans(key: seq<Entry>, shape: seq<nat>, i: nat, result: seq<nat>, j: seq<nat>, p: seq<int>)
    requires i < |key| == |shape|
  {
    var k := SlicesBefore(key, i);
    && |p| == |key| && |result| == |j|
    && match key[i]
       case Integer(index) => p[i] == if index >= 0 then index else shape[i] + index
       case Slice(start, stop, _) =>
         var all := Selected(start, stop, shape[i], shape[i]);
         k < |j| && result[k] == |all| && j[k] < |all| && p[i] == all[j[k]]
  }

  /** What the later entries mean for the rest of the key, they mean for the whole. */
  lemma {:induction false} EntryMeansLater(key: seq<Entry>, shape: seq<nat>, i: nat, result: seq<nat>, j: seq<nat>,
                                           p: seq<int>, resultTail: seq<nat>, tail: seq<nat>, pTail: seq<int>)
    requires 0 < i < |key| == |shape| && |p| > 0 && p[1..] == pTail
    requires EntryMeans(key[1..], shape[1..], i - 1, resultTail, tail, pTail)
    requires key[0].Integer? ==> result == resultTail && j == tail
    requires key[0].Slice? ==> result != [] && j != [] && result[1..] == resultTail && j[1..] == tail
    ensures EntryMeans(key, shape, i, result, j, p)
  {
    SlicesBeforeStep(key, i);
    assert key[1..][i - 1] == key[i] && shape[1..][i - 1] == shape[i] && pTail[i - 1] == p[i];
  }

  /** The result has one axis per slice, as long as the slice selects positions; and along
      axis `i` of the array, position `j` of the result comes from where the key says. */
  lemma {:induction false} KeyMeans(key: seq<Entry>, shape: seq<nat>, j: seq<nat>, i: nat)
    requires |key| == |shape| && InBounds(ResultShape(key, shape), j) && i < |key|
    ensures |ResultShape(key, shape)| == SlicesBefore(key, |key|)
    ensures EntryMeans(key, shape, i, ResultShape(key, shape), j, SourcePosition(key, shape, j))
  {
    OneAxisPerSlice(key, shape);
    var tail := KeyStep(key, shape, j);
    if i > 0 {
      KeyMeans(key[1..], shape[1..], tail, i - 1);
      EntryMeansLater(key, shape, i, ResultShape(key, shape), j, SourcePosition(key, shape, j),
                      ResultShape(key[1..], shape[1..]), tail, SourcePosition(key[1..], shape[1..], tail));
    } else {
      SourceRank(key, shape, j);
    }
  }

  lemma {:induction false} SourceRank(key: seq<Entry>, shape: seq<nat>, j: seq<nat>)
    requires |key| == |shape| && InBounds(ResultShape(key, shape), j)
    ensures |SourcePosition(key, shape, j)| == |key|
  {
    if key == [] {
    } else {
      var tail := KeyStep(key, shape, j);
      SourceRank(key[1..], shape[1..], tail);
    }
  }

  // ----- what the adapter computes -----

  /** Python's `slice.indices(dim)` for a unit step. */
  function ClampedEnd(end: Option<int>, dim: nat, missing: nat): (r: nat)
    requires missing <= dim
    ensures r <= dim
  {
    if end.None? then missing
    else
      var e := FromEnd(end.value, dim);
      if e < 0 then 0 else if e > dim then dim else e
  }

  function Max(a: int, b: int): int
  {
    if a >= b then a else b
  }

  /** The (start, stop) pair appended for one entry. */
  function EntryRange(e: Entry, dim: nat): (int, int)
  {
    match e
    case Slice(start, stop, _) =>
      var lo := ClampedEnd(start, dim, 0);
      (lo, Max(lo, ClampedEnd(stop, dim, dim)))
    case Integer(index) =>
      var i := FromEnd(index, dim);
      (i, i + 1)
  }

  /** Clamping and folding reversed slices selects exactly the positions NumPy means. */
  lemma {:induction false} SelectedIsRange(start: Option<int>, stop: Option<int>, dim: nat, n: nat)
    requires n <= dim
    ensures var lo := ClampedEnd(start, dim, 0);
            var hi := ClampedEnd(stop, dim, dim);
            var all := Selected(start, stop, dim, n);
            var top := if n <= hi then n else hi;
            && |all| == (if lo <= top then top - lo else 0)
            && forall k :: 0 <= k < |all| ==> all[k] == lo + k
  {
    if n > 0 {
      SelectedIsRange(start, stop, dim, n - 1);
    }
  }

  function RangesOf(key: seq<Entry>, shape: seq<nat>): (r: seq<(int, int)>)
    requires |key| == |shape|
    ensures |r| == |key|
  {
    seq(|key|, i requires 0 <= i < |key| => EntryRange(key[i], shape[i]))
  }

  /** Drop the listed axes: the shape after `squeeze`. */
  function DropAxes(shape: seq<nat>, axes: seq<nat>, from: nat): seq<nat>
    requires from <= |shape|
    decreases |shape| - from
  {
    if from == |shape| then []
    else (if from in axes then [] else [shape[from]]) + DropAxes(shape, axes, from + 1)
  }

  /** NumPy's `squeeze`: only extent-1 axes can go, and the data stays as it is. */
  function Squeeze<T>(a: NDArray<T>, axes: seq<nat>): (r: NDArray<T>)
    requires forall k :: 0 <= k < |axes| ==> axes[k] < |a.shape| && a.shape[axes[k]] == 1
  {
    NDArray(DropAxes(a.shape, axes, 0), a.data)
  }

  /** A valid key's ranges pass `read_subset`'s checks. */
  lemma {:induction false} ValidKeyInRange(e: Entry, dim: nat)
    requires ValidEntry(e, dim)
    ensures 0 <= EntryRange(e, dim).0 <= EntryRange(e, dim).1 <= dim
    ensures e.Integer? ==> EntryRange(e, dim).1 == EntryRange(e, dim).0 + 1
    ensures e.Slice? ==> |Selected(e.start, e.stop, dim, dim)| == EntryRange(e, dim).1 - EntryRange(e, dim).0
  {
    if e.Slice? {
      SelectedIsRange(e.start, e.stop, dim, dim);
    }
  }

  ghost predicate RangesMatch(key: seq<Entry>, shape: seq<nat>, box: seq<Range>)
  {
    && |key| == |shape| == |box|
    && forall i :: 0 <= i < |key| ==> (box[i].start as int, box[i].stop as int) == EntryRange(key[i], shape[i])
  }

  lemma {:induction false} ShapesStep(key: seq<Entry>, shape: seq<nat>, box: seq<Range>)
    requires key != [] && ValidKey(key, shape) && RangesMatch(key, shape, box) && Within(box, shape)
    ensures Extent(box) == [Extent(box)[0]] + Extent(box[1..]) && Extent(box)[1..] == Extent(box[1..])
    ensures ValidKey(key[1..], shape[1..]) && RangesMatch(key[1..], shape[1..], box[1..])
    ensures Within(box[1..], shape[1..])
    ensures var rest := ResultShape(key[1..], shape[1..]);
            if key[0].Integer? then Extent(box)[0] == 1 && ResultShape(key, shape) == rest
            else ResultShape(key, shape) == [Extent(box)[0]] + rest && ResultShape(key, shape)[1..] == rest
  {
    ValidKeyInRange(key[0], shape[0]);
  }

  /** Integer axes have extent 1, so dropping them leaves the volume unchanged. */
  lemma {:induction false} SqueezeKeepsVolume(key: seq<Entry>, shape: seq<nat>, box: seq<Range>)
    requires ValidKey(key, shape) && RangesMatch(key, shape, box) && Within(box, shape)
    ensures Volume(ResultShape(key, shape)) == Volume(Extent(box))
  {
    if key == [] {
    } else {
      ShapesStep(key, shape, box);
      SqueezeKeepsVolume(key[1..], shape[1..], box[1..]);
      VolumeCons(Extent(box)[0], Extent(box[1..]));
      VolumeCons(Extent(box)[0], ResultShape(key[1..], shape[1..]));
    }
  }

  lemma {:induction false} VolumeCons(d: nat, rest: seq<nat>)
    ensures Volume([d] + rest) == d * Volume(rest)
  {
    assert ([d] + rest)[1..] == rest;
  }

  lemma {:induction false} FlatCons(d: nat, shape: seq<nat>, i: nat, idx: seq<nat>)
    requires |shape| == |idx|
    ensures Flat([d] + shape, [i] + idx) == i * Volume(shape) + Flat(shape, idx)
  {
    assert ([d] + shape)[1..] == shape && ([i] + idx)[1..] == idx;
  }

  /** A position of the squeezed result, with zeros put back on the integer axes. */
  ghost function Unsqueeze(key: seq<Entry>, shape: seq<nat>, j: seq<nat>): seq<nat>
    requires |key| == |shape| && InBounds(ResultShape(key, shape), j)
  {
    if key == [] then []
    else if key[0].Integer? then [0] + Unsqueeze(key[1..], shape[1..], j)
    else
      assert ResultShape(key, shape)[1..] == ResultShape(key[1..], shape[1..]);
      [j[0]] + Unsqueeze(key[1..], shape[1..], j[1..])
  }

  /** Putting the zeros back does not change the flat position. */
  lemma {:induction false} UnsqueezeKeepsFlat(key: seq<Entry>, shape: seq<nat>, box: seq<Range>, j: seq<nat>)
    requires ValidKey(key, shape) && RangesMatch(key, shape, box) && Within(box, shape)
    requires InBounds(ResultShape(key, shape), j)
    ensures InBounds(Extent(box), Unsqueeze(key, shape, j))
    ensures Flat(Extent(box), Unsqueeze(key, shape, j)) == Flat(ResultShape(key, shape), j)
  {
    if key == [] {
    } else {
      ShapesStep(key, shape, box);
      SqueezeKeepsVolume(key[1..], shape[1..], box[1..]);
      var jRest := if key[0].Integer? then j else j[1..];
      UnsqueezeKeepsFlat(key[1..], shape[1..], box[1..], jRest);
      var first := if key[0].Integer? then 0 else j[0];
      FlatCons(Extent(box)[0], Extent(box[1..]), first, Unsqueeze(key[1..], shape[1..], jRest));
      if key[0].Slice? {
        assert j == [j[0]] + jRest;
        FlatCons(Extent(box)[0], ResultShape(key[1..], shape[1..]), j[0], jRest);
      }
    }
  }

  /** What is left of a result position once the first entry has taken its share. */
  ghost function RestOf(key: seq<Entry>, j: seq<nat>): seq<nat>
    requires key != [] && (key[0].Slice? ==> j != [])
  {
    if key[0].Integer? then j else j[1..]
  }

  /** On the first axis, once the start is added, it is the position NumPy refers to. */
  lemma {:induction false} FirstAxis(key: seq<Entry>, shape: seq<nat>, box: seq<Range>, j: seq<nat>)
    requires key != [] && ValidKey(key, shape) && RangesMatch(key, shape, box) && Within(box, shape)
    requires InBounds(ResultShape(key, shape), j)
    ensures (key[0].Slice? ==> j != []) && InBounds(ResultShape(key[1..], shape[1..]), RestOf(key, j))
    ensures var p, u := SourcePosition(key, shape, j), Unsqueeze(key, shape, j);
            && p == [p[0]] + SourcePosition(key[1..], shape[1..], RestOf(key, j))
            && u == [u[0]] + Unsqueeze(key[1..], shape[1..], RestOf(key, j))
            && box[0].start + u[0] == p[0] < shape[0]
  {
    ShapesStep(key, shape, box);
    if key[0].Slice? {
      SelectedIsRange(key[0].start, key[0].stop, shape[0], shape[0]);
    }
  }

  /** Shifted by the starts, `u` is the array position `p`. */
  ghost predicate LinesUp(shape: seq<nat>, box: seq<Range>, u: seq<nat>, p: seq<int>)
  {
    && |u| == |p| == |box| == |shape|
    && forall i :: 0 <= i < |p| ==> box[i].start + u[i] == p[i] < shape[i]
  }

  lemma {:induction false} LinesUpCons(shape: seq<nat>, box: seq<Range>, u: seq<nat>, p: seq<int>,
                                       uRest: seq<nat>, pRest: seq<int>)
    requires |u| == |p| == |box| == |shape| > 0 && box[0].start + u[0] == p[0] < shape[0]
    requires u == [u[0]] + uRest && p == [p[0]] + pRest && LinesUp(shape[1..], box[1..], uRest, pRest)
    ensures LinesUp(shape, box, u, p)
  {
    forall i | 0 < i < |p| ensures box[i].start + u[i] == p[i] < shape[i] {
      assert box[1..][i - 1].start + uRest[i - 1] == pRest[i - 1] < shape[1..][i - 1];
    }
  }

  /** And so on every axis. */
  lemma {:induction false} UnsqueezeFindsSource(key: seq<Entry>, shape: seq<nat>, box: seq<Range>, j: seq<nat>)
    requires ValidKey(key, shape) && RangesMatch(key, shape, box) && Within(box, shape)
    requires InBounds(ResultShape(key, shape), j)
    ensures LinesUp(shape, box, Unsqueeze(key, shape, j), SourcePosition(key, shape, j))
  {
    if key == [] {
    } else {
      FirstAxis(key, shape, box, j);
      ShapesStep(key, shape, box);
      var rest := RestOf(key, j);
      UnsqueezeFindsSource(key[1..], shape[1..], box[1..], rest);
      LinesUpCons(shape, box, Unsqueeze(key, shape, j), SourcePosition(key, shape, j),
                  Unsqueeze(key[1..], shape[1..], rest), SourcePosition(key[1..], shape[1..], rest));
    }
  }

  lemma {:induction false} DropIntegerAxes(key: seq<Entry>, shape: seq<nat>, box: seq<Range>, axes: seq<nat>,
                                           from: nat)
    requires ValidKey(key, shape) && RangesMatch(key, shape, box) && Within(box, shape) && from <= |key|
    requires forall i: nat :: i < |key| ==> (i in axes <==> key[i].Integer?)
    ensures DropAxes(Extent(box), axes, from) == ResultShape(key[from..], shape[from..])
    decreases |key| - from
  {
    if from < |key| {
      DropIntegerAxes(key, shape, box, axes, from + 1);
      ValidKeyInRange(key[from], shape[from]);
      assert key[from..][1..] == key[from + 1..] && shape[from..][1..] == shape[from + 1..];
      assert key[from..][0] == key[from] && shape[from..][0] == shape[from];
    }
  }

  lemma {:induction false} UnsqueezedPosition(key: seq<Entry>, shape: seq<nat>, box: seq<Range>, j: seq<nat>)
    requires ValidKey(key, shape) && RangesMatch(key, shape, box) && Within(box, shape)
    requires InBounds(ResultShape(key, shape), j)
    ensures IsPosition(shape, SourcePosition(key, shape, j)) && |Unsqueeze(key, shape, j)| == |box|
    ensures Add(Starts(box), Unsqueeze(key, shape, j)) == AsIndex(shape, SourcePosition(key, shape, j))
  {
    UnsqueezeFindsSource(key, shape, box, j);
  }

  /** Read, reshape and squeeze put the right element at every position of the result. */
  lemma {:induction false} SqueezedElement<T>(a: ChunkedArray<T>, key: seq<Entry>, box: seq<Range>, j: seq<nat>)
    requires a.Valid() && ValidKey(key, a.shape) && RangesMatch(key, a.shape, box) && Within(box, a.shape)
    requires InBounds(ResultShape(key, a.shape), j)
    ensures Flat(ResultShape(key, a.shape), j) < |Listing(a, box)|
    ensures IsPosition(a.shape, SourcePosition(key, a.shape, j))
    ensures Listing(a, box)[Flat(ResultShape(key, a.shape), j)] ==
            a.At(AsIndex(a.shape, SourcePosition(key, a.shape, j)))
  {
    var full := Unsqueeze(key, a.shape, j);
    UnsqueezeKeepsFlat(key, a.shape, box, j);
    ListingAt(a, box, full);
    UnsqueezedPosition(key, a.shape, box, j);
  }

  /** So the reshaped and squeezed listing of the ranges is the basic-index result. */
  lemma {:induction false} SqueezedListingIsBasicIndex<T>(a: ChunkedArray<T>, key: seq<Entry>, box: seq<Range>,
                                                          axes: seq<nat>)
    requires a.Valid() && ValidKey(key, a.shape) && RangesMatch(key, a.shape, box) && Within(box, a.shape)
    requires forall i: nat :: i < |key| ==> (i in axes <==> key[i].Integer?)
    requires forall k :: 0 <= k < |axes| ==> axes[k] < |key| && Extent(box)[axes[k]] == 1
    ensures IsBasicIndex(a, key, Squeeze(NDArray(Extent(box), Listing(a, box)), axes))
  {
    DropIntegerAxes(key, a.shape, box, axes, 0);
    assert key[0..] == key && a.shape[0..] == a.shape;
    SqueezeKeepsVolume(key, a.shape, box);
    forall j | InBounds(ResultShape(key, a.shape), j)
      ensures Flat(ResultShape(key, a.shape), j) < |Listing(a, box)|
      ensures IsPosition(a.shape, SourcePosition(key, a.shape, j))
      ensures Listing(a, box)[Flat(ResultShape(key, a.shape), j)] ==
              a.At(AsIndex(a.shape, SourcePosition(key, a.shape, j)))
    {
      SqueezedElement(a, key, box, j);
    }
  }

  /** Every stop inside the array can be rounded up to a chunk boundary. */
  ghost predicate AlignmentSafe<T>(a: ChunkedArray<T>)
    requires a.Valid()
  {
    forall i :: 0 <= i < |a.shape| ==> RoundingFits(a.shape[i], a.chunkShape[i])
  }

  lemma {:induction false} RoundingFitsBelow(stop: nat, dim: nat, cs: nat)
    requires cs > 0 && stop <= dim && RoundingFits(dim, cs)
    ensures RoundingFits(stop, cs)
  {
    DivCeilBounds(dim, cs);
    SmallestMultipleAbove(stop, cs, DivCeil(dim, cs) * cs);
  }

  /** PyO3 converts the pairs to `u64` before `read_subset` sees them. */
  method ToWords(ranges: seq<(int, int)>) returns (box: Option<seq<Range>>)
    ensures box.Some? <==>
            forall i :: 0 <= i < |ranges| ==> 0 <= ranges[i].0 < WORD_MODULUS && 0 <= ranges[i].1 < WORD_MODULUS
    ensures box.Some? ==> |box.value| == |ranges|
    ensures box.Some? ==>
              forall i :: 0 <= i < |ranges| ==>
                            box.value[i].start == ranges[i].0 && box.value[i].stop == ranges[i].1
  {
    var words: seq<Range> := [];
    for i := 0 to |ranges|
      invariant |words| == i
      invariant forall k :: 0 <= k < i ==> words[k].start == ranges[k].0 < WORD_MODULUS
      invariant forall k :: 0 <= k < i ==> words[k].stop == ranges[k].1 < WORD_MODULUS
    {
      var (start, stop) := ranges[i];
      if start < 0 || start >= WORD_MODULUS || stop < 0 || stop >= WORD_MODULUS {
        return None;
      }
      words := words + [Range(start, stop)];
    }
    return Some(words);
  }

  /** The first axis whose slice has another step than one; `zip` looks no further than
      the shorter of key and shape. */
  ghost predicate FirstRefused(key: seq<Entry>, shape: seq<nat>, axis: nat)
  {
    && axis < |key| && axis < |shape| && key[axis].Slice? && !UnitStep(key[axis].step)
    && forall i: nat :: i < axis && key[i].Slice? ==> UnitStep(key[i].step)
  }

  ghost predicate NoneRefused(key: seq<Entry>, shape: seq<nat>)
  {
    forall i: nat :: i < |key| && i < |shape| && key[i].Slice? ==> UnitStep(key[i].step)
  }

  /** The first loop: one range per entry, and the axes integer entries collapse. */
  method Translate(key: seq<Entry>, shape: seq<nat>)
    returns (r: Result<(seq<(int, int)>, seq<nat>), IndexingError>)
    ensures r.Success? <==> |key| == |shape| && forall i :: 0 <= i < |key| && key[i].Slice? ==> UnitStep(key[i].step)
    ensures r.Success? ==>
              && r.value.0 == RangesOf(key, shape)
              && (forall i: nat :: i < |key| ==> (i in r.value.1 <==> key[i].Integer?))
              && (forall k :: 0 <= k < |r.value.1| ==> r.value.1[k] < |key|)
    ensures r.Failure? ==> match r.error
                           case KeyRankMismatch => |key| != |shape| && NoneRefused(key, shape)
                           case SteppedSlice(axis) => FirstRefused(key, shape, axis) && key[axis].step != Some(0)
                           case ZeroStep => exists i: nat :: FirstRefused(key, shape, i) && key[i].step == Some(0)
                           case _ => false
  {
    var ranges: seq<(int, int)> := [];
    var squeezeAxes: seq<nat> := [];
    var n := if |key| <= |shape| then |key| else |shape|;
    for axis := 0 to n
      invariant |ranges| == axis
      invariant forall i :: 0 <= i < axis ==> ranges[i] == EntryRange(key[i], shape[i])
      invariant forall i :: 0 <= i < axis && key[i].Slice? ==> UnitStep(key[i].step)
      invariant forall i: nat :: i < axis ==> (i in squeezeAxes <==> key[i].Integer?)
      invariant forall k :: 0 <= k < |squeezeAxes| ==> squeezeAxes[k] < axis
    {
      if key[axis].Slice? {
        if key[axis].step == Some(0) {
          assert FirstRefused(key, shape, axis);
          return Failure(ZeroStep);
        }
        if !UnitStep(key[axis].step) {
          return Failure(SteppedSlice(axis));
        }
      } else {
        squeezeAxes := squeezeAxes + [axis];
      }
      ranges := ranges + [EntryRange(key[axis], shape[axis])];
    }
    if |key| != |shape| {
      return Failure(KeyRankMismatch);
    }
    return Success((ranges, squeezeAxes));
  }

  /** A widened box is no larger than the array. */
  lemma {:induction false} WidenedNoLarger<T>(a: ChunkedArray<T>, box: seq<Range>)
    requires a.Valid() && |a.shape| == |box| && WholeChunks(a, AlignedBox(a.shape, a.chunkShape, box))
    ensures Volume(Extent(AlignedBox(a.shape, a.chunkShape, box))) <= Volume(a.shape)
  {
    VolumeMono(Extent(AlignedBox(a.shape, a.chunkShape, box)), a.shape);
  }

  /** A valid key's box, as the reader sees it. */
  lemma {:induction false} ValidKeyBox<T>(a: ChunkedArray<T>, key: seq<Entry>, box: seq<Range>)
    requires a.Valid() && ValidKey(key, a.shape) && RangesMatch(key, a.shape, box)
    ensures Within(box, a.shape)
    ensures forall i :: 0 <= i < |key| && key[i].Integer? ==> Extent(box)[i] == 1
    ensures AlignmentSafe(a) ==> RequestFits(a.chunkShape, box)
  {
    forall i | 0 <= i < |key| ensures box[i].start <= box[i].stop <= a.shape[i] {
      ValidKeyInRange(key[i], a.shape[i]);
    }
    forall i | 0 <= i < |key| && key[i].Integer? ensures Extent(box)[i] == 1 {
      ValidKeyInRange(key[i], a.shape[i]);
    }
    if AlignmentSafe(a) {
      forall i | 0 <= i < |key| ensures RoundingFits(box[i].stop, a.chunkShape[i]) {
        RoundingFitsBelow(box[i].stop, a.shape[i], a.chunkShape[i]);
      }
    }
  }

  /** What the adapter returns: success only on valid keys, and then NumPy's own result.
      On a valid key only the store can fail, unless some extent of the array cannot be
      rounded up to a chunk boundary. */
  ghost predicate IndexesAs<T>(a: ChunkedArray<T>, storeFails: bool, key: seq<Entry>,
                               r: Result<NDArray<T>, IndexingError>)
    requires a.Valid()
  {
    match r
    case Success(out) => ValidKey(key, a.shape) && IsBasicIndex(a, key, out)
    case Failure(error) =>
      ValidKey(key, a.shape) ==>
        || (error == Read(StoreReadFailed) && (storeFails || Volume(a.shape) >= WORD_MODULUS))
        || (error == Read(AlignmentWrapped) && !AlignmentSafe(a))
  }

  lemma {:induction false} ReadFailure<T>(a: ChunkedArray<T>, storeFails: bool, key: seq<Entry>, box: seq<Range>,
                                          error: ReadError)
    requires a.Valid() && |key| == |a.shape| && RangesMatch(key, a.shape, box)
    requires ReadsAs(a, storeFails, box, Failure(error))
    ensures IndexesAs(a, storeFails, key, Failure(Read(error)))
  {
    if ValidKey(key, a.shape) {
      ValidKeyBox(a, key, box);
      if RequestFits(a.chunkShape, box) {
        WidenedNoLarger(a, box);
      }
    }
  }

  lemma {:induction false} ReadSuccess<T>(a: ChunkedArray<T>, storeFails: bool, key: seq<Entry>, box: seq<Range>,
                                          axes: seq<nat>, flat: seq<T>)
    requires a.Valid() && |key| == |a.shape| && RangesMatch(key, a.shape, box)
    requires forall i :: 0 <= i < |key| && key[i].Slice? ==> UnitStep(key[i].step)
    requires forall i: nat :: i < |key| ==> (i in axes <==> key[i].Integer?)
    requires forall k :: 0 <= k < |axes| ==> axes[k] < |key|
    requires ReadsAs(a, storeFails, box, Success(flat))
    ensures Within(box, a.shape) && forall k :: 0 <= k < |axes| ==> Extent(box)[axes[k]] == 1
    ensures IndexesAs(a, storeFails, key, Success(Squeeze(NDArray(Extent(box), flat), axes)))
  {
    InRangeIsValid(key, a.shape, box);
    SqueezedListingIsBasicIndex(a, key, box, axes);
  }

  /** The whole adapter: translate the key, read, reshape, squeeze. */
  method RawIndex<T>(handle: StoredArray<T>, key: seq<Entry>) returns (r: Result<NDArray<T>, IndexingError>)
    requires handle.content.Valid()
    modifies handle
    ensures IndexesAs(handle.content, handle.fails, key, r)
    ensures |handle.log| <= |old(handle.log)| + 1 && old(handle.log) <= handle.log
  {
    var a := handle.content;
    var translated := Translate(key, a.shape);
    if ValidKey(key, a.shape) {
      ValidKeyWords(key, a.shape);
    }
    if translated.Failure? {
      return Failure(translated.error);
    }
    var (ranges, squeezeAxes) := translated.value;
    var box := ToWords(ranges);
    if box.None? {
      return Failure(NotAWord);
    }
    var flat := ReadSubset(handle, box.value);
    if flat.Failure? {
      ReadFailure(a, handle.fails, key, box.value, flat.error);
      return Failure(Read(flat.error));
    }
    ReadSuccess(a, handle.fails, key, box.value, squeezeAxes, flat.value);
    var out := NDArray(Extent(box.value), flat.value);
    return Success(Squeeze(out, squeezeAxes));
  }

  lemma {:induction false} ValidKeyWords(key: seq<Entry>, shape: seq<nat>)
    requires ValidKey(key, shape) && forall i :: 0 <= i < |shape| ==> IsWord(shape[i])
    ensures forall i :: 0 <= i < |key| ==>
                          0 <= RangesOf(key, shape)[i].0 < WORD_MODULUS && 0 <= RangesOf(key, shape)[i].1 < WORD_MODULUS
  {
    forall i | 0 <= i < |key|
      ensures 0 <= EntryRange(key[i], shape[i]).0 <= EntryRange(key[i], shape[i]).1 < WORD_MODULUS
    {
      ValidKeyInRange(key[i], shape[i]);
      assert IsWord(shape[i]);
    }
  }

  /** Whatever gets past the reader's checks came from a valid key. */
  lemma {:induction false} InRangeIsValid(key: seq<Entry>, shape: seq<nat>, box: seq<Range>)
    requires |key| == |shape| && forall i :: 0 <= i < |key| && key[i].Slice? ==> UnitStep(key[i].step)
    requires RangesMatch(key, shape, box) && Within(box, shape)
    ensures ValidKey(key, shape)
    ensures forall i :: 0 <= i < |key| && key[i].Integer? ==> Extent(box)[i] == 1
  {
    forall i | 0 <= i < |key| ensures ValidEntry(key[i], shape[i]) {
      assert (box[i].start as int, box[i].stop as int) == EntryRange(key[i], shape[i]);
    }
  }
}
