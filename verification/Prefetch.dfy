/** What the eager phase fetches against what the lazy path reads: `fetch_all_elements`
    (src/walk.rs) reads whole arrays, `read_subset` (src/array.rs) and the Python adapter
    read them piece by piece, and a caller cannot tell which of them ran. */
module Prefetch {
  import opened BasicIndexing
  import opened ChunkedArrays
  import opened EagerFetch
  import opened GroupTrees
  import opened MachineWords
  import opened Reader
  import opened RowMajor
  import opened Slicing
  import opened Wrappers

  // ----- the whole array as a box -----

  /** `ArraySubset::new_with_shape`. */
  function FullBox(shape: seq<nat>): (box: seq<Range>)
    ensures |box| == |shape| && forall i :: 0 <= i < |box| ==> box[i] == Range(0, shape[i])
  {
    seq(|shape|, i requires 0 <= i < |shape| => Range(0, shape[i]))
  }

  lemma {:induction false} FullBoxExtent(shape: seq<nat>)
    ensures Within(FullBox(shape), shape) && Extent(FullBox(shape)) == shape
  {}

  /** The whole array is a union of whole chunks: the eager read needs no alignment. */
  lemma {:induction false} FullBoxIsWholeChunks<T>(a: ChunkedArray<T>)
    requires a.Valid()
    ensures WholeChunks(a, FullBox(a.shape))
  {
    forall i | 0 <= i < |a.shape| ensures 0 % a.chunkShape[i] == 0 {
      MultipleMod(0, a.chunkShape[i]);
    }
  }

  /** Aligning it changes nothing, as long as the alignment does not wrap. */
  lemma {:induction false} FullBoxIsAligned<T>(a: ChunkedArray<T>)
    requires a.Valid() && AlignmentSafe(a)
    ensures AlignedBox(a.shape, a.chunkShape, FullBox(a.shape)) == FullBox(a.shape)
  {
    forall i | 0 <= i < |a.shape|
      ensures AlignedStart(0, a.chunkShape[i]) == 0
      ensures AlignedStop(a.shape[i], a.chunkShape[i], a.shape[i]) == a.shape[i]
    {
      MultipleMod(0, a.chunkShape[i]);
      AlignedStopIs(a.shape[i], a.chunkShape[i], a.shape[i]);
      DivCeilBounds(a.shape[i], a.chunkShape[i]);
    }
  }

  /** `fetch_all_elements`' read. */
  method ReadAll<T>(handle: StoredArray<T>) returns (elements: Option<seq<T>>)
    requires handle.content.Valid()
    modifies handle
    ensures var a := handle.content;
            elements == if handle.fails || Volume(a.shape) >= WORD_MODULUS then None
            else Some(Listing(a, FullBox(a.shape)))
    ensures handle.log == old(handle.log) + [FullBox(handle.content.shape)]
  {
    FullBoxIsWholeChunks(handle.content);
    FullBoxExtent(handle.content.shape);
    elements := handle.RetrieveArraySubset(FullBox(handle.content.shape));
  }

  /** The lazy read of the whole array would have returned the same elements. */
  lemma {:induction false} LazyReadAgrees<T>(a: ChunkedArray<T>, storeFails: bool, r: Result<seq<T>, ReadError>)
    requires a.Valid() && ReadsAs(a, storeFails, FullBox(a.shape), r) && r.Success?
    ensures r.value == Listing(a, FullBox(a.shape))
  {
    FullBoxExtent(a.shape);
  }

  // ----- indexing the fetched elements -----

  /** `r` is NumPy's `data[key]`, for `data` resident in memory. */
  ghost predicate IsMemoryIndex<T>(data: NDArray<T>, key: seq<Entry>, r: NDArray<T>)
    requires |key| == |data.shape|
  {
    && r.shape == ResultShape(key, data.shape)
    && |r.data| == Volume(r.shape)
    && forall j | InBounds(r.shape, j) ::
         && Flat(r.shape, j) < |r.data|
         && IsPosition(data.shape, SourcePosition(key, data.shape, j))
         && Flat(data.shape, AsIndex(data.shape, SourcePosition(key, data.shape, j))) < |data.data|
         && r.data[Flat(r.shape, j)] ==
            data.data[Flat(data.shape, AsIndex(data.shape, SourcePosition(key, data.shape, j)))]
  }

  lemma {:induction false} FromOrigin(shape: seq<nat>, idx: seq<nat>)
    requires |shape| == |idx|
    ensures Add(Starts(FullBox(shape)), idx) == idx
  {}

  /** The full listing holds the array's own element at every position. */
  lemma {:induction false} FullListingAt<T>(a: ChunkedArray<T>, idx: seq<nat>)
    requires a.Valid() && InBounds(a.shape, idx)
    ensures Within(FullBox(a.shape), a.shape) && Flat(a.shape, idx) < |Listing(a, FullBox(a.shape))|
    ensures Listing(a, FullBox(a.shape))[Flat(a.shape, idx)] == a.At(idx)
  {
    FullBoxExtent(a.shape);
    ListingAt(a, FullBox(a.shape), idx);
    FromOrigin(a.shape, idx);
  }

  /** Pre-fetching is invisible: indexing the fetched elements is indexing the array. */
  lemma {:induction false} MemoryIndexIsBasicIndex<T>(a: ChunkedArray<T>, key: seq<Entry>, r: NDArray<T>)
    requires a.Valid() && |key| == |a.shape|
    ensures Within(FullBox(a.shape), a.shape)
    ensures IsMemoryIndex(NDArray(a.shape, Listing(a, FullBox(a.shape))), key, r) <==> IsBasicIndex(a, key, r)
  {
    FullBoxExtent(a.shape);
    forall p | IsPosition(a.shape, p)
      ensures var k := Flat(a.shape, AsIndex(a.shape, p));
              k < |Listing(a, FullBox(a.shape))| && Listing(a, FullBox(a.shape))[k] == a.At(AsIndex(a.shape, p))
    {
      FullListingAt(a, AsIndex(a.shape, p));
    }
  }

  // ----- the variables of a walk -----

  /** The live arrays behind the handles. */
  datatype AnyArray = Strings(strings: ChunkedArray<string>) | Numbers(numbers: ChunkedArray<int>)
  {
    ghost predicate Valid()
    {
      match this
      case Strings(a) => a.Valid()
      case Numbers(a) => a.Valid()
    }

    function Shape(): seq<nat>
    {
      match this
      case Strings(a) => a.shape
      case Numbers(a) => a.shape
    }

    /** All its elements, in row-major order. */
    function Whole(): Elements
      requires Valid()
    {
      FullBoxExtent(Shape());
      match this
      case Strings(a) => Str(Listing(a, FullBox(a.shape)))
      case Numbers(a) => Num(Listing(a, FullBox(a.shape)))
    }
  }

  /** The variable describes the array at its handle. */
  ghost predicate Describes(v: VarMeta, arrays: map<string, AnyArray>)
  {
    && v.handle in arrays && arrays[v.handle].Valid() && v.shape == arrays[v.handle].Shape()
    && v.eager.None? && |v.dims| == |v.shape|
    && (v.dtype.Text? ==> arrays[v.handle].Strings?) && (v.dtype.Numeric? ==> arrays[v.handle].Numbers?)
  }

  /** What whole-array reads yield: `readable` are the handles whose reads succeed. */
  function Contents(arrays: map<string, AnyArray>, readable: set<string>): map<string, Elements>
    requires forall h | h in arrays :: arrays[h].Valid()
  {
    map h | h in arrays && h in readable :: arrays[h].Whole()
  }

  /** Such variables are what the caps theorem asks for. */
  lemma {:induction false} DescribedIsFresh(v: VarMeta, arrays: map<string, AnyArray>, readable: set<string>)
    requires (forall h | h in arrays :: arrays[h].Valid()) && Describes(v, arrays)
    ensures Fresh(v, Contents(arrays, readable))
  {
    FullBoxExtent(v.shape);
    forall i | 0 <= i < |v.shape| ensures v.shape[i] < WORD_MODULUS {
      match arrays[v.handle] {
        case Strings(a) => assert IsWord(a.shape[i]);
        case Numbers(a) => assert IsWord(a.shape[i]);
      }
    }
  }

  /** A numeric variable the eager phase has made resident answers every key as the lazy
      path does. */
  lemma {:induction false} PrefetchIsInvisible(v: VarMeta, arrays: map<string, AnyArray>, readable: set<string>,
                                               key: seq<Entry>, r: NDArray<int>)
    requires (forall h | h in arrays :: arrays[h].Valid()) && Describes(v, arrays) && |key| == |v.shape|
    requires v.dtype.Numeric? && Warmed(v, Contents(arrays, readable)).eager.Some?
    ensures var e := Warmed(v, Contents(arrays, readable)).eager.value;
            e.Num? && (IsMemoryIndex(NDArray(v.shape, e.numbers), key, r) <==>
                       IsBasicIndex(arrays[v.handle].numbers, key, r))
  {
    DescribedIsFresh(v, arrays, readable);
    ResidentIffWithinCaps(v, Contents(arrays, readable));
    MemoryIndexIsBasicIndex(arrays[v.handle].numbers, key, r);
  }

  /** And so does a string variable. */
  lemma {:induction false} StringPrefetchIsInvisible(v: VarMeta, arrays: map<string, AnyArray>, readable: set<string>,
                                                     key: seq<Entry>, r: NDArray<string>)
    requires (forall h | h in arrays :: arrays[h].Valid()) && Describes(v, arrays) && |key| == |v.shape|
    requires v.dtype.Text? && Warmed(v, Contents(arrays, readable)).eager.Some?
    ensures var e := Warmed(v, Contents(arrays, readable)).eager.value;
            e.Str? && (IsMemoryIndex(NDArray(v.shape, e.strings), key, r) <==>
                       IsBasicIndex(arrays[v.handle].strings, key, r))
  {
    DescribedIsFresh(v, arrays, readable);
    ResidentIffWithinCaps(v, Contents(arrays, readable));
    MemoryIndexIsBasicIndex(arrays[v.handle].strings, key, r);
  }
}
