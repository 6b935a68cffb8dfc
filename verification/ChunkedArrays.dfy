/** A Zarr array as `read_subset` sees it: a regular chunk grid over a partial chunk
    store, with a fill value for the chunks that are missing (Zarr V3 core
    specification, "Regular grids" and "Fill value"). */
module ChunkedArrays {
  import opened MachineWords
  import opened RowMajor
  import opened Wrappers

  /** A half-open range along one axis. */
  datatype Range = Range(start: nat, stop: nat)

  ghost predicate IsWord(n: nat)
  {
    n < WORD_MODULUS
  }

  datatype ChunkedArray<T> = ChunkedArray(shape: seq<nat>, chunkShape: seq<nat>, chunks: map<seq<nat>, seq<T>>, fill: T)
  {
    /** Chunk extents are non-zero, everything is a `u64`, and every stored chunk is
        a full row-major chunk (edge chunks are stored unclipped). */
    ghost predicate Valid()
    {
      && |chunkShape| == |shape|
      && (forall i :: 0 <= i < |shape| ==> IsWord(shape[i]) && chunkShape[i] > 0 && IsWord(chunkShape[i]))
      && (forall c | c in chunks :: |c| == |shape| && |chunks[c]| == Volume(chunkShape))
    }

    /** The logical array: chunk `idx / chunkShape` at `idx % chunkShape`, or the fill value. */
    function At(idx: seq<nat>): T
      requires Valid() && InBounds(shape, idx)
    {
      var chunk, within := ChunkIndex(idx, chunkShape), WithinChunk(idx, chunkShape);
      FlatInRange(chunkShape, within);
      if chunk in chunks then chunks[chunk][Flat(chunkShape, within)] else fill
    }
  }

  /** Which chunk a position falls into. */
  function ChunkIndex(idx: seq<nat>, chunkShape: seq<nat>): seq<nat>
    requires |idx| == |chunkShape| && forall i :: 0 <= i < |chunkShape| ==> chunkShape[i] > 0
  {
    seq(|idx|, i requires 0 <= i < |idx| => idx[i] / chunkShape[i])
  }

  /** And where in that chunk. */
  function WithinChunk(idx: seq<nat>, chunkShape: seq<nat>): seq<nat>
    requires |idx| == |chunkShape| && forall i :: 0 <= i < |chunkShape| ==> chunkShape[i] > 0
  {
    seq(|idx|, i requires 0 <= i < |idx| => idx[i] % chunkShape[i])
  }

  function Starts(box: seq<Range>): (s: seq<nat>)
    ensures |s| == |box|
  {
    seq(|box|, i requires 0 <= i < |box| => box[i].start)
  }

  /** The shape of a box of well-ordered ranges. */
  function Extent(box: seq<Range>): (s: seq<nat>)
    requires forall i :: 0 <= i < |box| ==> box[i].start <= box[i].stop
    ensures |s| == |box|
  {
    seq(|box|, i requires 0 <= i < |box| => box[i].stop - box[i].start)
  }

  /** The box lies inside an array of this shape. */
  ghost predicate Within(box: seq<Range>, shape: seq<nat>)
  {
    |box| == |shape| && forall i :: 0 <= i < |box| ==> box[i].start <= box[i].stop <= shape[i]
  }

  /** The row-major listing of the logical array over a box. */
  function Listing<T>(a: ChunkedArray<T>, box: seq<Range>): (out: seq<T>)
    requires a.Valid() && Within(box, a.shape)
    ensures |out| == Volume(Extent(box))
  {
    seq(Volume(Extent(box)), k requires 0 <= k < Volume(Extent(box)) =>
      var j := Unflat(Extent(box), k);
      assert InBounds(a.shape, Add(Starts(box), j));
      a.At(Add(Starts(box), j)))
  }

  /** The listing, read at a multi-index of the box. */
  lemma {:induction false} ListingAt<T>(a: ChunkedArray<T>, box: seq<Range>, j: seq<nat>)
    requires a.Valid() && Within(box, a.shape) && InBounds(Extent(box), j)
    ensures InBounds(a.shape, Add(Starts(box), j)) && Flat(Extent(box), j) < |Listing(a, box)|
    ensures Listing(a, box)[Flat(Extent(box), j)] == a.At(Add(Starts(box), j))
  {
    FlatInRange(Extent(box), j);
    FlatUnflat(Extent(box), Flat(Extent(box), j));
    FlatInjective(Extent(box), Unflat(Extent(box), Flat(Extent(box), j)), j);
  }

  /** Position `w` of chunk `c`, as a position of the array. */
  function InChunk<T>(a: ChunkedArray<T>, c: seq<nat>, w: seq<nat>): (idx: seq<nat>)
    requires |a.chunkShape| == |c| == |w|
    ensures |idx| == |c| && forall i :: 0 <= i < |c| ==> idx[i] == c[i] * a.chunkShape[i] + w[i]
  {
    seq(|c|, i requires 0 <= i < |c| => c[i] * a.chunkShape[i] + w[i])
  }

  /** The regular grid and the fill value: the array holds, at position `w` of chunk `c`,
      that chunk's element there if the chunk is stored, and the fill value otherwise. */
  lemma {:induction false} AtIsChunkElement<T>(a: ChunkedArray<T>, c: seq<nat>, w: seq<nat>)
    requires a.Valid() && |c| == |a.shape| && InBounds(a.chunkShape, w) && InBounds(a.shape, InChunk(a, c, w))
    ensures c in a.chunks ==> Flat(a.chunkShape, w) < |a.chunks[c]|
    ensures a.At(InChunk(a, c, w)) == if c in a.chunks then a.chunks[c][Flat(a.chunkShape, w)] else a.fill
  {
    FlatInRange(a.chunkShape, w);
    ChunkParts(a, c, w);
  }

  lemma {:induction false} ChunkParts<T>(a: ChunkedArray<T>, c: seq<nat>, w: seq<nat>)
    requires |a.chunkShape| == |c| && InBounds(a.chunkShape, w)
    ensures ChunkIndex(InChunk(a, c, w), a.chunkShape) == c
    ensures WithinChunk(InChunk(a, c, w), a.chunkShape) == w
  {
    var idx, cs := InChunk(a, c, w), a.chunkShape;
    forall i | 0 <= i < |c| ensures ChunkIndex(idx, cs)[i] == c[i] && WithinChunk(idx, cs)[i] == w[i] {
      QuotientOf(c[i], w[i], cs[i]);
    }
  }

  lemma {:induction false} QuotientOf(q: nat, r: nat, d: nat)
    requires r < d
    ensures (q * d + r) / d == q && (q * d + r) % d == r
  {
    var n := q * d + r;
    var digit, rest := Divide(n, d);
    DigitUnique(digit, rest, q, r, d);
  }

  /** The box of one chunk. */
  function ChunkBox<T>(a: ChunkedArray<T>, c: seq<nat>): (box: seq<Range>)
    requires |a.chunkShape| == |c|
    ensures |box| == |c|
  {
    seq(|c|, i requires 0 <= i < |c| => Range(c[i] * a.chunkShape[i], c[i] * a.chunkShape[i] + a.chunkShape[i]))
  }

  lemma {:induction false} ChunkElement<T>(a: ChunkedArray<T>, c: seq<nat>, k: nat)
    requires a.Valid() && |c| == |a.shape| && Within(ChunkBox(a, c), a.shape)
    requires Extent(ChunkBox(a, c)) == a.chunkShape && k < Volume(a.chunkShape)
    ensures Listing(a, ChunkBox(a, c))[k] == if c in a.chunks then a.chunks[c][k] else a.fill
  {
    var w := Unflat(a.chunkShape, k);
    FlatUnflat(a.chunkShape, k);
    ListingAt(a, ChunkBox(a, c), w);
    InChunkBox(a, c, w);
    AtIsChunkElement(a, c, w);
  }

  lemma {:induction false} InChunkBox<T>(a: ChunkedArray<T>, c: seq<nat>, w: seq<nat>)
    requires |a.chunkShape| == |c| == |w|
    ensures Add(Starts(ChunkBox(a, c)), w) == InChunk(a, c, w)
  {}

  lemma {:induction false} ChunkBoxExtent<T>(a: ChunkedArray<T>, c: seq<nat>)
    requires |a.chunkShape| == |c|
    ensures Extent(ChunkBox(a, c)) == a.chunkShape
  {}

  /** Reading one whole chunk inside the array gives the stored chunk, or all fill. */
  lemma {:induction false} ChunkListing<T>(a: ChunkedArray<T>, c: seq<nat>)
    requires a.Valid() && |c| == |a.shape| && Within(ChunkBox(a, c), a.shape)
    ensures Listing(a, ChunkBox(a, c)) ==
            if c in a.chunks then a.chunks[c] else seq(Volume(a.chunkShape), _ => a.fill)
  {
    ChunkBoxExtent(a, c);
    forall k | 0 <= k < Volume(a.chunkShape)
      ensures Listing(a, ChunkBox(a, c))[k] == if c in a.chunks then a.chunks[c][k] else a.fill
    {
      ChunkElement(a, c, k);
    }
  }

  /** A union of whole chunks, clipped to the array. */
  ghost predicate WholeChunks<T>(a: ChunkedArray<T>, box: seq<Range>)
    requires a.Valid()
  {
    && Within(box, a.shape)
    && forall i :: 0 <= i < |box| ==>
                     && box[i].start % a.chunkShape[i] == 0
                     && (box[i].stop % a.chunkShape[i] == 0 || box[i].stop == a.shape[i])
  }

  /** A live array in a store. `log` lists the boxes read from the store so far. */
  class StoredArray<T> {
    const content: ChunkedArray<T>
    const fails: bool
    var log: seq<seq<Range>>

    constructor (content: ChunkedArray<T>, fails: bool)
      ensures this.content == content && this.fails == fails && log == []
    {
      this.content, this.fails, log := content, fails, [];
    }

    /** zarrs' `async_retrieve_array_subset` on its whole-chunk path. The fill-value
        fallback only exists there, hence the precondition; a store error, or a result
        too large to address, fails the read. */
    method RetrieveArraySubset(box: seq<Range>) returns (elements: Option<seq<T>>)
      requires content.Valid() && WholeChunks(content, box)
      modifies this
      ensures log == old(log) + [box]
      ensures elements == if fails || Volume(Extent(box)) >= WORD_MODULUS then None else Some(Listing(content, box))
    {
      log := log + [box];
      if fails || Volume(Extent(box)) >= WORD_MODULUS {
        return None;
      }
      return Some(Listing(content, box));
    }

    /** The same call for a box that is not made of whole chunks: what the store answers
        is not part of the contract. */
    method RetrieveOffGrid(box: seq<Range>)
      modifies this
      ensures log == old(log) + [box]
    {
      log := log + [box];
    }
  }
}
