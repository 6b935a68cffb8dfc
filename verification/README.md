# Rustytree, verified

A Dafny model of the parts of rustytree that decide what a caller gets back when a Zarr
hierarchy is opened and an array is read, with proofs of what those parts promise.

**Reading an array.** `RowMajor` is the mixed-radix arithmetic of row-major layout.
`Slicing` is `slice_nd`, with its backward stride loop and its in-place odometer.
`ChunkedArrays` is the logical array behind a partial chunk store (regular grid, fill value
for absent chunks). `Reader` is `read_subset`: validation, chunk alignment in 64-bit words,
the whole-chunk read and the cut. `BasicIndexing` is the Python adapter, proved against
NumPy's reading of a key.

**Walking a hierarchy.** `Paths` has path strings and their segments, `Glob` the star
matcher and the prune predicate, `GroupTrees` hierarchies and their pre-order. `Discovery`
is `discover_paths` as a fork-join state machine under a semaphore, for every schedule;
`HoldingVariant` is the rejected design that keeps its permit. `SnapshotWalk` is the
icechunk walker. `Walkers` has the zarrs walker, the agreement of the two, and
`walk_recursive`. `EagerFetch` is the eager phase, and `Prefetch` shows that what it fetches
is what the lazy path would have read. `GroupFilter` has the Python filter and
re-rooting. `OpenFanOut` is the opening of the visited groups and their arrays; `OpenTree`
is how `open_datatree` and `open_dataset` put everything together.

Code that updates variables in loops is modelled by methods with loops; `slice_nd` keeps its
index and stride arrays, the eager phase scatters into an array of nodes, and a live array
is an object whose log shows what was read from the store. The concurrent parts (discovery,
the opens, the eager fetch) pick any enabled step next, so their contracts hold for every
interleaving. 64-bit arithmetic wraps (`MachineWords`), as in the crate's release profile.
Lemmas are marked `{:induction false}`: every inductive proof is written out.

## Results a reader may not expect

- **Pruning is not always invisible** (src/glob.rs:9-15 promises it is). `PurePosixPath`
  drops "." segments of a pattern and `parse` keeps them, so "/./foo" loses a match
  (`GroupFilter.DotPatternLosesMatch`). `GroupFilter.PruningIsInvisibleIffSafe` gives the
  exact condition: a pattern is safe unless it is an absolute star-only pattern, without a
  leading "//", in which a "." segment precedes a segment other than ".".
- **Holding the permit deadlocks sooner than documented.** src/walk.rs:483-488 blames
  permits below the tree depth; `HoldingVariant.HoldingDeadlocksIff` shows the variant can
  deadlock exactly when the visited tree has at least as many groups with children as there
  are permits, counting only groups the walk can get past, neither broken nor below a
  broken one.
- **The permits do not bound the opens.** `open_single` takes none (src/walk.rs:210),
  whatever src/walk.rs:101-104 and 734 say: `OpenFanOut.OpensInFlight` shows that as many
  groups can be opened at once as are visited, and how many requests can be in flight.
- **The snapshot walker's order is not a pre-order** (src/walk.rs:360 calls it one):
  "/a!" sorts between "/a" and "/a/b". `Paths.SubtreeSplitIff` says exactly when; ancestors
  still come first (`SnapshotWalk.SortedIsAncestorsFirst`).
- **The walkers differ on a root the predicate rejects**, and only there: the zarrs walker
  always opens it, the snapshot walker returns nothing. Python never passes both `group` and
  `group_filter`, so such a root arises only at the Rust entry point.
- **An unreadable ancestor fails `open_datatree(group=...)`** with the default
  `include_ancestor_coords`, however readable the group itself is
  (`OpenTree.OpenSubtree`).
- **A path that is an array's is not reported alike.** Taking it as given that plain Zarr
  fails on such a path otherwise than with missing metadata, and that a session lists the
  node at the path itself (see "Left out"), `open_datatree` fails on it without a KeyError
  on either kind of store, but `open_dataset` reports a missing group (KeyError) on a session
  and fails otherwise on plain Zarr (`OpenTree.OpenDataset`); src/walk.rs:60-76 means the
  stores to agree.
- **Alignment can wrap** (`Reader.AlignmentCanWrap`). With wrapping arithmetic the box
  asked of the store covers the request exactly when no rounded-up stop overflows 64 bits
  (`Reader.BoxCoversIffRequestFits`).
- **`normalize_path` turns "//" into the empty string** (`Paths.NormalizeTrailing`); every
  other trailing slash is handled as its comment says.

## Model

| member | source | states |
|---|---|---|
| Slicing.SliceNd | src/array.rs:376-435 | For every rank, shapes and offsets, the result is exactly the row-major listing of the requested box inside the buffer; identity path, rank 0 and empty axes (with no elements at all) included. |
| Slicing.SliceUnique | src/array.rs:366-371 | That specification leaves only one possible result. |
| Slicing.Advance | src/array.rs:426-432 | One odometer step, in place: the row-major position grows by one, carries included, and the last position rolls over to zero. |
| Slicing.RowMajorStrides | src/array.rs:409-412 | The backward loop computes each axis's stride as the volume of the later axes; nothing wraps when the volume fits a word. |
| Slicing.WrappingProduct | src/array.rs:405 | The wrapping product is the element count when that fits a word, even if a prefix overflows before an empty axis. |
| Slicing.SourceIndex | src/array.rs:419-422 | The strided sum is the row-major position, below the buffer length; every position, term and partial sum is below it too, so nothing wraps. |
| RowMajor.FlatInjective | src/array.rs:389-399 | Different multi-indices have different row-major positions. |
| RowMajor.FlatUnflat | src/array.rs:389-399 | Every position below the volume is that of a multi-index, so a listing is determined by its elements. |
| RowMajor.FlatIsLexicographic | src/array.rs:389-399 | Row-major positions are in the lexicographic order of the multi-indices. |
| ChunkedArrays.StoredArray.RetrieveArraySubset | src/array.rs:265-281 | The read contract: asked for whole chunks clipped to the array, it logs the box and lists the logical array, fill value included, or fails. |
| ChunkedArrays.ListingAt | src/array.rs:265-278 | The listing of a box holds, at each multi-index, the logical array's element there. |
| ChunkedArrays.AtIsChunkElement | src/array.rs:265-278 | At position w of chunk c, multiplied out, the array holds the stored chunk's element w, or the fill value if the chunk is missing. |
| ChunkedArrays.ChunkListing | src/array.rs:265-278 | The listing of one whole chunk's box is the stored chunk, or all fill. |
| Reader.Validate | src/array.rs:236-256 | Accepts exactly the in-bounds boxes; otherwise reports the rank, or the first faulty axis with start-after-stop before stop-exceeds. |
| Reader.AlignedAxis | src/array.rs:291-299 | aligned start <= start < stop <= aligned stop <= dim, on chunk boundaries or the array's edge, over-fetching less than a chunk per side. |
| Reader.AlignedAxisIsSmallest | src/array.rs:291-299 | No smaller chunk-bounded range contains the request. |
| Reader.AlignedBoxIsSmallest | src/array.rs:287-303 | Any union of whole chunks that covers a request contains the aligned box. |
| Reader.AlignmentCoversIffRoundingFits | src/array.rs:294-295 | In 64-bit words the aligned stop covers the request if and only if the rounded-up stop does not overflow. |
| Reader.AlignmentCanWrap | src/array.rs:294-295 | On the longest axis, in chunks of two, the last stop rounds up to zero. |
| Reader.BoxCoversIffRequestFits | src/array.rs:291-299 | The box asked of the store contains a non-empty request if and only if no axis's rounded-up stop overflows. |
| Reader.RoundingFitsBelowLimit | src/array.rs:294 | It does not overflow whenever dim + chunk - 1 fits a word. |
| Reader.AlignRequest | src/array.rs:287-300 | The loop's four vectors: the aligned box, the request's offsets in it, the request's shape and the aligned shape. |
| Reader.AlignedBoxIsWholeChunks | src/array.rs:291-303 | The box asked of the store is a union of whole chunks clipped to the array, and contains the request. |
| Reader.SliceOfListing | src/array.rs:340-345 | Cutting the request out of the larger box's listing gives the request's own listing. |
| Reader.ReadSubset | src/array.rs:231-355 | End to end, with the store's log as witness of what is read: invalid ranges are refused and nothing is read; an empty request reads nothing and returns nothing; otherwise one box is read, and it covers the request if and only if no rounded-up stop overflows; then it is whole chunks and the result is the logical array over the request, or the store's failure. |
| Reader.ReadOfOneChunk | src/array.rs:231-355 | A successful read of one whole chunk returns what the store holds of it, or all fill. |
| BasicIndexing.SelectedIsRange | python/rustytree/_array.py:75-88 | Clamping the ends and folding reversed slices selects exactly the positions NumPy's slice means, in order. |
| BasicIndexing.SliceSelects | python/rustytree/_array.py:75-88 | A slice selects, in ascending order, exactly the positions i with s <= i < t, where a negative bound counts from the end (dim + s) and a missing one is no bound. |
| BasicIndexing.ValidKeyMeans | python/rustytree/_array.py:77-95 | A valid key has one entry per axis: a slice with step None or 1, or an integer from -dim up to dim. |
| BasicIndexing.KeyMeans | python/rustytree/_array.py:90-102 | An integer names position `index`, or dim + index if it is negative, and has no result axis; the k-th slice gets result axis k, as long as the positions it selects, and its j-th result position is the j-th selected. |
| BasicIndexing.ValidKeyInRange | python/rustytree/_array.py:88-96 | The ranges built for a valid entry pass the reader's checks, and an integer's range has length one. |
| BasicIndexing.Translate | python/rustytree/_array.py:72-96 | Ranges and squeeze axes are right for every unit-step key; each refusal names its cause: the first axis with another step, zero steps apart, or a rank mismatch when there is none. |
| BasicIndexing.UnsqueezeFindsSource | python/rustytree/_array.py:99-102 | A result position with zeros on the integer axes, shifted by the starts, is the array position NumPy refers to. |
| BasicIndexing.SqueezedListingIsBasicIndex | python/rustytree/_array.py:98-102 | Reshape and squeeze of the ranges' listing is NumPy's basic-index result. |
| BasicIndexing.BasicIndexUnique | python/rustytree/_array.py:65-102 | The basic-index specification determines shape and data. |
| BasicIndexing.RawIndex | python/rustytree/_array.py:65-108 | Adapter plus reader, for every key and array, with at most one read: succeeds only on valid keys, always with NumPy's result; on a valid key only the store can fail, unless an extent cannot be rounded up to a chunk boundary in 64 bits. |
| Paths.ParentOfDropsLast | src/walk.rs:387-392 | `parent_of` drops exactly the last segment, and the root is its own parent. |
| Paths.RenderRoundTrip | src/glob.rs:71-75 | Splitting a rendered path gives back its segments. |
| Paths.SplitJoins | src/glob.rs:48-54 | Splitting loses nothing: joining the pieces again gives the string back. |
| Paths.NormalizeTrailing | src/walk.rs:372-383 | The empty string becomes the root; a canonical path with any run of trailing slashes becomes the path, except that "//" and longer become empty. |
| Paths.AncestorIsParent | python/rustytree/backend.py:327-329 | Every proper canonical ancestor is among the `parents` of a path. |
| Paths.ParentIsAncestor | python/rustytree/backend.py:327-329 | And all of the `parents` are proper ancestors. |
| Paths.AncestorSortsFirst | src/walk.rs:360-363 | A proper ancestor's path string is smaller than its descendant's. |
| Paths.FirstDifferenceDecides | src/walk.rs:360-363 | Path-string order is decided by the first character that differs. |
| Paths.SubtreeSplitIff | src/walk.rs:360-363 | Path-string order lists an outsider between a group and its descendant exactly when the outsider's path continues the group's with a character below '/'. |
| Paths.SplitSubtree | src/walk.rs:360-363 | A concrete hierarchy whose path order is not a pre-order. |
| Glob.FnMatchIsACut | src/glob.rs:94-96 | Star matching means the name is p0 w0 p1 ... pk for the pattern's pieces and some fillers. |
| Glob.GreedyPlacement | src/glob.rs:121-129 | Taking the leftmost place for the next middle piece loses no match, and the cursor stays at or before the reserved suffix. |
| Glob.PlaceMiddlePieces | src/glob.rs:117-130 | The cursor loop decides whether the remaining pieces fit; its slices are in range and its `cursor > stop` guard never fires. |
| Glob.StarMatch | src/glob.rs:97-131 | True exactly for `fnmatch` matches. |
| Glob.ParseSegments | src/glob.rs:32-58 | A parsed pattern's segments are the slash-separated non-empty ones. |
| Glob.ParsedIffStarOnly | src/glob.rs:32-58 | Exactly the absolute patterns without '?' and '[' are pruned by, and by their segments. |
| Glob.CouldDescendantMatch | src/glob.rs:67-91 | True exactly when the path's segments match a prefix of the pattern's, or nothing can be pruned. |
| Glob.CouldMatchIsExact | src/glob.rs:60-66 | The predicate holds of a path if and only if the path or some extension of it matches the whole pattern: no false positives over all possible trees. |
| Glob.CouldMatchMeans | src/glob.rs:60-91 | For such a pattern the predicate holds of a path exactly if names can be appended to it so that there are as many segments as in the pattern and each matches; for any other pattern it always holds. |
| Glob.CouldMatchAntitone | src/glob.rs:76-90 | If it holds for a path it holds for every ancestor. |
| GroupTrees.TreeIsAncestorClosed | src/walk.rs:513-537 | A tree holds all ancestors, up to its root, of its paths. |
| GroupTrees.PreOrderAncestorsFirst | src/walk.rs:478-481 | In pre-order no group precedes, or repeats, its ancestor. |
| GroupTrees.SubtreesInListingOrder | src/walk.rs:525-537 | Siblings come in listing order, each with its whole subtree in one piece. |
| GroupTrees.FlattenIsContents | src/walk.rs:112-116 | The listed nodes are exactly those of the groups of the tree, each with its group's path, attributes and arrays. |
| GroupTrees.PruneWellFormed | src/walk.rs:515-524 | Pruning keeps a hierarchy well-formed. |
| GroupTrees.PrunedPaths | src/walk.rs:515-524 | Pruning subtree by subtree keeps exactly the root and the paths that pass the predicate. |
| Discovery.StepConservesPermits | src/walk.rs:497-511 | Every step, failures and cancellations included, keeps free permits plus held permits. |
| Discovery.StepKeepsJoinersEmptyHanded | src/walk.rs:483-488 | No task ever holds a permit while it awaits its children. |
| Discovery.SomeStepEnabled | src/walk.rs:483-488 | In such a state, an unfinished task can always take a step somewhere. |
| Discovery.StepUsesUpWork | src/walk.rs:489-540 | Every step strictly decreases the remaining work. |
| Discovery.StepKeepsPromise | src/walk.rs:513-537 | Every step keeps what the walk will have listed; out of a failed state no listing comes. |
| Discovery.StepKeepsTruthful | src/walk.rs:503-509 | Only groups whose open or listing failed are blamed, and none of them is listed. |
| Discovery.RunKeepsInvariant | src/walk.rs:489-540 | All of the above over whole runs, with a bound on their length. |
| Discovery.WalkIsSafeAndLive | src/walk.rs:155 | In every reachable state, for any tree and at least one permit: permits conserved, joiners empty-handed, some step enabled until the walk is over, at most three steps per visited group. |
| Discovery.WalkResultIsDetermined | src/walk.rs:489-540 | Whatever the schedule and permits, a finished walk has returned every permit and succeeds exactly when no visited group is broken, with the sequential pre-order of the pruned tree. |
| Discovery.DiscoverPaths | src/walk.rs:489-540 | The walk under an arbitrary scheduler terminates with that pre-order, or names a broken visited group. |
| HoldingVariant.StuckHoldersJoin | src/walk.rs:483-488 | In a stuck state only tasks that await at least one child hold permits, so no more are held than there are groups to join at, reached or not. |
| HoldingVariant.HoldingDeadlocksIff | src/walk.rs:483-488 | For any set of broken groups, keeping the permit across the recursion can deadlock if and only if there are at most as many permits as visited groups that have children and are neither broken nor below a broken one. |
| HoldingVariant.HoldingDeadlocksBelowDepth | src/walk.rs:483-488 | In particular, when no visited group is broken, whenever there are fewer permits than levels. |
| SnapshotWalk.Materialise | src/walk.rs:271-309 | The first pass keeps exactly the groups that pass and the arrays whose parent passes, or names an unreadable one. |
| SnapshotWalk.GroupByParent | src/walk.rs:319-327 | The batches are the arrays under each parent, in listing order. |
| SnapshotWalk.Attach | src/walk.rs:350-358 | Every batch lands on its parent and nothing else changes, or a batch without a parent group is reported. |
| SnapshotWalk.InKeyOrder | src/walk.rs:360-363 | Every group once, in path-string order. |
| SnapshotWalk.WalkSnapshot | src/walk.rs:228-364 | The result is exactly the passing groups in path order, each with exactly its own arrays; each error is justified by the list. |
| SnapshotWalk.NoOrphans | src/walk.rs:350-358 | The "no parent group" error is unreachable when every array's parent is listed, under any filters. |
| SnapshotWalk.ArraysAreConserved | src/walk.rs:270-358 | Whatever the list's order, the nodes hold each passing array exactly as often as it is listed, and no other. |
| SnapshotWalk.SortedIsAncestorsFirst | src/walk.rs:360-363 | Path order lists every ancestor before its descendants. |
| Walkers.OpenAll | src/walk.rs:207-210 | Opening every discovered group yields its node in path order, or an error that names a broken group or array of theirs, exactly when one is unreadable. |
| OpenFanOut.OpenTogether | src/walk.rs:104-110 | In every order of answers everything gets opened if all is readable, and otherwise the call ends with one of the broken paths. |
| OpenFanOut.ReadableMeans | src/walk.rs:88-116 | A hierarchy is readable when no group of it and no array of such a group is broken. |
| OpenFanOut.OpensInFlight | src/walk.rs:207-210 | A given number of groups can be being opened at once if and only if that many are visited, and that many requests if and only if the readable groups' arrays and the other groups amount to it; permits do not enter. |
| OpenFanOut.GroupsInFlightCounts | src/walk.rs:207-210 | Groups in flight are those being opened. |
| Walkers.WalkViaZarrs | src/walk.rs:192-211 | Under every schedule: exactly the visited nodes in pre-order, each with the attributes and arrays of its group in the hierarchy, or an error exactly when one is unreadable, naming a broken path among them; and never more groups being discovered at once than permits. |
| Walkers.WalkersAgree | src/walk.rs:192-364 | On any hierarchy whose root survives the predicate, and any listing of it, the two walkers return the same groups, attributes and multisets of arrays. |
| Walkers.WalkersDisagreeOnPrunedRoot | src/walk.rs:275-278 | When the root does not survive, they always differ. |
| Walkers.RootCanBeRejected | src/walk.rs:275-278 | The pattern "/" rejects every root but "/". |
| Walkers.WalkersFailTogether | src/walk.rs:192-364 | One finds an unreadable node exactly when the other does. |
| Walkers.WalkRecursive | src/walk.rs:148-184 | Whichever backend holds the hierarchy: the visited groups, ancestors first, each with its group's attributes and arrays, the same but for fetched elements, and every resident variable within the caps; or an error exactly when something visited is unreadable, naming it. Discovery's opens and the eager reads in flight never exceed `max_concurrency` (32 if not given, and at least 1). |
| Walkers.SnapshotPruningIsInvisible | src/walk.rs:270-309 | For the snapshot walker, filtering the pruned walk gives the same keys as filtering the full walk. |
| EagerFetch.FetchConcurrently | src/walk.rs:737-755 | Whichever enabled fetch moves next, the results come back in work order, each its own array's, at the end of a complete schedule. |
| EagerFetch.FetchesConservePermits | src/walk.rs:734-752 | In every state of every schedule free permits plus reads in flight are the permits, every finished fetch holds its own array's elements, and steps taken plus steps left are two per fetch. |
| EagerFetch.SomeFetchEnabled | src/walk.rs:737-755 | With at least one permit some fetch can move until all are done. |
| EagerFetch.ReadsInFlight | src/walk.rs:734-752 | Some schedule has a given number of reads in flight if and only if there are that many permits and that many fetches. |
| EagerFetch.InFlightCounts | src/walk.rs:737-745 | Reads in flight are the fetches that are reading. |
| EagerFetch.EligibleVars | src/walk.rs:722-729 | The work list holds exactly the indices of the eligible variables. |
| EagerFetch.Scatter | src/walk.rs:757-761 | Writing back by index changes only the listed variables' `eager`. |
| EagerFetch.EagerPhase | src/walk.rs:718-763 | Field by field: each node keeps its path, attributes and number of variables, each variable its name, dims, dtype, shape, attributes and handle; `eager` stays or becomes that array's own elements; the reads in flight never exceed the permits. |
| EagerFetch.CountIsExact | src/walk.rs:634-640 | The wrapping element count is the true one wherever it decides anything. |
| EagerFetch.ResidentIffWithinCaps | src/walk.rs:629-707 | A variable is resident after the phase if and only if its array could be read and is within the caps: 1-D self-named with at most 2^20 numbers, or scalar or 1-D self-named strings, at most 4096 and 8 MiB. |
| EagerFetch.CapsInNumbers | src/walk.rs:38-58 | The same with the numbers: 1048576 elements, or 4096 strings and 8388608 bytes of UTF-8. |
| EagerFetch.TotalBytesIsEncodedLength | src/walk.rs:676-685 | The bytes counted are those of the strings' UTF-8 encoding. |
| EagerFetch.Utf8Decodes | src/walk.rs:47-49 | The encoding is UTF-8: it decodes to the character, in as many bytes as its code point needs. |
| Prefetch.FullBoxIsWholeChunks | src/walk.rs:667 | The whole array is a union of whole chunks, so the eager read needs no alignment. |
| Prefetch.FullBoxIsAligned | src/array.rs:287-303 | Aligning the whole array changes nothing, unless it wraps. |
| Prefetch.ReadAll | src/walk.rs:664-697 | The eager read lists the whole logical array in one read, or fails. |
| Prefetch.LazyReadAgrees | src/array.rs:231-355 | A lazy read of the whole array, when it succeeds, returns the same elements. |
| Prefetch.MemoryIndexIsBasicIndex | python/rustytree/_array.py:65-108 | For every key, NumPy's basic indexing of the whole listing is the array's basic-index result. |
| Prefetch.DescribedIsFresh | src/walk.rs:664-707 | Variables that describe their arrays, with contents read whole, meet what the caps theorem asks for. |
| Prefetch.PrefetchIsInvisible | src/walk.rs:757-761 | A numeric variable the eager phase has made resident answers every key as the lazy path does. |
| Prefetch.StringPrefetchIsInvisible | src/walk.rs:672-690 | And so does a string variable. |
| GroupFilter.FilterByGlob | python/rustytree/backend.py:319-330 | Keeps exactly the matches and their ancestors, with their values. |
| GroupFilter.PathMatchMeans | python/rustytree/backend.py:325 | An absolute star-only pattern matches a path exactly if they have equally many segments and every segment is the pattern's with something in place of each star. |
| GroupFilter.DotChangesNothing | python/rustytree/backend.py:325 | A "." segment anywhere in the pattern changes no match. |
| GroupFilter.DoubleRootMatchesNothing | python/rustytree/backend.py:325 | A pattern with exactly two leading slashes matches nothing. |
| GroupFilter.TripleSlash | python/rustytree/backend.py:325 | Three leading slashes are one. |
| GroupFilter.FilterKeepsMeans | python/rustytree/backend.py:319-330 | The filter keeps a path exactly if it or a path below it in the tree has as many segments as the pattern, each matching. |
| GroupFilter.FilterIsLeastClosedSet | python/rustytree/backend.py:319-330 | On an ancestor-closed tree the kept keys are the least ancestor-closed set containing all matches. |
| GroupFilter.TreePathsAncestorClosed | python/rustytree/backend.py:322-323 | The paths of a hierarchy rooted at "/" are canonical and ancestor-closed. |
| GroupFilter.PruneThenFilter | src/glob.rs:9-15 | For a safe pattern any walk between the pruned and the full one is filtered to the same keys. |
| GroupFilter.PruningIsInvisibleIffSafe | src/walk.rs:515-524 | Prune-then-filter equals filter on every hierarchy if and only if the pattern is safe. |
| GroupFilter.LostMatch | src/glob.rs:48-54 | For every unsafe pattern, a hierarchy the pruned walk loses a match of. |
| GroupFilter.DotPatternLosesMatch | src/glob.rs:48-54 | "/./foo" is unsafe, and a hierarchy on which it loses a match. |
| GroupFilter.SubtreeTest | python/rustytree/backend.py:336-343 | The equality and prefix tests pick exactly the subtree: no sibling sharing a name prefix is captured. |
| GroupFilter.RelativeInjective | python/rustytree/backend.py:340-343 | Re-rooted paths are canonical, and different groups get different ones. |
| GroupFilter.RelativeKeepsParents | python/rustytree/backend.py:333-343 | Re-rooting keeps the parent relation. |
| GroupFilter.Reroot | python/rustytree/backend.py:333-344 | The result is exactly the subtree's entries under their relative paths. |
| OpenTree.FoundSubtree | python/rustytree/backend.py:502-512 | Opening a group gives the whole subtree below it and nothing else. |
| OpenTree.FindGroupMeans | python/rustytree/backend.py:502-512 | The search finds exactly the group of the hierarchy at a path, of which there is one. |
| OpenTree.GroupAtMeans | src/lib.rs:205-260 | An opened group has the attributes of the group at its path and that group's arrays, each the same but for fetched elements. |
| OpenTree.ArrayNotGroup | src/walk.rs:271-306 | No path is both a group's and an array's. |
| OpenTree.ListsFound | src/walk.rs:242-256 | What a session lists at or below a group is exactly the hierarchy of that group. |
| OpenTree.AbsentListing | src/walk.rs:270-309 | Below a path that is no group's a session lists at most an array: an orphan for a recursive walk, skipped by a flat one. |
| OpenTree.WalkPath | src/lib.rs:95-185 | The walk from any path: the visited groups with their own contents, or a broken path among them; a missing group and an array's path per kind of store. |
| OpenTree.OpenDataset | python/rustytree/backend.py:574-648 | Succeeds exactly when the group exists and its own node is readable, with that node's contents; otherwise an error names the group or an array of its own. KeyError exactly when the path is neither a group's nor, on plain Zarr, an array's or one the store fails on. |
| OpenTree.OpenFiltered | python/rustytree/backend.py:502-515 | For a safe pattern the groups opened are those that filtering the whole hierarchy keeps, each with its own contents, whichever backend and schedule; it fails exactly when something visited is unreadable, naming it. |
| OpenTree.OpenSubtree | python/rustytree/backend.py:502-571 | Succeeds exactly when the group exists, its subtree is readable and, if ancestor coordinates are included, every ancestor's own node is; otherwise the error names something unreadable in the subtree, or else in the closest unreadable ancestor. KeyError for the group exactly when neither group nor array is there and, on plain Zarr, the store does not fail on the path. The result is exactly the subtree at relative paths, each group with its own contents; with ancestor coordinates the root entry is the merge of its own node with its ancestors', closest first. |
| OpenTree.UnreadableAncestor | python/rustytree/backend.py:549-571 | A family of hierarchies in which a group is readable and its only ancestor is not, so that the flag decides; and whose array's path is no group's. |

## Left out

- zarrs, icechunk, object_store and tokio: the whole-chunk read, the child and node
  listings and the semaphore are contracts. A semaphore that is closed while in use and
  tokio's first-come-first-served queue are not modelled; results hold for any order.
- PyO3 marshalling, pickling, credential refresh, the runtime singleton and error texts;
  the difference between "not found" and other open failures inside a walk.
- dtype names and the dispatch macro: the element type is a parameter of the readers, and
  four kinds of dtype in the eager phase. `read_string_subset` is a second caller of the
  same slicer.
- xarray's part: CF decoding, building of Datasets and the DataTree, and the values of
  xarray's `merge` (python/rustytree/backend.py:571), which is a total function here; its own
  failures are not modelled.
- src/url.rs, storage options and `looks_like_icechunk_repo`.
- Irregular chunk grids: the code uses the first chunk's shape for all chunks, the model a
  regular grid.
- Odd spellings of paths: hierarchies, roots and session lists use canonical paths, and no
  group is named ".". `_normalize_literal_group` is not modelled, nor are implicit groups
  without metadata.
- Debug builds, where a wrapping operation panics instead.
- Strings are sequences of characters where Rust has UTF-8 bytes; the searches and the sort
  order agree because UTF-8 is self-synchronising and ordered like code points.
- Reader.ReadSubset: what comes of a request whose alignment wraps depends on zarrs and is
  one outcome here, `AlignmentWrapped`; the source has no such error.
- GroupFilter.PathMatch: `PurePosixPath.match` is left uninterpreted for relative patterns
  and patterns with `?` or `[`, for which the walk does not prune.
- OpenTree.WalkAbsent: that a session lists the node at the path itself, and that plain
  Zarr fails on an array's path and not with missing metadata, are contracts of icechunk
  and zarrs.
- SnapshotWalk.WalkSnapshot: arrays are built one after the other; the blocking tasks only
  affect which of several unparsable arrays is reported.
