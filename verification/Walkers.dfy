/** `walk_via_zarrs` (src/walk.rs), and how the two walkers and the Python filter fit
    together. */
module Walkers {
  import opened Discovery
  import opened EagerFetch
  import opened Glob
  import opened GroupFilter
  import opened GroupTrees
  import opened OpenFanOut
  import opened Paths
  import opened SnapshotWalk
  import opened Wrappers

  // ----- walk_via_zarrs -----

  /** The part of the hierarchy a call visits. */
  function Visited(g: Group, recursive: bool, glob: Option<GlobPredicate>): Group
  {
    if recursive then Prune(g, glob) else g.(children := [])
  }

  function Lookup(store: seq<NodeData>, path: string): (r: Option<NodeData>)
    ensures r.Some? ==> r.value in store && r.value.path == path
    ensures r.None? ==> forall i :: 0 <= i < |store| ==> store[i].path != path
  {
    if store == [] then None
    else if store[0].path == path then Some(store[0])
    else Lookup(store[1..], path)
  }

  /** The error names a broken group or array of these nodes. */
  ghost predicate Blames(nodes: seq<NodeData>, broken: set<string>, e: WalkError)
  {
    e.NotReadable? && Blamable(nodes, broken, e.path)
  }

  /** `open_single` on every discovered path, all together: every node in path order, or
      an error. */
  method OpenAll(g: Group, paths: seq<string>, broken: set<string>, ghost expected: seq<NodeData>)
    returns (r: Result<seq<NodeData>, WalkError>)
    requires WellFormed(g) && |paths| == |expected|
    requires forall i :: 0 <= i < |expected| ==> expected[i] in Flatten(g) && paths[i] == expected[i].path
    ensures r.Success? <==> AllReadable(expected, broken)
    ensures r.Success? ==> r.value == expected
    ensures r.Failure? ==> Blames(expected, broken, r.error)
  {
    var store := Flatten(g);
    forall i | 0 <= i < |paths| ensures Lookup(store, paths[i]) == Some(expected[i]) {
      LookupFinds(g, expected[i]);
    }
    var nodes := seq(|paths|, i requires 0 <= i < |paths| && Lookup(store, paths[i]).Some? =>
      Lookup(store, paths[i]).value);
    assert nodes == expected;
    var fault := OpenTogether(nodes, broken);
    r := if fault.Some? then Failure(NotReadable(fault.value)) else Success(nodes);
  }

  lemma {:induction false} VisitedIsOwn(g: Group, recursive: bool, glob: Option<GlobPredicate>)
    ensures var nodes := Flatten(Visited(g, recursive, glob));
            forall i :: 0 <= i < |nodes| ==> nodes[i] in Flatten(g)
  {
    var nodes := Flatten(Visited(g, recursive, glob));
    forall i | 0 <= i < |nodes| ensures nodes[i] in Flatten(g) {
      VisitedNode(g, recursive, glob, nodes[i]);
    }
  }

  /** Each node is a group of the hierarchy: its own attributes and its own arrays. */
  ghost predicate AllOwn(g: Group, nodes: seq<NodeData>)
  {
    forall n | n in nodes ::
      exists s :: Contains(g, s) && n.path == s.path && n.attrs == s.attrs && n.vars == s.vars
  }

  lemma {:induction false} VisitedAllOwn(g: Group, recursive: bool, glob: Option<GlobPredicate>)
    ensures AllOwn(g, Flatten(Visited(g, recursive, glob)))
  {
    forall n | n in Flatten(Visited(g, recursive, glob))
      ensures exists s :: Contains(g, s) && n.path == s.path && n.attrs == s.attrs && n.vars == s.vars
    {
      VisitedNode(g, recursive, glob, n);
      FlattenIsContents(g, n);
      var s :| Contains(g, s) && IsNodeOf(n, s);
    }
  }

  /** `walk_via_zarrs`: discover, then open every discovered group. */
  method WalkViaZarrs(g: Group, recursive: bool, glob: Option<GlobPredicate>, broken: set<string>, permits: nat)
    returns (r: Result<seq<NodeData>, WalkError>, ghost schedule: seq<seq<nat>>)
    requires WellFormed(g) && permits >= 1
    ensures r.Success? <==> AllReadable(Flatten(Visited(g, recursive, glob)), broken)
    ensures r.Success? ==> r.value == Flatten(Visited(g, recursive, glob)) && AllOwn(g, r.value)
    ensures r.Failure? ==> Blames(Flatten(Visited(g, recursive, glob)), broken, r.error)
    ensures OpensBounded(Config(glob, broken, false), g, permits, schedule)
  {
    ghost var expected := Flatten(Visited(g, recursive, glob));
    FlattenPaths(Visited(g, recursive, glob));
    VisitedIsOwn(g, recursive, glob);
    VisitedAllOwn(g, recursive, glob);
    var paths := [g.path];
    schedule := [];
    OpensAreBounded(Config(glob, broken, false), g, permits, schedule);
    if recursive {
      var discovered;
      discovered, schedule := DiscoverPaths(g, glob, broken, permits);
      if discovered.Failure? {
        NodeAt(Prune(g, glob), discovered.error);
        assert Blamable(expected, broken, discovered.error);
        BlamableIsUnreadable(expected, broken, discovered.error);
        r := Failure(NotReadable(discovered.error));
        return;
      }
      paths := discovered.value;
    }
    r := OpenAll(g, paths, broken, expected);
  }

  // ----- nodes of a tree -----

  lemma {:induction false} PruneAllFlatten(gs: seq<Group>, glob: Option<GlobPredicate>, n: NodeData)
    requires n in FlattenAll(PruneAll(gs, glob))
    ensures n in FlattenAll(gs)
    decreases gs
  {
    if Keep(glob, gs[0].path) {
      var pruned, rest := Prune(gs[0], glob), PruneAll(gs[1..], glob);
      assert PruneAll(gs, glob)[0] == pruned && PruneAll(gs, glob)[1..] == rest;
      if n in Flatten(pruned) {
        if n in FlattenAll(pruned.children) {
          PruneAllFlatten(gs[0].children, glob, n);
        }
      } else {
        PruneAllFlatten(gs[1..], glob, n);
      }
    } else {
      PruneAllFlatten(gs[1..], glob, n);
    }
  }

  /** A visited node is the hierarchy's own node. */
  lemma {:induction false} VisitedNode(g: Group, recursive: bool, glob: Option<GlobPredicate>, n: NodeData)
    requires n in Flatten(Visited(g, recursive, glob))
    ensures n in Flatten(g)
  {
    if recursive && n in FlattenAll(PruneAll(g.children, glob)) {
      PruneAllFlatten(g.children, glob, n);
    }
  }

  lemma {:induction false} NodeUnique(g: Group, a: NodeData, b: NodeData)
    requires WellFormed(g) && a in Flatten(g) && b in Flatten(g) && a.path == b.path
    ensures a == b
  {
    FlattenPaths(g);
    PreOrderAncestorsFirst(g);
    var i :| 0 <= i < |Flatten(g)| && Flatten(g)[i] == a;
    var j :| 0 <= j < |Flatten(g)| && Flatten(g)[j] == b;
    assert AncestorOrSelf(PreOrder(g)[i], PreOrder(g)[j]) && AncestorOrSelf(PreOrder(g)[j], PreOrder(g)[i]);
  }

  lemma {:induction false} LookupFinds(g: Group, n: NodeData)
    requires WellFormed(g) && n in Flatten(g)
    ensures Lookup(Flatten(g), n.path) == Some(n)
  {
    NodeUnique(g, n, if Lookup(Flatten(g), n.path).Some? then Lookup(Flatten(g), n.path).value else n);
  }

  lemma {:induction false} NodeAt(g: Group, p: string)
    ensures p in PreOrder(g) <==> exists n :: n in Flatten(g) && n.path == p
  {
    FlattenPaths(g);
    if p in PreOrder(g) {
      var i :| 0 <= i < |PreOrder(g)| && PreOrder(g)[i] == p;
      assert Flatten(g)[i] in Flatten(g);
    }
  }

  lemma {:induction false} ChildParent(parent: string, child: string, name: string)
    requires Canonical(parent) && IsChildPath(parent, child, name)
    ensures ParentOf(child) == parent
  {
    var segs := Segments(child);
    ParentOfDropsLast(segs);
    assert segs[..|segs| - 1] == Segments(parent);
  }

  lemma {:induction false} DistinctVars(vars: seq<VarMeta>)
    requires NoDuplicates(Handles(vars))
    ensures NoDuplicates(vars)
  {
    assert forall i, j :: 0 <= i < j < |vars| ==> Handles(vars)[i] != Handles(vars)[j];
  }

  /** An array's parent path is its group's path. */
  lemma {:induction false} VarParent(g: Group, n: NodeData, m: VarMeta)
    requires WellFormed(g) && n in Flatten(g) && m in n.vars
    ensures ParentOf(m.handle) == n.path && NoDuplicates(n.vars) && IsChildPath(n.path, m.handle, m.name)
    decreases g
  {
    if n in FlattenAll(g.children) {
      VarParentBelow(g, 0, n, m);
      assert g.children[0..] == g.children;
    } else {
      var i :| 0 <= i < |g.vars| && g.vars[i] == m;
      ChildParent(g.path, m.handle, m.name);
      DistinctVars(g.vars);
    }
  }

  lemma {:induction false} VarParentBelow(g: Group, k: nat, n: NodeData, m: VarMeta)
    requires WellFormed(g) && k <= |g.children| && n in FlattenAll(g.children[k..]) && m in n.vars
    ensures ParentOf(m.handle) == n.path && NoDuplicates(n.vars) && IsChildPath(n.path, m.handle, m.name)
    decreases g, 0, |g.children| - k
  {
    assert g.children[k..][1..] == g.children[k + 1..];
    if n in Flatten(g.children[k]) {
      VarParent(g.children[k], n, m);
    } else {
      VarParentBelow(g, k + 1, n, m);
    }
  }

  // ----- the two walkers agree -----

  ghost predicate InTree(g: Group, s: Snap)
  {
    match s
    case GroupSnap(path, attrs) => exists n :: n in Flatten(g) && n.path == path && n.attrs == attrs
    case ArraySnap(m) => exists n :: n in Flatten(g) && m in n.vars
  }

  /** A snapshot listing of the hierarchy: every group and array once, in any order. */
  ghost predicate ListsTree(g: Group, snaps: seq<Snap>)
  {
    NoDuplicates(snaps) && forall s :: s in snaps <==> InTree(g, s)
  }

  ghost predicate SameNode(a: NodeData, b: NodeData)
  {
    a.path == b.path && a.attrs == b.attrs && multiset(a.vars) == multiset(b.vars)
  }

  ghost predicate HasTwin(x: NodeData, nodes: seq<NodeData>)
  {
    exists y :: y in nodes && SameNode(x, y)
  }

  ghost predicate Mirrored(xs: seq<NodeData>, ys: seq<NodeData>)
  {
    forall x {:trigger HasTwin(x, ys)} :: x in xs ==> HasTwin(x, ys)
  }

  /** The same groups with the same attributes and the same arrays, in whatever order. */
  ghost predicate SameNodes(xs: seq<NodeData>, ys: seq<NodeData>)
  {
    Mirrored(xs, ys) && Mirrored(ys, xs)
  }

  lemma {:induction false} ListedPaths(g: Group, snaps: seq<Snap>, sel: Selection, p: string)
    requires ListsTree(g, snaps)
    ensures ListsGroup(snaps, sel, p) <==> sel.Passes(p) && p in PreOrder(g)
  {
    NodeAt(g, p);
    if ListsGroup(snaps, sel, p) {
      var i :| 0 <= i < |snaps| && snaps[i].GroupSnap? && snaps[i].path == p;
      assert InTree(g, snaps[i]);
    }
    if n :| n in Flatten(g) && n.path == p {
      assert InTree(g, GroupSnap(p, n.attrs));
    }
  }

  lemma {:induction false} PathsVisited(g: Group, recursive: bool, glob: Option<GlobPredicate>, p: string)
    requires WellFormed(g) && Keep(glob, g.path)
    ensures p in PreOrder(Visited(g, recursive, glob)) <==>
            p in PreOrder(g) && Selection(g.path, recursive, glob).Passes(p)
  {
    PrunedPaths(g, glob, p);
  }

  lemma {:induction false} PassingMultiplicity(snaps: seq<Snap>, sel: Selection, m: VarMeta)
    ensures multiset(PassingArrays(snaps, sel))[m] ==
            if sel.Passes(ParentOf(m.handle)) then multiset(snaps)[ArraySnap(m)] else 0
  {
    if snaps == [] {
    } else {
      PassingMultiplicity(snaps[..|snaps| - 1], sel, m);
      assert snaps == snaps[..|snaps| - 1] + [snaps[|snaps| - 1]];
    }
  }

  lemma {:induction false} OnceEach<T>(s: seq<T>, x: T)
    requires NoDuplicates(s)
    ensures multiset(s)[x] == if x in s then 1 else 0
  {
    if s == [] {
    } else {
      var front, last := s[..|s| - 1], s[|s| - 1];
      OnceEach(front, x);
      assert s == front + [last];
    }
  }

  lemma {:induction false} ArrayListedOnce(g: Group, snaps: seq<Snap>, n: NodeData, m: VarMeta)
    requires WellFormed(g) && ListsTree(g, snaps) && n in Flatten(g)
    ensures (if ParentOf(m.handle) == n.path then multiset(snaps)[ArraySnap(m)] else 0) == multiset(n.vars)[m]
  {
    OnceEach(snaps, ArraySnap(m));
    if m in n.vars {
      VarParent(g, n, m);
      OnceEach(n.vars, m);
      assert InTree(g, ArraySnap(m));
    } else if ParentOf(m.handle) == n.path && ArraySnap(m) in snaps {
      assert InTree(g, ArraySnap(m));
      var other :| other in Flatten(g) && m in other.vars;
      VarParent(g, other, m);
      NodeUnique(g, n, other);
    }
  }

  lemma {:induction false} SameMultiplicity(g: Group, snaps: seq<Snap>, sel: Selection, n: NodeData, m: VarMeta)
    requires WellFormed(g) && ListsTree(g, snaps) && n in Flatten(g) && sel.Passes(n.path)
    ensures multiset(Under(PassingArrays(snaps, sel), n.path))[m] == multiset(n.vars)[m]
  {
    UnderMultiplicity(PassingArrays(snaps, sel), n.path, m);
    PassingMultiplicity(snaps, sel, m);
    ArrayListedOnce(g, snaps, n, m);
  }

  lemma {:induction false} SameBag<T>(a: multiset<T>, b: multiset<T>)
    requires forall x: T :: a[x] == b[x]
    ensures a == b
  {}

  /** The arrays the snapshot walker hands to a group are that group's arrays. */
  lemma {:induction false} SameArrays(g: Group, snaps: seq<Snap>, sel: Selection, n: NodeData)
    requires WellFormed(g) && ListsTree(g, snaps) && n in Flatten(g) && sel.Passes(n.path)
    ensures multiset(Under(PassingArrays(snaps, sel), n.path)) == multiset(n.vars)
  {
    var handed := Under(PassingArrays(snaps, sel), n.path);
    forall m: VarMeta ensures multiset(handed)[m] == multiset(n.vars)[m] {
      SameMultiplicity(g, snaps, sel, n, m);
    }
    SameBag(multiset(handed), multiset(n.vars));
  }

  lemma {:induction false} NodeMatches(g: Group, snaps: seq<Snap>, sel: Selection, x: NodeData, y: NodeData)
    requires WellFormed(g) && ListsTree(g, snaps) && sel.Passes(x.path) && x.path == y.path && y in Flatten(g)
    requires GroupSnap(x.path, x.attrs) in snaps && x.vars == Under(PassingArrays(snaps, sel), x.path)
    ensures SameNode(x, y)
  {
    assert InTree(g, GroupSnap(x.path, x.attrs));
    var n :| n in Flatten(g) && n.path == x.path && n.attrs == x.attrs;
    NodeUnique(g, n, y);
    SameArrays(g, snaps, sel, y);
  }

  lemma {:induction false} ListedNodeIsVisited(g: Group, snaps: seq<Snap>, recursive: bool,
                                               glob: Option<GlobPredicate>, nodes: seq<NodeData>, x: NodeData)
    returns (y: NodeData)
    requires WellFormed(g) && ListsTree(g, snaps) && Keep(glob, g.path)
    requires Assembled(snaps, Selection(g.path, recursive, glob), nodes) && x in nodes
    ensures y in Flatten(Visited(g, recursive, glob)) && SameNode(x, y)
  {
    var sel, visited := Selection(g.path, recursive, glob), Visited(g, recursive, glob);
    var i :| 0 <= i < |nodes| && nodes[i] == x;
    assert ListsGroup(snaps, sel, x.path);
    ListedPaths(g, snaps, sel, x.path);
    PathsVisited(g, recursive, glob, x.path);
    NodeAt(visited, x.path);
    y :| y in Flatten(visited) && y.path == x.path;
    VisitedNode(g, recursive, glob, y);
    NodeMatches(g, snaps, sel, x, y);
  }

  lemma {:induction false} VisitedNodeIsListed(g: Group, snaps: seq<Snap>, recursive: bool,
                                               glob: Option<GlobPredicate>, nodes: seq<NodeData>, y: NodeData)
    returns (x: NodeData)
    requires WellFormed(g) && ListsTree(g, snaps) && Keep(glob, g.path)
    requires Assembled(snaps, Selection(g.path, recursive, glob), nodes) && y in Flatten(Visited(g, recursive, glob))
    ensures x in nodes && SameNode(x, y)
  {
    var sel, visited := Selection(g.path, recursive, glob), Visited(g, recursive, glob);
    NodeAt(visited, y.path);
    PathsVisited(g, recursive, glob, y.path);
    ListedPaths(g, snaps, sel, y.path);
    var i :| 0 <= i < |nodes| && nodes[i].path == y.path;
    x := nodes[i];
    VisitedNode(g, recursive, glob, y);
    NodeMatches(g, snaps, sel, x, y);
  }

  /** On any hierarchy whose root survives the predicate, and any listing of it, the two
      walkers return the same groups, attributes and arrays. */
  lemma {:induction false} WalkersAgree(g: Group, snaps: seq<Snap>, recursive: bool,
                                        glob: Option<GlobPredicate>, nodes: seq<NodeData>)
    requires WellFormed(g) && ListsTree(g, snaps) && Keep(glob, g.path)
    requires Assembled(snaps, Selection(g.path, recursive, glob), nodes)
    ensures SameNodes(nodes, Flatten(Visited(g, recursive, glob)))
  {
    var visited := Flatten(Visited(g, recursive, glob));
    forall x | x in nodes ensures HasTwin(x, visited) {
      var y := ListedNodeIsVisited(g, snaps, recursive, glob, nodes, x);
    }
    forall y | y in visited ensures HasTwin(y, nodes) {
      var x := VisitedNodeIsListed(g, snaps, recursive, glob, nodes, y);
      assert SameNode(y, x);
    }
  }

  /** And they agree only then: the snapshot walker drops a root the predicate rejects,
      with everything below it, while the other walker always opens the root. */
  lemma {:induction false} WalkersDisagreeOnPrunedRoot(g: Group, snaps: seq<Snap>, recursive: bool,
                                                       glob: Option<GlobPredicate>, nodes: seq<NodeData>)
    requires WellFormed(g) && ListsTree(g, snaps) && !Keep(glob, g.path)
    requires Assembled(snaps, Selection(g.path, recursive, glob), nodes)
    ensures nodes == [] && !SameNodes(nodes, Flatten(Visited(g, recursive, glob)))
  {
    var sel := Selection(g.path, recursive, glob);
    if nodes != [] {
      var p := nodes[0].path;
      assert ListsGroup(snaps, sel, p);
      ListedPaths(g, snaps, sel, p);
      BelowRoot(g, p);
      CouldMatchAntitone(glob.value, g.path, p);
    }
    var root := NodeData(g.path, g.attrs, g.vars);
    assert root in Flatten(Visited(g, recursive, glob)) && !HasTwin(root, nodes);
  }

  lemma {:induction false} RootPattern()
    ensures Parse("/").segments == Some([])
  {
    RenderRoundTrip([]);
    ParseSegments("/");
  }

  lemma {:induction false} EmptyPatternRejects(glob: GlobPredicate, path: string)
    requires glob.segments == Some([]) && Segments(path) != []
    ensures !Keep(Some(glob), path)
  {}

  /** It happens: the pattern "/" rejects every root but "/". */
  lemma {:induction false} RootCanBeRejected(root: string)
    requires Canonical(root) && root != "/"
    ensures !Keep(Some(Parse("/")), root)
  {
    RootPattern();
    EmptyPatternRejects(Parse("/"), root);
  }

  /** A listing of a hierarchy has every array's parent group, so the snapshot walker
      cannot fail on it for want of one, and fails to read exactly when the other does. */
  lemma {:induction false} WalkersFailTogether(g: Group, snaps: seq<Snap>, recursive: bool,
                                               glob: Option<GlobPredicate>, broken: set<string>)
    requires WellFormed(g) && ListsTree(g, snaps) && Keep(glob, g.path)
    ensures ParentsListed(snaps)
    ensures (exists p :: Unreadable(snaps, Selection(g.path, recursive, glob), broken, p)) <==>
            !AllReadable(Flatten(Visited(g, recursive, glob)), broken)
  {
    var sel, visited := Selection(g.path, recursive, glob), Visited(g, recursive, glob);
    forall s | s in snaps && s.ArraySnap?
      ensures exists i :: 0 <= i < |snaps| && snaps[i].GroupSnap? && snaps[i].path == ParentOf(s.meta.handle)
    {
      assert InTree(g, s);
      var n :| n in Flatten(g) && s.meta in n.vars;
      VarParent(g, n, s.meta);
      assert InTree(g, GroupSnap(n.path, n.attrs));
      assert GroupSnap(n.path, n.attrs) in snaps;
    }
    if p :| Unreadable(snaps, sel, broken, p) {
      UnreadableIsVisited(g, snaps, recursive, glob, broken, p);
      BlamableIsUnreadable(Flatten(visited), broken, p);
    }
    if !AllReadable(Flatten(visited), broken) {
      var i :| 0 <= i < |Flatten(visited)| && !Readable(Flatten(visited)[i], broken);
      VisitedIsUnreadable(g, snaps, recursive, glob, broken, Flatten(visited)[i]);
    }
  }

  /** A listed group that passes is a visited one. */
  lemma {:induction false} PassingGroupIsVisited(g: Group, recursive: bool, glob: Option<GlobPredicate>, n: NodeData)
    requires WellFormed(g) && Keep(glob, g.path) && n in Flatten(g)
    requires Selection(g.path, recursive, glob).Passes(n.path)
    ensures n in Flatten(Visited(g, recursive, glob))
  {
    NodeAt(g, n.path);
    PathsVisited(g, recursive, glob, n.path);
    NodeAt(Visited(g, recursive, glob), n.path);
    var v :| v in Flatten(Visited(g, recursive, glob)) && v.path == n.path;
    VisitedNode(g, recursive, glob, v);
    NodeUnique(g, v, n);
  }

  lemma {:induction false} HasHandle(n: NodeData, m: VarMeta)
    requires m in n.vars
    ensures m.handle in Handles(n.vars)
  {
    var i :| 0 <= i < |n.vars| && n.vars[i] == m;
    assert Handles(n.vars)[i] == m.handle;
  }

  lemma {:induction false} UnreadableIsVisited(g: Group, snaps: seq<Snap>, recursive: bool,
                                               glob: Option<GlobPredicate>, broken: set<string>, p: string)
    requires WellFormed(g) && ListsTree(g, snaps) && Keep(glob, g.path)
    requires Unreadable(snaps, Selection(g.path, recursive, glob), broken, p)
    ensures Blamable(Flatten(Visited(g, recursive, glob)), broken, p)
  {
    var sel := Selection(g.path, recursive, glob);
    var n: NodeData;
    if ListsGroup(snaps, sel, p) {
      ListedPaths(g, snaps, sel, p);
      NodeAt(g, p);
      n :| n in Flatten(g) && n.path == p;
    } else {
      var m :| m in PassingArrays(snaps, sel) && m.handle == p;
      InPassing(snaps, sel, m);
      assert InTree(g, ArraySnap(m));
      n :| n in Flatten(g) && m in n.vars;
      VarParent(g, n, m);
      HasHandle(n, m);
    }
    PassingGroupIsVisited(g, recursive, glob, n);
  }

  lemma {:induction false} VisitedIsUnreadable(g: Group, snaps: seq<Snap>, recursive: bool,
                                               glob: Option<GlobPredicate>, broken: set<string>, v: NodeData)
    requires WellFormed(g) && ListsTree(g, snaps) && Keep(glob, g.path)
    requires v in Flatten(Visited(g, recursive, glob)) && !Readable(v, broken)
    ensures exists p :: Unreadable(snaps, Selection(g.path, recursive, glob), broken, p)
  {
    var sel, visited := Selection(g.path, recursive, glob), Visited(g, recursive, glob);
    NodeAt(visited, v.path);
    PathsVisited(g, recursive, glob, v.path);
    ListedPaths(g, snaps, sel, v.path);
    if v.path in broken {
      assert Unreadable(snaps, sel, broken, v.path);
    } else {
      var i :| 0 <= i < |v.vars| && v.vars[i].handle in broken;
      VisitedNode(g, recursive, glob, v);
      VarParent(g, v, v.vars[i]);
      assert InTree(g, ArraySnap(v.vars[i]));
      InPassing(snaps, sel, v.vars[i]);
      assert Unreadable(snaps, sel, broken, v.vars[i].handle);
    }
  }

  // ----- walk_recursive -----

  datatype WalkSource = Icechunk(snaps: seq<Snap>) | Vanilla

  /** The source offers the hierarchy `g`; a snapshot does so only if the root survives. */
  ghost predicate Offers(source: WalkSource, g: Group, glob: Option<GlobPredicate>)
  {
    source.Icechunk? ==> ListsTree(g, source.snaps) && Keep(glob, g.path)
  }

  function WarmedAll(nodes: seq<NodeData>, contents: map<string, Elements>): seq<NodeData>
  {
    seq(|nodes|, i requires 0 <= i < |nodes| => WarmedNode(nodes[i], contents))
  }

  function WarmedVars(vars: seq<VarMeta>, contents: map<string, Elements>): seq<VarMeta>
  {
    seq(|vars|, i requires 0 <= i < |vars| => Warmed(vars[i], contents))
  }

  lemma {:induction false} WarmedAppend(a: seq<VarMeta>, b: seq<VarMeta>, contents: map<string, Elements>)
    ensures WarmedVars(a + b, contents) == WarmedVars(a, contents) + WarmedVars(b, contents)
  {}

  lemma {:induction false} WarmedAround(a: seq<VarMeta>, x: VarMeta, b: seq<VarMeta>, contents: map<string, Elements>)
    ensures multiset(WarmedVars(a + [x] + b, contents)) ==
            multiset{Warmed(x, contents)} + multiset(WarmedVars(a + b, contents))
  {
    WarmedAppend(a + [x], b, contents);
    WarmedAppend(a, [x], contents);
    WarmedAppend(a, b, contents);
    assert WarmedVars([x], contents) == [Warmed(x, contents)];
  }

  lemma {:induction false} MultisetAround<T>(before: seq<T>, x: T, after: seq<T>)
    ensures multiset(before + [x] + after) == multiset{x} + multiset(before + after)
  {}

  lemma {:induction false} MultisetCancel<T>(x: T, a: multiset<T>, b: multiset<T>)
    requires multiset{x} + a == multiset{x} + b
    ensures a == b
  {
    assert multiset{x} + a - multiset{x} == a;
  }

  lemma {:induction false} CutAt<T>(s: seq<T>, k: nat)
    requires k < |s|
    ensures s == s[..k] + [s[k]] + s[k + 1..]
    ensures multiset(s) == multiset{s[k]} + multiset(s[..k] + s[k + 1..])
  {
    MultisetAround(s[..k], s[k], s[k + 1..]);
  }

  /** Take the first of `xs` out of a reordering of `xs`. */
  lemma {:induction false} TakeOut<T>(xs: seq<T>, ys: seq<T>) returns (before: seq<T>, after: seq<T>)
    requires xs != [] && multiset(xs) == multiset(ys)
    ensures ys == before + [xs[0]] + after && multiset(xs[1..]) == multiset(before + after)
  {
    assert xs[0] in multiset(xs);
    var k: nat :| k < |ys| && ys[k] == xs[0];
    before, after := ys[..k], ys[k + 1..];
    CutAt(ys, k);
    CutAt(xs, 0);
    assert xs[..0] + xs[1..] == xs[1..];
    MultisetCancel(xs[0], multiset(xs[1..]), multiset(before + after));
  }

  /** Fetching commutes with reordering. */
  lemma {:induction false} WarmedReordered(xs: seq<VarMeta>, ys: seq<VarMeta>, contents: map<string, Elements>)
    requires multiset(xs) == multiset(ys)
    ensures multiset(WarmedVars(xs, contents)) == multiset(WarmedVars(ys, contents))
    decreases |xs|
  {
    if xs == [] {
      assert multiset(ys) == multiset{};
      assert ys == [];
    } else {
      var before, after := TakeOut(xs, ys);
      WarmedReordered(xs[1..], before + after, contents);
      WarmedAround([], xs[0], xs[1..], contents);
      assert [] + [xs[0]] + xs[1..] == xs && [] + xs[1..] == xs[1..];
      WarmedAround(before, xs[0], after, contents);
    }
  }

  lemma {:induction false} WarmedSameNode(x: NodeData, y: NodeData, contents: map<string, Elements>)
    requires SameNode(x, y)
    ensures SameNode(WarmedNode(x, contents), WarmedNode(y, contents))
  {
    WarmedReordered(x.vars, y.vars, contents);
    assert WarmedNode(x, contents).vars == WarmedVars(x.vars, contents);
    assert WarmedNode(y, contents).vars == WarmedVars(y.vars, contents);
  }

  lemma {:induction false} InWarmed(nodes: seq<NodeData>, n: NodeData, contents: map<string, Elements>)
    requires n in nodes
    ensures WarmedNode(n, contents) in WarmedAll(nodes, contents)
  {
    var i :| 0 <= i < |nodes| && nodes[i] == n;
    assert WarmedAll(nodes, contents)[i] == WarmedNode(n, contents);
  }

  lemma {:induction false} WarmedMirror(xs: seq<NodeData>, ys: seq<NodeData>, contents: map<string, Elements>)
    requires Mirrored(xs, ys)
    ensures Mirrored(WarmedAll(xs, contents), WarmedAll(ys, contents))
  {
    forall x | x in WarmedAll(xs, contents) ensures HasTwin(x, WarmedAll(ys, contents)) {
      var i :| 0 <= i < |WarmedAll(xs, contents)| && WarmedAll(xs, contents)[i] == x;
      assert HasTwin(xs[i], ys);
      var y :| y in ys && SameNode(xs[i], y);
      WarmedSameNode(xs[i], y, contents);
      InWarmed(ys, y, contents);
    }
  }

  lemma {:induction false} SameAsItself(nodes: seq<NodeData>)
    ensures SameNodes(nodes, nodes)
  {
    forall x | x in nodes ensures HasTwin(x, nodes) {
      assert SameNode(x, x);
    }
  }

  lemma {:induction false} VisitedAncestorsFirst(g: Group, recursive: bool, glob: Option<GlobPredicate>)
    requires WellFormed(g)
    ensures AncestorsFirst(PathList(Flatten(Visited(g, recursive, glob))))
  {
    var visited := Visited(g, recursive, glob);
    if recursive {
      PruneWellFormed(g, glob);
    }
    PreOrderAncestorsFirst(visited);
    FlattenPaths(visited);
    assert PathList(Flatten(visited)) == PreOrder(visited);
  }

  lemma {:induction false} ListedAncestorsFirst(g: Group, snaps: seq<Snap>, sel: Selection, nodes: seq<NodeData>)
    requires WellFormed(g) && ListsTree(g, snaps) && Assembled(snaps, sel, nodes)
    ensures AncestorsFirst(PathList(nodes))
  {
    forall i | 0 <= i < |nodes| ensures Canonical(nodes[i].path) {
      assert ListsGroup(snaps, sel, nodes[i].path);
      ListedPaths(g, snaps, sel, nodes[i].path);
      BelowRoot(g, nodes[i].path);
    }
    SortedIsAncestorsFirst(nodes);
  }

  /** Either walker, on the hierarchy the source offers. */
  method WalkSourceOnce(g: Group, source: WalkSource, permits: nat, recursive: bool,
                        glob: Option<GlobPredicate>, broken: set<string>)
    returns (r: Result<seq<NodeData>, WalkError>, ghost schedule: seq<seq<nat>>)
    requires WellFormed(g) && Offers(source, g, glob) && permits >= 1
    ensures r.Success? <==> AllReadable(Flatten(Visited(g, recursive, glob)), broken)
    ensures r.Success? ==> SameNodes(r.value, Flatten(Visited(g, recursive, glob))) && AncestorsFirst(PathList(r.value))
    ensures r.Failure? ==> Blames(Flatten(Visited(g, recursive, glob)), broken, r.error)
    ensures OpensBounded(Config(glob, broken, false), g, permits, schedule)
  {
    match source
    case Icechunk(snaps) =>
      ghost var sel := Selection(g.path, recursive, glob);
      WalkersFailTogether(g, snaps, recursive, glob, broken);
      schedule := [];
      OpensAreBounded(Config(glob, broken, false), g, permits, schedule);
      r := WalkSnapshot(snaps, g.path, recursive, glob, broken);
      if r.Success? {
        WalkersAgree(g, snaps, recursive, glob, r.value);
        ListedAncestorsFirst(g, snaps, sel, r.value);
      } else if r.error.Orphans? {
        NoOrphans(snaps, sel, r.error.parent);
      } else {
        UnreadableIsVisited(g, snaps, recursive, glob, broken, r.error.path);
      }
    case Vanilla =>
      r, schedule := WalkViaZarrs(g, recursive, glob, broken, permits);
      VisitedAncestorsFirst(g, recursive, glob);
      SameAsItself(Flatten(Visited(g, recursive, glob)));
  }

  ghost predicate AllFresh(nodes: seq<NodeData>, contents: map<string, Elements>)
  {
    forall n, m | n in nodes && m in n.vars :: Fresh(m, contents)
  }

  /** Every resident variable holds its own array's elements and is within the caps. */
  ghost predicate AllWithinCaps(nodes: seq<NodeData>, contents: map<string, Elements>)
  {
    forall n, m | n in nodes && m in n.vars && m.eager.Some? :: Resident(m, contents)
  }

  ghost predicate Resident(m: VarMeta, contents: map<string, Elements>)
  {
    m.handle in contents && m.eager == Some(contents[m.handle]) && WithinCaps(m, contents[m.handle])
  }

  lemma {:induction false} WarmedIsResident(v: VarMeta, contents: map<string, Elements>)
    requires Fresh(v, contents) && Warmed(v, contents).eager.Some?
    ensures Resident(Warmed(v, contents), contents)
  {
    ResidentIffWithinCaps(v, contents);
  }

  /** Fresh nodes are within the caps once warmed. */
  lemma {:induction false} WarmedWithinCaps(found: seq<NodeData>, visited: seq<NodeData>,
                                            contents: map<string, Elements>)
    requires SameNodes(found, visited) && AllFresh(visited, contents)
    ensures AllWithinCaps(WarmedAll(found, contents), contents)
  {
    var warm := WarmedAll(found, contents);
    forall n, m | n in warm && m in n.vars && m.eager.Some? ensures Resident(m, contents) {
      var i :| 0 <= i < |warm| && warm[i] == n;
      var j :| 0 <= j < |n.vars| && n.vars[j] == m;
      var own := found[i].vars[j];
      assert HasTwin(found[i], visited);
      var y :| y in visited && SameNode(found[i], y);
      assert own in multiset(found[i].vars);
      assert own in y.vars;
      WarmedIsResident(own, contents);
    }
  }

  /** Variable by variable, the same but for `eager`. */
  ghost predicate AllSameButEager(after: seq<VarMeta>, before: seq<VarMeta>, contents: map<string, Elements>)
  {
    |after| == |before| && forall j :: 0 <= j < |after| ==> SameButEager(after[j], before[j], contents)
  }

  /** `n` is a group of the hierarchy: its own path and attributes, and its own arrays in
      some order, each the same but that its elements may have been fetched. */
  ghost predicate Delivers(g: Group, contents: map<string, Elements>, n: NodeData)
  {
    exists s, vars ::
      && Contains(g, s) && n.path == s.path && n.attrs == s.attrs
      && multiset(vars) == multiset(s.vars) && AllSameButEager(n.vars, vars, contents)
  }

  lemma {:induction false} WarmedDelivers(g: Group, x: NodeData, own: NodeData, contents: map<string, Elements>)
    requires own in Flatten(g) && SameNode(x, own)
    ensures Delivers(g, contents, WarmedNode(x, contents))
  {
    FlattenIsContents(g, own);
    var s :| Contains(g, s) && IsNodeOf(own, s);
    var n := WarmedNode(x, contents);
    forall j | 0 <= j < |n.vars| ensures SameButEager(n.vars[j], x.vars[j], contents) {
      WarmedIsSame(x.vars[j], contents);
    }
    assert AllSameButEager(n.vars, x.vars, contents);
  }

  lemma {:induction false} WarmedAllDeliver(g: Group, found: seq<NodeData>, visited: seq<NodeData>,
                                            contents: map<string, Elements>)
    requires SameNodes(found, visited) && forall v | v in visited :: v in Flatten(g)
    ensures forall n | n in WarmedAll(found, contents) :: Delivers(g, contents, n)
  {
    forall n | n in WarmedAll(found, contents) ensures Delivers(g, contents, n) {
      var i :| 0 <= i < |found| && WarmedAll(found, contents)[i] == n;
      assert HasTwin(found[i], visited);
      var own :| own in visited && SameNode(found[i], own);
      WarmedDelivers(g, found[i], own, contents);
    }
  }

  /** The order in which one walk's group opens and eager reads were made. */
  datatype Trace = Trace(opens: seq<seq<nat>>, work: seq<VarMeta>, fetches: seq<nat>)

  ghost predicate TraceBounded(g: Group, glob: Option<GlobPredicate>, broken: set<string>,
                               contents: map<string, Elements>, permits: nat, trace: Trace)
  {
    && OpensBounded(Config(glob, broken, false), g, permits, trace.opens)
    && ReadsBounded(trace.work, contents, permits, trace.fetches)
  }

  /** `walk_recursive`: whichever backend holds the hierarchy, the caller gets the visited
      groups, ancestors first, with their attributes and arrays, the small ones fetched; or
      an error exactly when a visited group or array is unreadable. Neither discovery's
      opens nor the eager reads in flight ever exceed the concurrency asked for. */
  method WalkRecursive(g: Group, source: WalkSource, maxConcurrency: Option<nat>, recursive: bool,
                       glob: Option<GlobPredicate>, broken: set<string>, contents: map<string, Elements>)
    returns (r: Result<seq<NodeData>, WalkError>, ghost trace: Trace)
    requires WellFormed(g) && Offers(source, g, glob)
    ensures r.Success? <==> AllReadable(Flatten(Visited(g, recursive, glob)), broken)
    ensures r.Success? ==> SameNodes(r.value, WarmedAll(Flatten(Visited(g, recursive, glob)), contents))
    ensures r.Success? ==> forall n | n in r.value :: Delivers(g, contents, n)
    ensures r.Success? ==> AncestorsFirst(PathList(r.value))
    ensures r.Success? && AllFresh(Flatten(Visited(g, recursive, glob)), contents) ==> AllWithinCaps(r.value, contents)
    ensures r.Failure? ==> Blames(Flatten(Visited(g, recursive, glob)), broken, r.error)
    ensures var permits := match maxConcurrency case None => 32 case Some(m) => if m >= 1 then m else 1;
            TraceBounded(g, glob, broken, contents, permits, trace)
  {
    var limit: nat := if maxConcurrency.Some? then maxConcurrency.value else 32;
    var permits: nat := if limit > 1 then limit else 1;
    ghost var opens;
    r, opens := WalkSourceOnce(g, source, permits, recursive, glob, broken);
    FetchesAreBounded([], contents, permits, []);
    trace := Trace(opens, [], []);
    if r.Success? {
      var found := r.value;
      ghost var visited := Flatten(Visited(g, recursive, glob));
      var nodes := new NodeData[|found|](i requires 0 <= i < |found| => found[i]);
      ghost var work, fetches := EagerPhase(nodes, permits, contents);
      trace := Trace(opens, work, fetches);
      r := Success(nodes[..]);
      WalkedAndWarmed(g, recursive, glob, found, nodes[..], contents);
    }
  }

  lemma {:induction false} WalkedAndWarmed(g: Group, recursive: bool, glob: Option<GlobPredicate>,
                                           found: seq<NodeData>, nodes: seq<NodeData>, contents: map<string, Elements>)
    requires var visited := Flatten(Visited(g, recursive, glob));
             SameNodes(found, visited) && AncestorsFirst(PathList(found))
    requires |nodes| == |found| && forall i :: 0 <= i < |nodes| ==> nodes[i] == WarmedNode(found[i], contents)
    ensures var visited := Flatten(Visited(g, recursive, glob));
            && SameNodes(nodes, WarmedAll(visited, contents)) && AncestorsFirst(PathList(nodes))
            && (forall n | n in nodes :: Delivers(g, contents, n))
            && (AllFresh(visited, contents) ==> AllWithinCaps(nodes, contents))
  {
    var visited := Flatten(Visited(g, recursive, glob));
    assert nodes == WarmedAll(found, contents);
    assert PathList(nodes) == PathList(found);
    WarmedMirror(found, visited, contents);
    WarmedMirror(visited, found, contents);
    if AllFresh(visited, contents) {
      WarmedWithinCaps(found, visited, contents);
    }
    VisitedIsOwn(g, recursive, glob);
    WarmedAllDeliver(g, found, visited, contents);
  }

  // ----- prune, then filter -----

  ghost function NodePaths(nodes: seq<NodeData>): set<string>
  {
    set i | 0 <= i < |nodes| :: nodes[i].path
  }

  /** For the snapshot walker too, filtering the pruned walk gives the keys of filtering
      the full walk. */
  lemma {:induction false} SnapshotPruningIsInvisible(snaps: seq<Snap>, root: string, pattern: string,
                                                      other: (string, string) -> bool,
                                                      pruned: seq<NodeData>, full: seq<NodeData>)
    requires PruneSafe(pattern)
    requires Assembled(snaps, Selection(root, true, Some(Parse(pattern))), pruned)
    requires Assembled(snaps, Selection(root, true, None), full)
    ensures FilteredKeys(NodePaths(pruned), pattern, other) == FilteredKeys(NodePaths(full), pattern, other)
  {
    forall p ensures p in NodePaths(pruned) <==> p in NodePaths(full) && CouldMatch(Parse(pattern), p) {
      var narrow, wide := Selection(root, true, Some(Parse(pattern))), Selection(root, true, None);
      assert ListsGroup(snaps, narrow, p) <==> ListsGroup(snaps, wide, p) && CouldMatch(Parse(pattern), p);
    }
    PruneThenFilter(NodePaths(full), NodePaths(pruned), pattern, other);
  }
}
