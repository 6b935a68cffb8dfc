/** How `open_datatree` and `open_dataset` (python/rustytree/backend.py) put the walk, the
    filter, the re-rooting and the ancestor coordinates together. */
module OpenTree {
  import opened EagerFetch
  import opened Glob
  import opened GroupFilter
  import opened GroupTrees
  import opened OpenFanOut
  import opened Paths
  import opened SnapshotWalk
  import opened Walkers
  import opened Wrappers

  datatype OpenError = KeyError(group: string) | WalkFailed(error: WalkError)

  // ----- the requested group -----

  function FindGroup(g: Group, path: string): Option<Group>
    decreases g
  {
    if g.path == path then Some(g) else FindAmong(g.children, path)
  }

  function FindAmong(gs: seq<Group>, path: string): Option<Group>
    decreases gs
  {
    if gs == [] then None
    else if FindGroup(gs[0], path).Some? then FindGroup(gs[0], path)
    else FindAmong(gs[1..], path)
  }

  lemma {:induction false} FindAmongChildren(gs: seq<Group>, path: string)
    ensures match FindAmong(gs, path)
            case None => forall c | c in gs :: FindGroup(c, path).None?
            case Some(_) => exists k :: 0 <= k < |gs| && FindGroup(gs[k], path) == FindAmong(gs, path)
  {
    if gs == [] {
    } else {
      FindAmongChildren(gs[1..], path);
      if FindGroup(gs[0], path).None? && FindAmong(gs[1..], path).Some? {
        var k :| 0 <= k < |gs[1..]| && FindGroup(gs[1..][k], path) == FindAmong(gs[1..], path);
        assert gs[k + 1] == gs[1..][k];
      }
    }
  }

  /** Every path of the hierarchy is found. */
  lemma {:induction false} FindsPath(g: Group, path: string)
    requires path in PreOrder(g)
    ensures FindGroup(g, path).Some?
    decreases g
  {
    if g.path != path {
      InPreOrderAll(g.children, path);
      var c :| c in g.children && path in PreOrder(c);
      FindsPath(c, path);
      FindAmongChildren(g.children, path);
    }
  }

  lemma {:induction false} FoundAt(g: Group, path: string)
    requires WellFormed(g) && FindGroup(g, path).Some?
    ensures WellFormed(FindGroup(g, path).value) && FindGroup(g, path).value.path == path
    ensures path in PreOrder(g)
    decreases g
  {
    if g.path == path {
    } else {
      FindAmongChildren(g.children, path);
      var k :| 0 <= k < |g.children| && FindGroup(g.children[k], path) == FindAmong(g.children, path);
      FoundAt(g.children[k], path);
      InPreOrderAll(g.children, path);
    }
  }

  /** What is found is the whole subtree below the path, and nothing else. */
  lemma {:induction false} FoundSubtree(g: Group, path: string, q: string)
    requires WellFormed(g) && FindGroup(g, path).Some?
    ensures var s := FindGroup(g, path).value;
            WellFormed(s) && s.path == path && (q in PreOrder(s) <==> q in PreOrder(g) && AncestorOrSelf(path, q))
    decreases g
  {
    FoundAt(g, path);
    if g.path == path {
      if q in PreOrder(g) { BelowRoot(g, q); }
    } else {
      FindAmongChildren(g.children, path);
      var k :| 0 <= k < |g.children| && FindGroup(g.children[k], path) == FindAmong(g.children, path);
      FoundAt(g.children[k], path);
      FoundSubtree(g.children[k], path, q);
      OnlyThatChild(g, k, path, q);
    }
  }

  lemma {:induction false} ContainsPath(g: Group, s: Group)
    requires Contains(g, s)
    ensures s.path in PreOrder(g)
    decreases g
  {
    if s != g {
      var c :| c in g.children && Contains(c, s);
      ContainsPath(c, s);
      InPreOrderAll(g.children, s.path);
    }
  }

  lemma {:induction false} FoundIsContained(g: Group, path: string)
    requires FindGroup(g, path).Some?
    ensures Contains(g, FindGroup(g, path).value) && FindGroup(g, path).value.path == path
    decreases g
  {
    if g.path == path {
    } else {
      FindAmongChildren(g.children, path);
      var k :| 0 <= k < |g.children| && FindGroup(g.children[k], path) == FindAmong(g.children, path);
      FoundIsContained(g.children[k], path);
    }
  }

  lemma {:induction false} ContainsTransitive(g: Group, s: Group, t: Group)
    requires Contains(g, s) && Contains(s, t)
    ensures Contains(g, t)
    decreases g
  {
    if s != g {
      var c :| c in g.children && Contains(c, s);
      ContainsTransitive(c, s, t);
    }
  }

  /** A hierarchy has one group at a path. */
  lemma {:induction false} OneGroupPerPath(g: Group, s: Group, t: Group)
    requires WellFormed(g) && Contains(g, s) && Contains(g, t) && s.path == t.path
    ensures s == t
    decreases g
  {
    ContainsPath(g, s);
    if s == g || t == g {
      if s != g { NotBelowItself(g, s); }
      if t != g { NotBelowItself(g, t); }
    } else {
      var k := ChildWith(g, s);
      var m := ChildWith(g, t);
      ContainsPath(g.children[k], s);
      ContainsPath(g.children[m], t);
      if k < m {
        SiblingsUnrelated(g, k, m, s.path, t.path);
      } else if m < k {
        SiblingsUnrelated(g, m, k, t.path, s.path);
      }
      OneGroupPerPath(g.children[k], s, t);
    }
  }

  lemma {:induction false} ChildWith(g: Group, s: Group) returns (k: nat)
    requires Contains(g, s) && s != g
    ensures k < |g.children| && Contains(g.children[k], s)
  {
    var c :| c in g.children && Contains(c, s);
    k :| k < |g.children| && g.children[k] == c;
  }

  lemma {:induction false} NotBelowItself(g: Group, s: Group)
    requires WellFormed(g) && Contains(g, s) && s != g
    ensures s.path != g.path
  {
    var k := ChildWith(g, s);
    ContainsPath(g.children[k], s);
    BelowRoot(g.children[k], s.path);
    assert |Segments(g.children[k].path)| == |Segments(g.path)| + 1;
  }

  /** The search finds exactly the group of the hierarchy at that path. */
  lemma {:induction false} FindGroupMeans(g: Group, path: string, s: Group)
    requires WellFormed(g)
    ensures FindGroup(g, path) == Some(s) <==> Contains(g, s) && s.path == path
  {
    if FindGroup(g, path).Some? {
      FoundIsContained(g, path);
      if Contains(g, s) && s.path == path {
        OneGroupPerPath(g, FindGroup(g, path).value, s);
      }
    } else if Contains(g, s) && s.path == path {
      ContainsPath(g, s);
      FindsPath(g, path);
    }
  }

  /** A descendant of a path below the `k`-th child is below that child too. */
  lemma {:induction false} OnlyThatChild(g: Group, k: nat, path: string, q: string)
    requires WellFormed(g) && k < |g.children| && path in PreOrder(g.children[k])
    ensures q in PreOrder(g) && AncestorOrSelf(path, q) ==> q in PreOrder(g.children[k])
    ensures q in PreOrder(g.children[k]) ==> q in PreOrder(g)
  {
    InPreOrderAll(g.children, q);
    BelowRoot(g.children[k], path);
    if q in PreOrder(g) && AncestorOrSelf(path, q) {
      if q != g.path {
        assert g.children[0..] == g.children;
        var m := LocateChild(g.children, 0, q);
        if m < k {
          SiblingsUnrelated(g, m, k, q, path);
        } else if k < m {
          SiblingsUnrelated(g, k, m, path, q);
        }
      }
    }
  }

  lemma {:induction false} FoundNode(g: Group, path: string, n: NodeData)
    requires FindGroup(g, path).Some? && n in Flatten(FindGroup(g, path).value)
    ensures n in Flatten(g)
    decreases g
  {
    if g.path != path {
      FindAmongChildren(g.children, path);
      var k :| 0 <= k < |g.children| && FindGroup(g.children[k], path) == FindAmong(g.children, path);
      FoundNode(g.children[k], path, n);
      InFlattenAll(g.children, n);
    }
  }

  // ----- the store -----

  /** A store: plain Zarr, or an icechunk session that lists the nodes at or below a path. */
  datatype Store = Zarr | Session(listNodes: string -> seq<Snap>)

  function SnapPath(s: Snap): string
  {
    match s
    case GroupSnap(path, _) => path
    case ArraySnap(m) => m.handle
  }

  ghost predicate ListsBelow(g: Group, path: string, snaps: seq<Snap>)
  {
    NoDuplicates(snaps) && forall s :: s in snaps <==> InTree(g, s) && AncestorOrSelf(path, SnapPath(s))
  }

  /** The store holds the hierarchy `g`. */
  ghost predicate Holds(store: Store, g: Group)
  {
    && WellFormed(g) && g.path == "/"
    && (store.Session? ==> forall p | Canonical(p) :: ListsBelow(g, p, store.listNodes(p)))
  }

  function SourceAt(store: Store, path: string): WalkSource
  {
    match store
    case Zarr => Vanilla
    case Session(listNodes) => Icechunk(listNodes(path))
  }

  predicate IsArrayAt(g: Group, path: string)
  {
    exists n | n in Flatten(g) :: exists m | m in n.vars :: m.handle == path
  }

  lemma {:induction false} RootArrayNotGroup(g: Group, m: VarMeta)
    requires WellFormed(g) && m in g.vars
    ensures m.handle !in PreOrder(g)
  {
    var q := m.handle;
    var i :| 0 <= i < |g.vars| && g.vars[i] == m;
    assert Handles(g.vars)[i] == q;
    if q in PreOrderAll(g.children) {
      InPreOrderAll(g.children, q);
      var c :| c in g.children && q in PreOrder(c);
      BelowRoot(c, q);
      MutualAncestors(c.path, q);
    }
  }

  /** No path is both a group's and an array's. */
  lemma {:induction false} ArrayNotGroup(g: Group, n: NodeData, m: VarMeta)
    requires WellFormed(g) && n in Flatten(g) && m in n.vars
    ensures m.handle !in PreOrder(g)
    decreases g
  {
    if n in FlattenAll(g.children) {
      var k := LocateNode(g.children, n);
      VarParent(g.children[k], n, m);
      ArrayNotGroup(g.children[k], n, m);
      NodeAt(g.children[k], n.path);
      OnlyThatChild(g, k, n.path, m.handle);
    } else {
      RootArrayNotGroup(g, m);
    }
  }

  lemma {:induction false} LocateNode(gs: seq<Group>, n: NodeData) returns (k: nat)
    requires n in FlattenAll(gs)
    ensures k < |gs| && n in Flatten(gs[k])
  {
    if n in Flatten(gs[0]) {
      k := 0;
    } else {
      var j := LocateNode(gs[1..], n);
      k := j + 1;
    }
  }

  /** The nodes of the found subtree are the hierarchy's nodes at or below its path. */
  lemma {:induction false} FoundNodes(g: Group, path: string, n: NodeData)
    requires WellFormed(g) && FindGroup(g, path).Some?
    ensures n in Flatten(FindGroup(g, path).value) <==> n in Flatten(g) && AncestorOrSelf(path, n.path)
  {
    var s := FindGroup(g, path).value;
    NodeAt(s, n.path);
    NodeAt(g, n.path);
    FoundSubtree(g, path, n.path);
    if n in Flatten(s) {
      FoundNode(g, path, n);
    } else if n in Flatten(g) && AncestorOrSelf(path, n.path) {
      var other :| other in Flatten(s) && other.path == n.path;
      FoundNode(g, path, other);
      NodeUnique(g, n, other);
    }
  }

  lemma {:induction false} ArrayBelow(g: Group, path: string, n: NodeData, m: VarMeta)
    requires WellFormed(g) && path in PreOrder(g) && n in Flatten(g) && m in n.vars
    ensures AncestorOrSelf(path, m.handle) <==> AncestorOrSelf(path, n.path)
  {
    VarParent(g, n, m);
    ArrayNotGroup(g, n, m);
    BelowRoot(g, path);
    MutualAncestors(path, m.handle);
    var p, h := Segments(path), Segments(m.handle);
    assert h[..|h| - 1] == Segments(n.path);
    if p <= h && |p| < |h| {
      assert p == h[..|h| - 1][..|p|];
    }
  }

  /** What a session lists below a group is that group's hierarchy. */
  lemma {:induction false} ListsFound(g: Group, path: string, snaps: seq<Snap>)
    requires WellFormed(g) && FindGroup(g, path).Some? && ListsBelow(g, path, snaps)
    ensures ListsTree(FindGroup(g, path).value, snaps)
  {
    FoundSubtree(g, path, path);
    forall s ensures InTree(FindGroup(g, path).value, s) <==> InTree(g, s) && AncestorOrSelf(path, SnapPath(s)) {
      InFoundTree(g, path, s);
    }
  }

  lemma {:induction false} InFoundTree(g: Group, path: string, s: Snap)
    requires WellFormed(g) && FindGroup(g, path).Some? && path in PreOrder(g)
    ensures InTree(FindGroup(g, path).value, s) <==> InTree(g, s) && AncestorOrSelf(path, SnapPath(s))
  {
    forall n ensures n in Flatten(FindGroup(g, path).value) <==> n in Flatten(g) && AncestorOrSelf(path, n.path) {
      FoundNodes(g, path, n);
    }
    if s.ArraySnap? {
      forall n | n in Flatten(g) && s.meta in n.vars
        ensures AncestorOrSelf(path, s.meta.handle) <==> AncestorOrSelf(path, n.path)
      {
        ArrayBelow(g, path, n, s.meta);
      }
    }
  }

  /** Below a path that is no group's, a session lists at most the array at that path. */
  lemma {:induction false} ListsNoGroup(g: Group, path: string, snaps: seq<Snap>, s: Snap)
    requires WellFormed(g) && g.path == "/" && Canonical(path) && path !in PreOrder(g)
    requires ListsBelow(g, path, snaps) && s in snaps
    ensures s.ArraySnap? && s.meta.handle == path
  {
    assert InTree(g, s);
    RenderRoundTrip([]);
    var n: NodeData;
    match s {
      case GroupSnap(p, attrs) =>
        n :| n in Flatten(g) && n.path == p && n.attrs == attrs;
      case ArraySnap(m) =>
        n :| n in Flatten(g) && m in n.vars;
        VarParent(g, n, m);
        MutualAncestors(path, m.handle);
        assert Segments(m.handle)[..|Segments(n.path)|] == Segments(n.path);
    }
    NodeAt(g, n.path);
    if AncestorOrSelf(path, n.path) {
      TreeIsAncestorClosed(g, path, n.path);
    }
  }

  // ----- the dict of nodes -----

  /** The dict the walk hands to Python, keyed by path. */
  function ByPath(nodes: seq<NodeData>): (dict: map<string, NodeData>)
    ensures forall p :: p in dict <==> exists i :: 0 <= i < |nodes| && nodes[i].path == p
    ensures forall p :: p in dict ==> dict[p] in nodes && dict[p].path == p
  {
    if nodes == [] then map[]
    else
      var last := nodes[|nodes| - 1];
      assert nodes == nodes[..|nodes| - 1] + [last];
      ByPath(nodes[..|nodes| - 1])[last.path := last]
  }

  /** `n` is the hierarchy's own group at `path`, its small arrays fetched. */
  ghost predicate IsGroupAt(g: Group, contents: map<string, Elements>, path: string, n: NodeData)
  {
    && n.path == path && Delivers(g, contents, n)
    && exists own :: own in Flatten(g) && own.path == path && SameNode(n, WarmedNode(own, contents))
  }

  /** So it has the attributes of the group found there, and its arrays, each the same but
      that its elements may have been fetched. */
  lemma {:induction false} GroupAtMeans(g: Group, contents: map<string, Elements>, path: string, n: NodeData)
    requires WellFormed(g) && IsGroupAt(g, contents, path, n)
    ensures FindGroup(g, path).Some? && n.path == path && n.attrs == FindGroup(g, path).value.attrs
    ensures exists vars ::
              multiset(vars) == multiset(FindGroup(g, path).value.vars) && AllSameButEager(n.vars, vars, contents)
  {
    var s, vars :|
      && Contains(g, s) && n.path == s.path && n.attrs == s.attrs
      && multiset(vars) == multiset(s.vars) && AllSameButEager(n.vars, vars, contents);
    FindGroupMeans(g, path, s);
  }

  lemma {:induction false} DeliversFromBelow(g: Group, found: Group, contents: map<string, Elements>, n: NodeData)
    requires Contains(g, found) && Delivers(found, contents, n)
    ensures Delivers(g, contents, n)
  {
    var s, vars :|
      && Contains(found, s) && n.path == s.path && n.attrs == s.attrs
      && multiset(vars) == multiset(s.vars) && AllSameButEager(n.vars, vars, contents);
    ContainsTransitive(g, found, s);
  }

  ghost predicate AllGroupsOf(g: Group, contents: map<string, Elements>, dict: map<string, NodeData>)
  {
    forall p | p in dict :: IsGroupAt(g, contents, p, dict[p])
  }

  lemma {:induction false} TwinIsGroupAt(g: Group, visited: seq<NodeData>, contents: map<string, Elements>,
                                         n: NodeData)
    requires HasTwin(n, WarmedAll(visited, contents)) && forall v | v in visited :: v in Flatten(g)
    requires Delivers(g, contents, n)
    ensures IsGroupAt(g, contents, n.path, n)
    ensures exists v :: v in visited && v.path == n.path
  {
    var w :| w in WarmedAll(visited, contents) && SameNode(n, w);
    var i :| 0 <= i < |visited| && WarmedAll(visited, contents)[i] == w;
    assert visited[i] in visited;
  }

  /** The dict of a walk has the visited paths, each with its own group. */
  lemma {:induction false} WalkedDict(g: Group, found: Group, recursive: bool, glob: Option<GlobPredicate>,
                                      nodes: seq<NodeData>, contents: map<string, Elements>)
    requires WellFormed(found) && forall n | n in Flatten(found) :: n in Flatten(g)
    requires Contains(g, found) && forall n | n in nodes :: Delivers(found, contents, n)
    requires SameNodes(nodes, WarmedAll(Flatten(Visited(found, recursive, glob)), contents))
    ensures ByPath(nodes).Keys == PathsIn(Visited(found, recursive, glob))
    ensures AllGroupsOf(g, contents, ByPath(nodes))
  {
    var visited := Flatten(Visited(found, recursive, glob));
    VisitedIsOwn(found, recursive, glob);
    forall p | p in ByPath(nodes)
      ensures p in PathsIn(Visited(found, recursive, glob)) && IsGroupAt(g, contents, p, ByPath(nodes)[p])
    {
      assert HasTwin(ByPath(nodes)[p], WarmedAll(visited, contents));
      DeliversFromBelow(g, found, contents, ByPath(nodes)[p]);
      TwinIsGroupAt(g, visited, contents, ByPath(nodes)[p]);
      NodeAt(Visited(found, recursive, glob), p);
    }
    forall p | p in PathsIn(Visited(found, recursive, glob)) ensures p in ByPath(nodes) {
      NodeAt(Visited(found, recursive, glob), p);
      var v :| v in visited && v.path == p;
      InWarmed(visited, v, contents);
      assert HasTwin(WarmedNode(v, contents), nodes);
    }
  }

  // ----- one walk -----

  /** The walk from an existing group, as a dict. */
  method WalkGroup(g: Group, found: Group, source: WalkSource, maxConcurrency: Option<nat>, recursive: bool,
                   glob: Option<GlobPredicate>, broken: set<string>, contents: map<string, Elements>)
    returns (r: Result<map<string, NodeData>, OpenError>)
    requires WellFormed(found) && Contains(g, found) && Offers(source, found, glob)
    requires forall n | n in Flatten(found) :: n in Flatten(g)
    ensures r.Success? <==> AllReadable(Flatten(Visited(found, recursive, glob)), broken)
    ensures r.Success? ==> r.value.Keys == PathsIn(Visited(found, recursive, glob)) && AllGroupsOf(g, contents, r.value)
    ensures r.Failure? ==>
              r.error.WalkFailed? && Blames(Flatten(Visited(found, recursive, glob)), broken, r.error.error)
  {
    var walked, _ := WalkRecursive(found, source, maxConcurrency, recursive, glob, broken, contents);
    match walked
    case Failure(error) =>
      return Failure(WalkFailed(error));
    case Success(nodes) =>
      WalkedDict(g, found, recursive, glob, nodes, contents);
      return Success(ByPath(nodes));
  }

  /** The walk from a path that is no group's. Plain Zarr reports a missing group unless
      something else is there or the store fails; a session lists at most an array, whose
      parent group is then missing from the list. */
  method WalkAbsent(g: Group, store: Store, path: string, recursive: bool, broken: set<string>)
    returns (r: Result<map<string, NodeData>, OpenError>)
    requires Holds(store, g) && Canonical(path) && path !in PreOrder(g)
    ensures store.Zarr? ==>
              r == Failure(if path in broken || IsArrayAt(g, path) then WalkFailed(NotReadable(path))
                           else KeyError(path))
    ensures store.Session? ==>
              if recursive && IsArrayAt(g, path) then r.Failure? && r.error.WalkFailed? else r == Success(map[])
  {
    match store
    case Zarr =>
      r := Failure(if path in broken || IsArrayAt(g, path) then WalkFailed(NotReadable(path)) else KeyError(path));
    case Session(listNodes) =>
      assert ListsBelow(g, path, store.listNodes(path));
      r := WalkAbsentSession(g, path, listNodes(path), recursive, broken);
  }

  lemma {:induction false} NoNodes(snaps: seq<Snap>, sel: Selection, nodes: seq<NodeData>)
    requires Assembled(snaps, sel, nodes) && forall s | s in snaps :: s.ArraySnap?
    ensures nodes == []
  {
    if nodes != [] {
      FirstIsListed(snaps, sel, nodes);
    }
  }

  lemma {:induction false} FirstIsListed(snaps: seq<Snap>, sel: Selection, nodes: seq<NodeData>)
    requires Assembled(snaps, sel, nodes) && nodes != []
    ensures GroupSnap(nodes[0].path, nodes[0].attrs) in snaps
  {}

  ghost predicate OnlyArrayAt(snaps: seq<Snap>, path: string)
  {
    forall s | s in snaps :: s.ArraySnap? && s.meta.handle == path
  }

  /** An array alone is an orphan of a recursive walk. */
  lemma {:induction false} LoneArrayIsOrphan(snaps: seq<Snap>, path: string, m: VarMeta)
    requires OnlyArrayAt(snaps, path) && ArraySnap(m) in snaps
    ensures HasOrphans(snaps, Selection(path, true, None), ParentOf(path))
  {
    var sel := Selection(path, true, None);
    InPassing(snaps, sel, m);
    InUnder(PassingArrays(snaps, sel), ParentOf(path), m);
    assert forall i :: 0 <= i < |snaps| ==> snaps[i] in snaps;
  }

  /** A walk of one group has no use for it. */
  lemma {:induction false} LoneArrayIsSkipped(snaps: seq<Snap>, sel: Selection, path: string)
    requires OnlyArrayAt(snaps, path) && (snaps == [] || !sel.Passes(ParentOf(path)))
    ensures PassingArrays(snaps, sel) == []
  {
    if snaps == [] {
    } else {
      LoneArrayIsSkipped(snaps[..|snaps| - 1], sel, path);
      assert snaps[|snaps| - 1] in snaps;
    }
  }

  lemma {:induction false} ArrayHasParent(g: Group, path: string)
    requires WellFormed(g) && Canonical(path) && IsArrayAt(g, path)
    ensures ParentOf(path) != path
  {
    var n :| n in Flatten(g) && exists m | m in n.vars :: m.handle == path;
    var m :| m in n.vars && m.handle == path;
    VarParent(g, n, m);
    assert |Segments(path)| == |Segments(n.path)| + 1;
  }

  lemma {:induction false} ArrayIsListed(g: Group, path: string, snaps: seq<Snap>)
    requires WellFormed(g) && g.path == "/" && Canonical(path) && path !in PreOrder(g) && ListsBelow(g, path, snaps)
    ensures OnlyArrayAt(snaps, path)
    ensures IsArrayAt(g, path) <==> snaps != []
  {
    forall s | s in snaps ensures s.ArraySnap? && s.meta.handle == path {
      ListsNoGroup(g, path, snaps, s);
    }
    if IsArrayAt(g, path) {
      var n :| n in Flatten(g) && exists m | m in n.vars :: m.handle == path;
      var m :| m in n.vars && m.handle == path;
      assert InTree(g, ArraySnap(m));
      assert ArraySnap(m) in snaps;
    }
    if snaps != [] {
      assert snaps[0] in snaps && InTree(g, snaps[0]);
    }
  }

  /** What the snapshot walker makes of such a list. */
  lemma {:induction false} AbsentListing(g: Group, path: string, snaps: seq<Snap>, recursive: bool)
    requires WellFormed(g) && g.path == "/" && Canonical(path) && path !in PreOrder(g) && ListsBelow(g, path, snaps)
    ensures forall s | s in snaps :: s.ArraySnap?
    ensures recursive && IsArrayAt(g, path) ==> HasOrphans(snaps, Selection(path, recursive, None), ParentOf(path))
    ensures !(recursive && IsArrayAt(g, path)) ==> PassingArrays(snaps, Selection(path, recursive, None)) == []
  {
    ArrayIsListed(g, path, snaps);
    if IsArrayAt(g, path) {
      ArrayHasParent(g, path);
    }
    if recursive && IsArrayAt(g, path) {
      assert snaps[0] in snaps;
      LoneArrayIsOrphan(snaps, path, snaps[0].meta);
    } else {
      LoneArrayIsSkipped(snaps, Selection(path, recursive, None), path);
    }
  }

  /** With neither groups nor passing arrays there is nothing to fail on. */
  lemma {:induction false} NothingToFailOn(snaps: seq<Snap>, sel: Selection, broken: set<string>, e: WalkError)
    requires (forall s | s in snaps :: s.ArraySnap?) && PassingArrays(snaps, sel) == []
    ensures match e
            case NotReadable(p) => !Unreadable(snaps, sel, broken, p)
            case Orphans(p) => !HasOrphans(snaps, sel, p)
  {
    assert forall i :: 0 <= i < |snaps| ==> snaps[i] in snaps;
  }

  /** The snapshot walk of a path that is no group's. */
  method WalkAbsentSession(g: Group, path: string, snaps: seq<Snap>, recursive: bool, broken: set<string>)
    returns (r: Result<map<string, NodeData>, OpenError>)
    requires WellFormed(g) && g.path == "/" && Canonical(path) && path !in PreOrder(g) && ListsBelow(g, path, snaps)
    ensures if recursive && IsArrayAt(g, path) then r.Failure? && r.error.WalkFailed? else r == Success(map[])
  {
    AbsentListing(g, path, snaps, recursive);
    ghost var sel := Selection(path, recursive, None);
    var walked := WalkSnapshot(snaps, path, recursive, None, broken);
    if walked.Failure? {
      if !(recursive && IsArrayAt(g, path)) {
        NothingToFailOn(snaps, sel, broken, walked.error);
      }
      return Failure(WalkFailed(walked.error));
    }
    NoNodes(snaps, sel, walked.value);
    return Success(ByPath(walked.value));
  }

  /** The walk from any path. */
  method WalkPath(g: Group, store: Store, path: string, maxConcurrency: Option<nat>, recursive: bool,
                  broken: set<string>, contents: map<string, Elements>)
    returns (r: Result<map<string, NodeData>, OpenError>)
    requires Holds(store, g) && Canonical(path)
    ensures path in PreOrder(g) <==> FindGroup(g, path).Some?
    ensures path in PreOrder(g) ==>
              var visited := Visited(FindGroup(g, path).value, recursive, None);
              && (r.Success? <==> AllReadable(Flatten(visited), broken))
              && (r.Success? ==> r.value.Keys == PathsIn(visited) && AllGroupsOf(g, contents, r.value))
              && (r.Failure? ==> r.error.WalkFailed? && Blames(Flatten(visited), broken, r.error.error))
    ensures path !in PreOrder(g) && store.Zarr? ==>
              r == Failure(if path in broken || IsArrayAt(g, path) then WalkFailed(NotReadable(path))
                           else KeyError(path))
    ensures path !in PreOrder(g) && store.Session? ==>
              if recursive && IsArrayAt(g, path) then r.Failure? && r.error.WalkFailed? else r == Success(map[])
  {
    var found := FindGroup(g, path);
    if found.None? {
      if path in PreOrder(g) { FindsPath(g, path); }
      r := WalkAbsent(g, store, path, recursive, broken);
    } else {
      FoundSubtree(g, path, path);
      forall n | n in Flatten(found.value) ensures n in Flatten(g) {
        FoundNode(g, path, n);
      }
      FoundIsContained(g, path);
      if store.Session? {
        assert ListsBelow(g, path, store.listNodes(path));
        ListsFound(g, path, store.listNodes(path));
      }
      r := WalkGroup(g, found.value, SourceAt(store, path), maxConcurrency, recursive, None, broken, contents);
    }
  }

  // ----- open_dataset -----

  /** The group at a path and its own arrays are readable. */
  ghost predicate OwnReadable(g: Group, path: string, broken: set<string>)
  {
    exists n :: n in Flatten(g) && n.path == path && Readable(n, broken)
  }

  /** The error names that group or one of its own arrays, and it is broken. */
  ghost predicate OwnBlamed(g: Group, path: string, broken: set<string>, e: WalkError)
  {
    exists n :: n in Flatten(g) && n.path == path && Blames([n], broken, e)
  }

  lemma {:induction false} OwnBlame(g: Group, path: string, broken: set<string>, e: WalkError)
    requires WellFormed(g) && FindGroup(g, path).Some?
    requires Blames(Flatten(Visited(FindGroup(g, path).value, false, None)), broken, e)
    ensures OwnBlamed(g, path, broken, e)
  {
    FoundSubtree(g, path, path);
    var s := FindGroup(g, path).value;
    var own := NodeData(s.path, s.attrs, s.vars);
    FoundNode(g, path, own);
    assert Flatten(Visited(s, false, None)) == [own];
  }

  /** `open_dataset`: one group, whatever is unreadable below it. Where the path is an
      array's, plain Zarr fails and a session reports a missing group. */
  method OpenDataset(g: Group, store: Store, path: string, maxConcurrency: Option<nat>,
                     broken: set<string>, contents: map<string, Elements>)
    returns (r: Result<NodeData, OpenError>)
    requires Holds(store, g) && Canonical(path)
    ensures r.Success? <==> OwnReadable(g, path, broken)
    ensures r.Success? ==> IsGroupAt(g, contents, path, r.value)
    ensures r.Failure? ==> r.error == KeyError(path) || r.error.WalkFailed?
    ensures r.Failure? && r.error.WalkFailed? ==>
              if path in PreOrder(g) then OwnBlamed(g, path, broken, r.error.error)
              else r.error.error == NotReadable(path)
    ensures r == Failure(KeyError(path)) <==>
            path !in PreOrder(g) && (store.Zarr? ==> path !in broken && !IsArrayAt(g, path))
  {
    OwnNode(g, path, broken);
    var walked := WalkPath(g, store, path, maxConcurrency, false, broken, contents);
    match walked
    case Failure(error) =>
      if path in PreOrder(g) {
        OwnBlame(g, path, broken, error.error);
      }
      return Failure(error);
    case Success(tree) =>
      if path !in tree {
        return Failure(KeyError(path));
      }
      return Success(tree[path]);
  }

  lemma {:induction false} OwnNode(g: Group, path: string, broken: set<string>)
    requires WellFormed(g)
    ensures path in PreOrder(g) <==> FindGroup(g, path).Some?
    ensures path in PreOrder(g) ==>
              && path in PathsIn(Visited(FindGroup(g, path).value, false, None))
              && (OwnReadable(g, path, broken) <==>
                  AllReadable(Flatten(Visited(FindGroup(g, path).value, false, None)), broken))
    ensures path !in PreOrder(g) ==> !OwnReadable(g, path, broken)
  {
    NodeAt(g, path);
    if FindGroup(g, path).Some? {
      FoundSubtree(g, path, path);
      var s := FindGroup(g, path).value;
      var own := NodeData(s.path, s.attrs, s.vars);
      FoundNode(g, path, own);
      assert Flatten(Visited(s, false, None)) == [own];
      forall n | n in Flatten(g) && n.path == path ensures n == own {
        NodeUnique(g, n, own);
      }
    } else if path in PreOrder(g) {
      FindsPath(g, path);
    }
  }

  // ----- open_datatree -----

  /** `open_datatree(group_filter=...)`: the walk pruned by the pattern, then filtered by
      it. For a pattern that is safe to prune by, these are the groups that filtering the
      whole hierarchy keeps. */
  method OpenFiltered(g: Group, store: Store, maxConcurrency: Option<nat>, pattern: string,
                      other: (string, string) -> bool, broken: set<string>, contents: map<string, Elements>)
    returns (r: Result<map<string, NodeData>, OpenError>)
    requires Holds(store, g)
    ensures r.Success? <==> AllReadable(Flatten(Prune(g, Some(Parse(pattern)))), broken)
    ensures r.Failure? ==>
              r.error.WalkFailed? && Blames(Flatten(Prune(g, Some(Parse(pattern)))), broken, r.error.error)
    ensures r.Success? ==> AllGroupsOf(g, contents, r.value)
    ensures r.Success? && PruneSafe(pattern) ==> r.value.Keys == FilteredKeys(PathsIn(g), pattern, other)
  {
    RenderRoundTrip([]);
    if store.Session? {
      assert ListsBelow(g, "/", store.listNodes("/"));
      ListsFound(g, "/", store.listNodes("/"));
    }
    RootSurvives(Parse(pattern));
    r := WalkGroup(g, g, SourceAt(store, "/"), maxConcurrency, true, Some(Parse(pattern)), broken, contents);
    if r.Success? {
      var kept := FilterByGlob(r.value, pattern, other);
      PruningIsInvisibleIffSafe(pattern, other);
      assert PruneSafe(pattern) ==> PruningIsInvisible(pattern, other, g);
      assert forall p | p in kept :: p in r.value;
      return Success(kept);
    }
  }

  /** `out` is the subtree at `root`, under its relative paths. */
  ghost predicate IsSubtreeAt(g: Group, contents: map<string, Elements>, root: string, out: map<string, NodeData>)
  {
    && (forall q | q in PreOrder(g) && AncestorOrSelf(root, q) ::
          Relative(root, q) in out && IsGroupAt(g, contents, q, out[Relative(root, q)]))
    && (forall k | k in out :: exists q :: q in PreOrder(g) && AncestorOrSelf(root, q) && k == Relative(root, q))
  }

  lemma {:induction false} SubtreeRerooted(g: Group, root: string, contents: map<string, Elements>,
                                           tree: map<string, NodeData>, out: map<string, NodeData>)
    requires WellFormed(g) && FindGroup(g, root).Some? && AllGroupsOf(g, contents, tree)
    requires tree.Keys == PathsIn(FindGroup(g, root).value)
    requires Rerooted(tree, root, tree.Keys, out)
    ensures IsSubtreeAt(g, contents, root, out)
  {
    forall q ensures q in tree <==> q in PreOrder(g) && AncestorOrSelf(root, q) {
      FoundSubtree(g, root, q);
      assert q in tree <==> q in tree.Keys;
    }
  }

  /** The subtree alone, as a dict under relative paths. */
  method OpenRerooted(g: Group, root: string, store: Store, maxConcurrency: Option<nat>,
                      broken: set<string>, contents: map<string, Elements>)
    returns (r: Result<map<string, NodeData>, OpenError>)
    requires Holds(store, g) && Canonical(root) && root != "/"
    ensures r == Failure(KeyError(root)) <==>
            root !in PreOrder(g) && !IsArrayAt(g, root) && (store.Zarr? ==> root !in broken)
    ensures root in PreOrder(g) ==> FindGroup(g, root).Some?
    ensures r.Success? <==> root in PreOrder(g) && AllReadable(Flatten(FindGroup(g, root).value), broken)
    ensures r.Success? ==> IsSubtreeAt(g, contents, root, r.value)
    ensures r.Failure? ==> r.error == KeyError(root) || r.error.WalkFailed?
    ensures r.Failure? && root in PreOrder(g) ==>
              r.error.WalkFailed? && Blames(Flatten(FindGroup(g, root).value), broken, r.error.error)
  {
    OwnNode(g, root, broken);
    var walked := WalkPath(g, store, root, maxConcurrency, true, broken, contents);
    if root in PreOrder(g) {
      PruneNothing(FindGroup(g, root).value);
      FoundSubtree(g, root, root);
      NotArrayToo(g, root);
    }
    if walked.Failure? {
      return walked;
    }
    var tree := walked.value;
    if root !in tree {
      return Failure(KeyError(root));
    }
    forall p | p in tree ensures Canonical(p) {
      BelowRoot(FindGroup(g, root).value, p);
    }
    var out := Reroot(tree, root);
    SubtreeRerooted(g, root, contents, tree, out);
    return Success(out);
  }

  lemma {:induction false} NotArrayToo(g: Group, path: string)
    requires WellFormed(g) && path in PreOrder(g)
    ensures !IsArrayAt(g, path)
  {
    if IsArrayAt(g, path) {
      var n :| n in Flatten(g) && exists m | m in n.vars :: m.handle == path;
      var m :| m in n.vars && m.handle == path;
      ArrayNotGroup(g, n, m);
    }
  }

  ghost predicate AreGroupsAt(g: Group, contents: map<string, Elements>, paths: seq<string>, nodes: seq<NodeData>)
  {
    |nodes| == |paths| && forall i :: 0 <= i < |paths| ==> IsGroupAt(g, contents, paths[i], nodes[i])
  }

  lemma {:induction false} AndOneMore(g: Group, contents: map<string, Elements>, paths: seq<string>, i: nat,
                                      nodes: seq<NodeData>, n: NodeData)
    requires i < |paths| && AreGroupsAt(g, contents, paths[..i], nodes) && IsGroupAt(g, contents, paths[i], n)
    ensures AreGroupsAt(g, contents, paths[..i + 1], nodes + [n])
  {
    forall k | 0 <= k < i + 1 ensures IsGroupAt(g, contents, paths[..i + 1][k], (nodes + [n])[k]) {
      if k < i {
        assert IsGroupAt(g, contents, paths[..i][k], nodes[k]);
      }
    }
  }

  ghost predicate AllOwnReadable(g: Group, paths: seq<string>, broken: set<string>)
  {
    forall i :: 0 <= i < |paths| ==> OwnReadable(g, paths[i], broken)
  }

  lemma {:induction false} OneMoreReadable(g: Group, paths: seq<string>, i: nat, broken: set<string>)
    requires i < |paths| && AllOwnReadable(g, paths[..i], broken)
    ensures AllOwnReadable(g, paths[..i + 1], broken) <==> OwnReadable(g, paths[i], broken)
    ensures !OwnReadable(g, paths[i], broken) ==> !AllOwnReadable(g, paths, broken)
  {
    assert paths[..i + 1] == paths[..i] + [paths[i]];
    assert paths[..i + 1][i] == paths[i];
  }

  ghost predicate AllGroups(g: Group, paths: seq<string>)
  {
    forall i :: 0 <= i < |paths| ==> Canonical(paths[i]) && paths[i] in PreOrder(g)
  }

  lemma {:induction false} AncestorsInTree(g: Group, root: string)
    requires WellFormed(g) && g.path == "/" && root in PreOrder(g)
    ensures AllGroups(g, Parents(root))
  {
    TreePathsAncestorClosed(g);
    forall i | 0 <= i < |Parents(root)| ensures Canonical(Parents(root)[i]) && Parents(root)[i] in PreOrder(g) {
      ParentAt(root, i);
      assert Parents(root)[i] in Parents(root) && root in PathsIn(g);
      assert Parents(root)[i] in PathsIn(g);
    }
  }

  /** The error names the first of the paths whose group is not readable on its own. */
  ghost predicate FirstBlamed(g: Group, paths: seq<string>, broken: set<string>, e: WalkError)
  {
    exists i: nat :: FirstBlamedAt(g, paths, i, broken, e)
  }

  ghost predicate FirstBlamedAt(g: Group, paths: seq<string>, i: nat, broken: set<string>, e: WalkError)
  {
    i < |paths| && AllOwnReadable(g, paths[..i], broken) && OwnBlamed(g, paths[i], broken, e)
  }

  /** Opening a group that exists. */
  method OpenExisting(g: Group, store: Store, path: string, maxConcurrency: Option<nat>,
                      broken: set<string>, contents: map<string, Elements>)
    returns (r: Result<NodeData, OpenError>)
    requires Holds(store, g) && Canonical(path) && path in PreOrder(g)
    ensures r.Success? <==> OwnReadable(g, path, broken)
    ensures r.Success? ==> IsGroupAt(g, contents, path, r.value)
    ensures r.Failure? ==> r.error.WalkFailed? && OwnBlamed(g, path, broken, r.error.error)
  {
    r := OpenDataset(g, store, path, maxConcurrency, broken, contents);
  }

  /** The loop over `PurePosixPath(group).parents`: every ancestor on its own. */
  method OpenEach(g: Group, store: Store, paths: seq<string>, maxConcurrency: Option<nat>,
                  broken: set<string>, contents: map<string, Elements>)
    returns (r: Result<seq<NodeData>, OpenError>)
    requires Holds(store, g) && AllGroups(g, paths)
    ensures r.Success? <==> AllOwnReadable(g, paths, broken)
    ensures r.Success? ==> AreGroupsAt(g, contents, paths, r.value)
    ensures r.Failure? ==> r.error.WalkFailed? && FirstBlamed(g, paths, broken, r.error.error)
  {
    var nodes: seq<NodeData> := [];
    for i := 0 to |paths|
      invariant AreGroupsAt(g, contents, paths[..i], nodes)
      invariant AllOwnReadable(g, paths[..i], broken)
    {
      var one := OpenExisting(g, store, paths[i], maxConcurrency, broken, contents);
      OneMoreReadable(g, paths, i, broken);
      if one.Failure? {
        assert FirstBlamedAt(g, paths, i, broken, one.error.error);
        return Failure(one.error);
      }
      AndOneMore(g, contents, paths, i, nodes, one.value);
      nodes := nodes + [one.value];
    }
    assert paths[..|paths|] == paths;
    return Success(nodes);
  }

  /** `out` is the subtree at `root`, its root entry merged with the ancestors. */
  ghost predicate IsMergedSubtreeAt(g: Group, contents: map<string, Elements>, root: string,
                                    merge: (NodeData, seq<NodeData>) -> NodeData, out: map<string, NodeData>)
  {
    exists plain, ancestors ::
      && IsSubtreeAt(g, contents, root, plain) && "/" in plain
      && AreGroupsAt(g, contents, Parents(root), ancestors)
      && out == plain["/" := merge(plain["/"], ancestors)]
  }

  /** `open_datatree(group=...)` for a group below the root. The subtree is opened as a
      hierarchy of its own; with `includeAncestorCoords`, the default, every ancestor is
      opened too, and an unreadable one fails the call. `merge` is xarray's. */
  method OpenSubtree(g: Group, root: string, store: Store, maxConcurrency: Option<nat>, includeAncestorCoords: bool,
                     merge: (NodeData, seq<NodeData>) -> NodeData,
                     broken: set<string>, contents: map<string, Elements>)
    returns (r: Result<map<string, NodeData>, OpenError>)
    requires Holds(store, g) && Canonical(root) && root != "/"
    ensures r == Failure(KeyError(root)) <==>
            root !in PreOrder(g) && !IsArrayAt(g, root) && (store.Zarr? ==> root !in broken)
    ensures root in PreOrder(g) ==> FindGroup(g, root).Some?
    ensures r.Success? <==>
            && root in PreOrder(g) && AllReadable(Flatten(FindGroup(g, root).value), broken)
            && (includeAncestorCoords ==> AllOwnReadable(g, Parents(root), broken))
    ensures r.Failure? ==> r.error == KeyError(root) || r.error.WalkFailed?
    ensures r.Failure? && root in PreOrder(g) ==>
              && r.error.WalkFailed?
              && if AllReadable(Flatten(FindGroup(g, root).value), broken)
                 then includeAncestorCoords && FirstBlamed(g, Parents(root), broken, r.error.error)
                 else Blames(Flatten(FindGroup(g, root).value), broken, r.error.error)
    ensures r.Success? && !includeAncestorCoords ==> IsSubtreeAt(g, contents, root, r.value)
    ensures r.Success? && includeAncestorCoords ==> IsMergedSubtreeAt(g, contents, root, merge, r.value)
  {
    r := OpenRerooted(g, root, store, maxConcurrency, broken, contents);
    if r.Success? && includeAncestorCoords {
      var plain := r.value;
      SubtreeTest(root, root);
      assert "/" in plain;
      AncestorsInTree(g, root);
      var above := OpenEach(g, store, Parents(root), maxConcurrency, broken, contents);
      if above.Failure? {
        return Failure(above.error);
      }
      return Success(plain["/" := merge(plain["/"], above.value)]);
    }
  }

  /** The root group with one array and one empty child group. */
  function Example(t: VarMeta, child: string): Group
  {
    Group("/", map[], [t], [Group(child, map[], [], [])])
  }

  lemma {:induction false} OneOfEach(g: Group, t: VarMeta, c: Group)
    requires Canonical(g.path) && g.vars == [t] && g.children == [c]
    requires IsChildPath(g.path, t.handle, t.name) && t.handle != c.path
    requires IsChildOf(g.path, c.path) && WellFormed(c)
    ensures WellFormed(g)
  {
    assert Handles([t]) == [t.handle];
  }

  lemma {:induction false} ExampleWellFormed(t: VarMeta, child: string, name: string)
    requires IsChildPath("/", t.handle, t.name) && IsChildPath("/", child, name) && name != "."
    requires t.handle != child
    ensures WellFormed(Example(t, child))
  {
    RenderRoundTrip([]);
    var c := Example(t, child).children[0];
    LeafWellFormed(c);
    OneOfEach(Example(t, child), t, c);
  }

  lemma {:induction false} OnlyParent(child: string, name: string)
    requires IsChildPath("/", child, name)
    ensures child != "/" && |Parents(child)| == 1 && Parents(child)[0] == "/"
  {
    RenderRoundTrip([]);
    assert Segments(child)[..0] == [];
  }

  lemma {:induction false} ExamplePaths(t: VarMeta, child: string, path: string)
    requires child != "/"
    ensures path in PreOrder(Example(t, child)) <==> path == "/" || path == child
    ensures FindGroup(Example(t, child), child) == Some(Example(t, child).children[0])
    ensures Flatten(Example(t, child).children[0]) == [NodeData(child, map[], [])]
  {
    var g := Example(t, child);
    var c := g.children[0];
    assert PreOrder(c) == [child] + PreOrderAll([]);
    assert PreOrderAll(g.children) == PreOrder(c) + PreOrderAll(g.children[1..]);
    assert FindGroup(c, child) == Some(c);
  }

  lemma {:induction false} RootUnreadable(g: Group, t: VarMeta, broken: set<string>)
    requires WellFormed(g) && t in g.vars && t.handle in broken
    ensures IsArrayAt(g, t.handle) && !OwnReadable(g, g.path, broken)
  {
    var root := NodeData(g.path, g.attrs, g.vars);
    assert Flatten(g)[0] == root;
    assert root in Flatten(g) && t in root.vars;
    forall n | n in Flatten(g) && n.path == g.path ensures !Readable(n, broken) {
      NodeUnique(g, n, root);
    }
  }

  lemma {:induction false} RootBlocksAncestors(g: Group, child: string, name: string, broken: set<string>)
    requires IsChildPath("/", child, name) && !OwnReadable(g, "/", broken)
    ensures !AllOwnReadable(g, Parents(child), broken)
  {
    OnlyParent(child, name);
    assert !OwnReadable(g, Parents(child)[0], broken);
  }

  lemma {:induction false} ExampleChildReadable(t: VarMeta, child: string)
    requires child != "/" && t.handle != child
    ensures FindGroup(Example(t, child), child).Some?
    ensures AllReadable(Flatten(FindGroup(Example(t, child), child).value), {t.handle})
  {
    ExamplePaths(t, child, child);
  }

  /** Here the root's array is unreadable: the child group is readable, its only ancestor
      is not. And the array's path is no group's. */
  lemma {:induction false} UnreadableAncestor(t: VarMeta, child: string, name: string)
    requires IsChildPath("/", t.handle, t.name) && IsChildPath("/", child, name) && name != "."
    requires t.handle != child
    ensures var g := Example(t, child);
            && WellFormed(g) && IsArrayAt(g, t.handle) && t.handle !in PreOrder(g)
            && FindGroup(g, child).Some? && AllReadable(Flatten(FindGroup(g, child).value), {t.handle})
            && !AllOwnReadable(g, Parents(child), {t.handle})
  {
    var g := Example(t, child);
    OnlyParent(t.handle, t.name);
    OnlyParent(child, name);
    ExampleWellFormed(t, child, name);
    ExamplePaths(t, child, t.handle);
    ExampleChildReadable(t, child);
    RootUnreadable(g, t, {t.handle});
    RootBlocksAncestors(g, child, name, {t.handle});
  }

  lemma {:induction false} PruneNothing(g: Group)
    ensures Prune(g, None) == g
    decreases g
  {
    PruneNothingAll(g.children);
  }

  lemma {:induction false} PruneNothingAll(gs: seq<Group>)
    ensures PruneAll(gs, None) == gs
    decreases gs
  {
    if gs == [] {
    } else {
      PruneNothing(gs[0]);
      PruneNothingAll(gs[1..]);
    }
  }
}
