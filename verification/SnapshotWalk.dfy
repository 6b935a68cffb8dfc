/** `walk_icechunk_session_snapshot` (src/walk.rs): filter a flat node list, group the
    arrays by parent path, attach them, and emit the groups in path order. */
module SnapshotWalk {
  import opened Glob
  import opened GroupTrees
  import opened Paths
  import opened RowMajor
  import opened Wrappers

  datatype Snap = GroupSnap(path: string, attrs: Attrs) | ArraySnap(meta: VarMeta)

  datatype WalkError = NotReadable(path: string) | Orphans(parent: string)

  /** Which groups the call materialises; an array goes with its parent group. */
  datatype Selection = Selection(root: string, recursive: bool, glob: Option<GlobPredicate>)
  {
    predicate Passes(path: string)
    {
      (recursive || path == root) && Keep(glob, path)
    }
  }

  // ----- what the walk should produce -----

  /** The arrays whose parent group passes, in listing order. */
  function PassingArrays(snaps: seq<Snap>, sel: Selection): seq<VarMeta>
  {
    if snaps == [] then []
    else
      var s, rest := snaps[|snaps| - 1], PassingArrays(snaps[..|snaps| - 1], sel);
      if s.ArraySnap? && sel.Passes(ParentOf(s.meta.handle)) then rest + [s.meta] else rest
  }

  /** Those directly under one group. */
  function Under(arrays: seq<VarMeta>, parent: string): (r: seq<VarMeta>)
  {
    if arrays == [] then []
    else
      var m, rest := arrays[|arrays| - 1], Under(arrays[..|arrays| - 1], parent);
      if ParentOf(m.handle) == parent then rest + [m] else rest
  }

  ghost predicate ListsGroup(snaps: seq<Snap>, sel: Selection, path: string)
  {
    sel.Passes(path) && exists i :: 0 <= i < |snaps| && snaps[i].GroupSnap? && snaps[i].path == path
  }

  ghost predicate HasOrphans(snaps: seq<Snap>, sel: Selection, parent: string)
  {
    Under(PassingArrays(snaps, sel), parent) != [] && !ListsGroup(snaps, sel, parent)
  }

  /** A passing node whose metadata cannot be parsed. */
  ghost predicate Unreadable(snaps: seq<Snap>, sel: Selection, broken: set<string>, path: string)
  {
    path in broken && (ListsGroup(snaps, sel, path) || exists m :: m in PassingArrays(snaps, sel) && m.handle == path)
  }

  ghost predicate PathSorted(nodes: seq<NodeData>)
  {
    forall i, j :: 0 <= i < j < |nodes| ==> Less(nodes[i].path, nodes[j].path)
  }

  /** Exactly the passing groups, in path order, each with exactly its own arrays. */
  ghost predicate Assembled(snaps: seq<Snap>, sel: Selection, nodes: seq<NodeData>)
  {
    && PathSorted(nodes)
    && (forall p :: ListsGroup(snaps, sel, p) <==> exists i :: 0 <= i < |nodes| && nodes[i].path == p)
    && (forall i :: 0 <= i < |nodes| ==>
                      && GroupSnap(nodes[i].path, nodes[i].attrs) in snaps
                      && nodes[i].vars == Under(PassingArrays(snaps, sel), nodes[i].path))
  }

  lemma {:induction false} InPassing(snaps: seq<Snap>, sel: Selection, m: VarMeta)
    ensures m in PassingArrays(snaps, sel) <==> ArraySnap(m) in snaps && sel.Passes(ParentOf(m.handle))
  {
    if snaps == [] {
    } else {
      var front, s := snaps[..|snaps| - 1], snaps[|snaps| - 1];
      InPassing(front, sel, m);
      assert snaps == front + [s];
    }
  }

  lemma {:induction false} InUnder(arrays: seq<VarMeta>, parent: string, m: VarMeta)
    ensures m in Under(arrays, parent) <==> m in arrays && ParentOf(m.handle) == parent
  {
    if arrays == [] {
    } else {
      var front, last := arrays[..|arrays| - 1], arrays[|arrays| - 1];
      InUnder(front, parent, m);
      assert arrays == front + [last];
    }
  }

  // ----- the walk -----

  /** First pass: the passing groups, still empty, and the passing arrays. */
  method Materialise(snaps: seq<Snap>, sel: Selection, broken: set<string>)
    returns (r: Result<(map<string, NodeData>, seq<VarMeta>), WalkError>)
    ensures r.Success? ==>
              && r.value.1 == PassingArrays(snaps, sel)
              && (forall p :: p in r.value.0 <==> ListsGroup(snaps, sel, p))
              && (forall p :: p in r.value.0 ==>
                                && p !in broken && r.value.0[p].path == p && r.value.0[p].vars == []
                                && GroupSnap(p, r.value.0[p].attrs) in snaps)
    ensures r.Failure? ==> r.error.NotReadable? && Unreadable(snaps, sel, broken, r.error.path)
  {
    var groups: map<string, NodeData> := map[];
    var arrays: seq<VarMeta> := [];
    for n := 0 to |snaps|
      invariant arrays == PassingArrays(snaps[..n], sel)
      invariant forall p :: p in groups <==>
                            sel.Passes(p) && exists i :: 0 <= i < n && snaps[i].GroupSnap? && snaps[i].path == p
      invariant forall p :: p in groups ==>
                              && p !in broken && groups[p].path == p && groups[p].vars == []
                              && GroupSnap(p, groups[p].attrs) in snaps
    {
      var snap := snaps[n];
      assert snaps[..n + 1][..n] == snaps[..n];
      match snap
      case GroupSnap(path, attrs) =>
        if sel.Passes(path) {
          if path in broken {
            return Failure(NotReadable(path));
          }
          groups := groups[path := NodeData(path, attrs, [])];
        }
      case ArraySnap(meta) =>
        if sel.Passes(ParentOf(meta.handle)) {
          arrays := arrays + [meta];
        }
    }
    assert snaps[..|snaps|] == snaps;
    return Success((groups, arrays));
  }

  /** Batch the arrays by parent path. */
  method GroupByParent(arrays: seq<VarMeta>) returns (byParent: map<string, seq<VarMeta>>)
    ensures forall p :: p in byParent <==> Under(arrays, p) != []
    ensures forall p :: p in byParent ==> byParent[p] == Under(arrays, p)
  {
    byParent := map[];
    for n := 0 to |arrays|
      invariant forall p :: p in byParent <==> Under(arrays[..n], p) != []
      invariant forall p :: p in byParent ==> byParent[p] == Under(arrays[..n], p)
    {
      assert arrays[..n + 1][..n] == arrays[..n];
      var parent := ParentOf(arrays[n].handle);
      var batch := if parent in byParent then byParent[parent] else [];
      byParent := byParent[parent := batch + [arrays[n]]];
    }
    assert arrays[..|arrays|] == arrays;
  }

  /** Build the arrays' metadata; any one that cannot be parsed fails the walk. */
  method BuildAll(arrays: seq<VarMeta>, broken: set<string>) returns (bad: Option<string>)
    ensures bad.None? ==> forall m | m in arrays :: m.handle !in broken
    ensures bad.Some? ==> bad.value in broken && exists m :: m in arrays && m.handle == bad.value
  {
    for n := 0 to |arrays|
      invariant forall i :: 0 <= i < n ==> arrays[i].handle !in broken
    {
      if arrays[n].handle in broken {
        return Some(arrays[n].handle);
      }
    }
    return None;
  }

  /** Second pass: hand every batch to its parent group. */
  method Attach(groups: map<string, NodeData>, byParent: map<string, seq<VarMeta>>)
    returns (r: Result<map<string, NodeData>, WalkError>)
    ensures r.Success? <==> forall p | p in byParent && byParent[p] != [] :: p in groups
    ensures r.Success? ==>
              && r.value.Keys == groups.Keys
              && forall p | p in groups ::
                   r.value[p] == if p in byParent then groups[p].(vars := byParent[p]) else groups[p]
    ensures r.Failure? ==> exists p :: p in byParent && byParent[p] != [] && p !in groups && r.error == Orphans(p)
  {
    var attached := groups;
    var todo := byParent.Keys;
    while todo != {}
      invariant todo <= byParent.Keys
      invariant attached.Keys == groups.Keys
      invariant forall p | p in groups ::
                  attached[p] == if p in byParent && p !in todo then groups[p].(vars := byParent[p]) else groups[p]
      invariant forall p | p in byParent && p !in todo && byParent[p] != [] :: p in groups
      decreases |todo|
    {
      var parent :| parent in todo;
      if parent in attached {
        attached := attached[parent := attached[parent].(vars := byParent[parent])];
      } else if byParent[parent] != [] {
        return Failure(Orphans(parent));
      }
      todo := todo - {parent};
    }
    return Success(attached);
  }

  lemma {:induction false} MinimumExists(s: set<string>)
    requires s != {}
    ensures exists m :: IsMinimum(s, m)
  {
    var x :| x in s;
    if s == {x} {
      assert IsMinimum(s, x);
    } else {
      MinimumExists(s - {x});
      var m :| IsMinimum(s - {x}, m);
      LessTotal(x, m);
      if Less(x, m) {
        forall y | y in s ensures y == x || Less(x, y) {
          if y != x && y != m { LessTransitive(x, m, y); }
        }
        assert IsMinimum(s, x);
      } else {
        assert IsMinimum(s, m);
      }
    }
  }

  predicate IsMinimum(s: set<string>, m: string)
  {
    m in s && forall x | x in s :: x == m || Less(m, x)
  }

  ghost predicate HasPath(nodes: seq<NodeData>, p: string)
  {
    exists i :: 0 <= i < |nodes| && nodes[i].path == p
  }

  ghost predicate AllBefore(nodes: seq<NodeData>, todo: set<string>)
  {
    forall i, x :: 0 <= i < |nodes| && x in todo ==> Less(nodes[i].path, x)
  }

  lemma {:induction false} HasPathAppend(nodes: seq<NodeData>, n: NodeData, p: string)
    ensures HasPath(nodes + [n], p) <==> HasPath(nodes, p) || n.path == p
  {
    if HasPath(nodes, p) {
      var i :| 0 <= i < |nodes| && nodes[i].path == p;
      assert (nodes + [n])[i].path == p;
    }
    assert (nodes + [n])[|nodes|] == n;
  }

  /** Appending the smallest of what is left keeps the order. */
  lemma {:induction false} AppendMinimum(nodes: seq<NodeData>, todo: set<string>, n: NodeData)
    requires PathSorted(nodes) && AllBefore(nodes, todo) && IsMinimum(todo, n.path)
    ensures PathSorted(nodes + [n]) && AllBefore(nodes + [n], todo - {n.path})
  {
    LessIrreflexive(n.path);
  }

  /** `BTreeMap::into_values`: the values in key order. */
  method InKeyOrder(groups: map<string, NodeData>) returns (nodes: seq<NodeData>)
    requires forall p :: p in groups ==> groups[p].path == p
    ensures PathSorted(nodes)
    ensures forall i :: 0 <= i < |nodes| ==> nodes[i].path in groups && nodes[i] == groups[nodes[i].path]
    ensures forall p :: p in groups <==> HasPath(nodes, p)
  {
    nodes := [];
    var todo := groups.Keys;
    while todo != {}
      invariant todo <= groups.Keys && PathSorted(nodes) && AllBefore(nodes, todo)
      invariant forall i :: 0 <= i < |nodes| ==> nodes[i].path in groups && nodes[i] == groups[nodes[i].path]
      invariant forall p :: p in groups ==> p in todo || HasPath(nodes, p)
      decreases |todo|
    {
      MinimumExists(todo);
      var m :| m in todo && IsMinimum(todo, m);
      AppendMinimum(nodes, todo, groups[m]);
      forall p | p in groups ensures HasPath(nodes + [groups[m]], p) <==> HasPath(nodes, p) || m == p {
        HasPathAppend(nodes, groups[m], p);
      }
      nodes := nodes + [groups[m]];
      todo := todo - {m};
    }
  }

  /** The map of groups the first pass leaves. */
  ghost predicate Materialised(snaps: seq<Snap>, sel: Selection, groups: map<string, NodeData>)
  {
    && (forall p :: p in groups <==> ListsGroup(snaps, sel, p))
    && (forall p :: p in groups ==> groups[p].path == p && groups[p].vars == []
                                    && GroupSnap(p, groups[p].attrs) in snaps)
  }

  /** The map with every group's own arrays. */
  ghost predicate Attached(snaps: seq<Snap>, sel: Selection, groups: map<string, NodeData>)
  {
    && (forall p :: p in groups <==> ListsGroup(snaps, sel, p))
    && (forall p :: p in groups ==> groups[p].path == p && GroupSnap(p, groups[p].attrs) in snaps
                                    && groups[p].vars == Under(PassingArrays(snaps, sel), p))
  }

  ghost predicate GroupedByParent(arrays: seq<VarMeta>, byParent: map<string, seq<VarMeta>>)
  {
    && (forall p :: p in byParent <==> Under(arrays, p) != [])
    && (forall p :: p in byParent ==> byParent[p] == Under(arrays, p))
  }

  lemma {:induction false} AttachedOwnArrays(snaps: seq<Snap>, sel: Selection, groups: map<string, NodeData>,
                                             byParent: map<string, seq<VarMeta>>, attached: map<string, NodeData>)
    requires Materialised(snaps, sel, groups) && GroupedByParent(PassingArrays(snaps, sel), byParent)
    requires attached.Keys == groups.Keys
    requires forall p | p in groups ::
               attached[p] == if p in byParent then groups[p].(vars := byParent[p]) else groups[p]
    ensures Attached(snaps, sel, attached)
  {
    assert forall p :: p in attached <==> p in attached.Keys;
  }

  lemma {:induction false} InOrderIsAssembled(snaps: seq<Snap>, sel: Selection, groups: map<string, NodeData>,
                                              nodes: seq<NodeData>)
    requires Attached(snaps, sel, groups) && PathSorted(nodes)
    requires forall i :: 0 <= i < |nodes| ==> nodes[i].path in groups && nodes[i] == groups[nodes[i].path]
    requires forall p :: p in groups <==> HasPath(nodes, p)
    ensures Assembled(snaps, sel, nodes)
  {}

  /** With every batch's parent among the groups, no array is an orphan. */
  lemma {:induction false} NoneLeftOver(snaps: seq<Snap>, sel: Selection, groups: map<string, NodeData>,
                                        byParent: map<string, seq<VarMeta>>)
    requires Materialised(snaps, sel, groups) && GroupedByParent(PassingArrays(snaps, sel), byParent)
    ensures (forall p | p in byParent && byParent[p] != [] :: p in groups) ==> forall p :: !HasOrphans(snaps, sel, p)
    ensures forall p :: p in byParent && byParent[p] != [] && p !in groups ==> HasOrphans(snaps, sel, p)
  {}

  /** The whole walk, over the list the session returned. */
  method WalkSnapshot(snaps: seq<Snap>, root: string, recursive: bool, glob: Option<GlobPredicate>, broken: set<string>)
    returns (r: Result<seq<NodeData>, WalkError>)
    requires Canonical(root)
    ensures var sel := Selection(root, recursive, glob);
            && (r.Success? ==>
                  && Assembled(snaps, sel, r.value)
                  && (forall p :: !Unreadable(snaps, sel, broken, p)) && (forall p :: !HasOrphans(snaps, sel, p)))
            && (r.Failure? ==> match r.error
                               case NotReadable(p) => Unreadable(snaps, sel, broken, p)
                               case Orphans(p) => HasOrphans(snaps, sel, p))
  {
    NormalizeCanonical(root);
    var sel := Selection(NormalizePath(root), recursive, glob);
    var materialised := Materialise(snaps, sel, broken);
    if materialised.Failure? {
      return Failure(materialised.error);
    }
    var (groups, arrays) := materialised.value;
    var byParent := GroupByParent(arrays);
    NoneLeftOver(snaps, sel, groups, byParent);
    var bad := BuildAll(arrays, broken);
    if bad.Some? {
      return Failure(NotReadable(bad.value));
    }
    var attached := Attach(groups, byParent);
    if attached.Failure? {
      return Failure(attached.error);
    }
    AttachedOwnArrays(snaps, sel, groups, byParent, attached.value);
    var nodes := InKeyOrder(attached.value);
    InOrderIsAssembled(snaps, sel, attached.value, nodes);
    return Success(nodes);
  }

  // ----- what follows -----

  function PathList(nodes: seq<NodeData>): seq<string>
  {
    seq(|nodes|, i requires 0 <= i < |nodes| => nodes[i].path)
  }

  /** Ancestors first, from path-string order alone. */
  lemma {:induction false} SortedIsAncestorsFirst(nodes: seq<NodeData>)
    requires PathSorted(nodes) && forall i :: 0 <= i < |nodes| ==> Canonical(nodes[i].path)
    ensures AncestorsFirst(PathList(nodes))
  {
    forall i, j | 0 <= j < i < |nodes| ensures !AncestorOrSelf(nodes[i].path, nodes[j].path) {
      var a, b := nodes[i].path, nodes[j].path;
      LessIrreflexive(a);
      if AncestorOrSelf(a, b) {
        if a != b { AncestorSortsFirst(a, b); }
        LessTransitive(b, a, b);
        LessIrreflexive(b);
      }
    }
  }

  /** Every array's parent group is listed. */
  ghost predicate ParentsListed(snaps: seq<Snap>)
  {
    forall s | s in snaps && s.ArraySnap? ::
      exists i :: 0 <= i < |snaps| && snaps[i].GroupSnap? && snaps[i].path == ParentOf(s.meta.handle)
  }

  /** On a list that has every array's parent, the "no parent group" error cannot happen:
      an array and its parent group pass the same filter. */
  lemma {:induction false} NoOrphans(snaps: seq<Snap>, sel: Selection, parent: string)
    requires ParentsListed(snaps)
    ensures !HasOrphans(snaps, sel, parent)
  {
    var batch := Under(PassingArrays(snaps, sel), parent);
    if batch != [] {
      assert batch[0] in batch;
      InUnder(PassingArrays(snaps, sel), parent, batch[0]);
      InPassing(snaps, sel, batch[0]);
    }
  }

  function AllVars(nodes: seq<NodeData>): seq<VarMeta>
  {
    if nodes == [] then [] else AllVars(nodes[..|nodes| - 1]) + nodes[|nodes| - 1].vars
  }

  /** How many of the nodes are at a path. */
  function CountAt(nodes: seq<NodeData>, p: string): nat
  {
    if nodes == [] then 0
    else CountAt(nodes[..|nodes| - 1], p) + if nodes[|nodes| - 1].path == p then 1 else 0
  }

  lemma {:induction false} UnderMultiplicity(arrays: seq<VarMeta>, parent: string, m: VarMeta)
    ensures multiset(Under(arrays, parent))[m] == if ParentOf(m.handle) == parent then multiset(arrays)[m] else 0
  {
    if arrays == [] {
    } else {
      UnderMultiplicity(arrays[..|arrays| - 1], parent, m);
      assert arrays == arrays[..|arrays| - 1] + [arrays[|arrays| - 1]];
    }
  }

  lemma {:induction false} AllVarsMultiplicity(arrays: seq<VarMeta>, nodes: seq<NodeData>, m: VarMeta)
    requires forall i :: 0 <= i < |nodes| ==> nodes[i].vars == Under(arrays, nodes[i].path)
    ensures multiset(AllVars(nodes))[m] == CountAt(nodes, ParentOf(m.handle)) * multiset(arrays)[m]
  {
    if nodes == [] {
    } else {
      var front, last := nodes[..|nodes| - 1], nodes[|nodes| - 1];
      AllVarsMultiplicity(arrays, front, m);
      UnderMultiplicity(arrays, last.path, m);
      assert multiset(AllVars(nodes))[m] == multiset(AllVars(front))[m] + multiset(last.vars)[m];
      Distribute(CountAt(front, ParentOf(m.handle)), multiset(arrays)[m]);
    }
  }

  lemma {:induction false} CountAtSorted(nodes: seq<NodeData>, p: string)
    requires PathSorted(nodes)
    ensures CountAt(nodes, p) == if exists i :: 0 <= i < |nodes| && nodes[i].path == p then 1 else 0
  {
    if nodes == [] {
    } else {
      var front, last := nodes[..|nodes| - 1], nodes[|nodes| - 1];
      CountAtSorted(front, p);
      LessIrreflexive(p);
      if i :| 0 <= i < |front| && front[i].path == p {
        assert nodes[i].path == p;
      }
    }
  }

  /** Arrays are conserved: whatever the list's order and the filters, the returned nodes
      hold every passing array exactly as often as it is listed, and no other array. */
  lemma {:induction false} ArraysAreConserved(snaps: seq<Snap>, sel: Selection, nodes: seq<NodeData>)
    requires ParentsListed(snaps) && Assembled(snaps, sel, nodes)
    ensures multiset(AllVars(nodes)) == multiset(PassingArrays(snaps, sel))
  {
    var arrays := PassingArrays(snaps, sel);
    forall m: VarMeta ensures multiset(AllVars(nodes))[m] == multiset(arrays)[m] {
      AllVarsMultiplicity(arrays, nodes, m);
      CountAtSorted(nodes, ParentOf(m.handle));
      InPassing(snaps, sel, m);
      if m in arrays {
        assert ListsGroup(snaps, sel, ParentOf(m.handle));
      }
    }
  }
}
