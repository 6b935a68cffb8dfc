/** Metadata snapshots (src/node.rs) and the group hierarchies they are taken from. */
module GroupTrees {
  import opened Glob
  import opened Paths
  import opened Wrappers

  type Attrs = map<string, string>

  /** `object` dtype covers vlen strings and raw bytes; `Unsupported` is any dtype the
      dispatch macro has no arm for. */
  datatype DType = Text | Bytes | Numeric | Unsupported

  datatype Elements = Str(strings: seq<string>) | Num(numbers: seq<int>)

  /** One array of a group; `handle` is the path its live array was opened at. */
  datatype VarMeta = VarMeta(name: string, dims: seq<string>, dtype: DType, shape: seq<nat>, attrs: Attrs,
                             handle: string, eager: Option<Elements>)

  datatype NodeData = NodeData(path: string, attrs: Attrs, vars: seq<VarMeta>)

  /** A group with its arrays and child groups, in the store's listing order. */
  datatype Group = Group(path: string, attrs: Attrs, vars: seq<VarMeta>, children: seq<Group>)

  ghost predicate IsChildPath(parent: string, child: string, name: string)
  {
    Canonical(child) && Segments(child) == Segments(parent) + [name]
  }

  /** Canonical paths that extend their parent's by one name, distinct among siblings,
      arrays and groups alike.
      A name is never ".", which path handling drops. */
  ghost predicate WellFormed(g: Group)
    decreases g
  {
    && Canonical(g.path)
    && (forall i :: 0 <= i < |g.vars| ==> IsChildPath(g.path, g.vars[i].handle, g.vars[i].name))
    && NoDuplicates(Handles(g.vars))
    && NoDuplicates(ChildPaths(g.children))
    && (forall c | c in g.children :: c.path !in Handles(g.vars))
    && (forall c | c in g.children :: IsChildOf(g.path, c.path) && WellFormed(c))
  }

  ghost predicate IsChildOf(parent: string, child: string)
  {
    exists name: string :: name != "." && IsChildPath(parent, child, name)
  }

  function Handles(vars: seq<VarMeta>): (r: seq<string>)
    ensures |r| == |vars| && forall i :: 0 <= i < |r| ==> r[i] == vars[i].handle
  {
    seq(|vars|, i requires 0 <= i < |vars| => vars[i].handle)
  }

  function ChildPaths(gs: seq<Group>): (r: seq<string>)
    ensures |r| == |gs| && forall i :: 0 <= i < |r| ==> r[i] == gs[i].path
  {
    seq(|gs|, i requires 0 <= i < |gs| => gs[i].path)
  }

  ghost predicate NoDuplicates<T>(s: seq<T>)
  {
    forall i, j :: 0 <= i < j < |s| ==> s[i] != s[j]
  }

  lemma {:induction false} NoDuplicatesConcat<T>(a: seq<T>, b: seq<T>)
    requires NoDuplicates(a) && NoDuplicates(b) && forall x | x in a :: x !in b
    ensures NoDuplicates(a + b)
  {
    forall i, j | 0 <= i < j < |a + b| ensures (a + b)[i] != (a + b)[j] {
      if i < |a| <= j {
        assert a[i] in a && b[j - |a|] in b;
      }
    }
  }

  /** Canonical paths that are ancestors of each other are equal. */
  lemma {:induction false} MutualAncestors(a: string, b: string)
    requires Canonical(a) && Canonical(b)
    ensures AncestorOrSelf(a, b) && |Segments(a)| >= |Segments(b)| ==> a == b
  {
    if AncestorOrSelf(a, b) && |Segments(a)| >= |Segments(b)| {
      assert Segments(a) == Segments(b)[..|Segments(b)|] == Segments(b);
    }
  }

  /** Of two ancestors of one path, the shorter is an ancestor of the longer. */
  lemma {:induction false} AncestorsNest(a: string, b: string, p: string)
    requires AncestorOrSelf(a, p) && AncestorOrSelf(b, p) && |Segments(a)| <= |Segments(b)|
    ensures AncestorOrSelf(a, b)
  {
    var sa, sb, sp := Segments(a), Segments(b), Segments(p);
    forall i | 0 <= i < |sa| ensures sa[i] == sb[i] {
      assert sa[i] == sp[i] == sb[i];
    }
  }

  // ----- pre-order -----

  function PreOrder(g: Group): (r: seq<string>)
    ensures |r| > 0 && r[0] == g.path
    decreases g
  {
    [g.path] + PreOrderAll(g.children)
  }

  function PreOrderAll(gs: seq<Group>): seq<string>
    decreases gs
  {
    if gs == [] then [] else PreOrder(gs[0]) + PreOrderAll(gs[1..])
  }

  /** The subtree's paths, pre-order, one entry per group. */
  function Flatten(g: Group): seq<NodeData>
    decreases g
  {
    [NodeData(g.path, g.attrs, g.vars)] + FlattenAll(g.children)
  }

  function FlattenAll(gs: seq<Group>): seq<NodeData>
    decreases gs
  {
    if gs == [] then [] else Flatten(gs[0]) + FlattenAll(gs[1..])
  }

  lemma {:induction false} FlattenPaths(g: Group)
    ensures |Flatten(g)| == |PreOrder(g)|
    ensures forall i :: 0 <= i < |Flatten(g)| ==> Flatten(g)[i].path == PreOrder(g)[i]
    decreases g
  {
    FlattenAllPaths(g.children);
  }

  lemma {:induction false} FlattenAllPaths(gs: seq<Group>)
    ensures |FlattenAll(gs)| == |PreOrderAll(gs)|
    ensures forall i :: 0 <= i < |FlattenAll(gs)| ==> FlattenAll(gs)[i].path == PreOrderAll(gs)[i]
    decreases gs
  {
    if gs == [] {
    } else {
      FlattenPaths(gs[0]);
      FlattenAllPaths(gs[1..]);
    }
  }

  /** `s` is `g` or one of the groups below it. */
  ghost predicate Contains(g: Group, s: Group)
    decreases g
  {
    s == g || exists c | c in g.children :: Contains(c, s)
  }

  /** The node is this group's: its path, its attributes, its arrays. */
  predicate IsNodeOf(n: NodeData, s: Group)
  {
    n.path == s.path && n.attrs == s.attrs && n.vars == s.vars
  }

  lemma {:induction false} InFlattenAll(gs: seq<Group>, n: NodeData)
    ensures n in FlattenAll(gs) <==> exists c :: c in gs && n in Flatten(c)
  {
    if gs == [] {
    } else {
      InFlattenAll(gs[1..], n);
      assert FlattenAll(gs) == Flatten(gs[0]) + FlattenAll(gs[1..]);
      if n in Flatten(gs[0]) {
        assert gs[0] in gs;
      } else if n in FlattenAll(gs[1..]) {
        var c :| c in gs[1..] && n in Flatten(c);
        assert c in gs;
      }
      if c :| c in gs && n in Flatten(c) {
        assert gs == [gs[0]] + gs[1..];
        assert c == gs[0] || c in gs[1..];
      }
    }
  }

  /** The listed nodes are exactly the nodes of the groups of the tree. */
  lemma {:induction false} FlattenIsContents(g: Group, n: NodeData)
    ensures n in Flatten(g) <==> exists s :: Contains(g, s) && IsNodeOf(n, s)
    decreases g
  {
    InFlattenAll(g.children, n);
    forall c | c in g.children ensures n in Flatten(c) <==> exists s :: Contains(c, s) && IsNodeOf(n, s) {
      FlattenIsContents(c, n);
    }
    if n in Flatten(g) {
      if n in FlattenAll(g.children) {
        var c :| c in g.children && n in Flatten(c);
        var s :| Contains(c, s) && IsNodeOf(n, s);
        assert Contains(g, s);
      } else {
        assert Contains(g, g) && IsNodeOf(n, g);
      }
    }
    if s :| Contains(g, s) && IsNodeOf(n, s) {
      if s != g {
        var c :| c in g.children && Contains(c, s);
        assert n in Flatten(c);
      }
    }
  }

  lemma {:induction false} InPreOrderAll(gs: seq<Group>, p: string)
    ensures p in PreOrderAll(gs) <==> exists c :: c in gs && p in PreOrder(c)
  {
    if gs == [] {
    } else {
      InPreOrderAll(gs[1..], p);
      assert PreOrderAll(gs) == PreOrder(gs[0]) + PreOrderAll(gs[1..]);
      if p in PreOrder(gs[0]) {
        assert gs[0] in gs;
      } else if p in PreOrderAll(gs[1..]) {
        var c :| c in gs[1..] && p in PreOrder(c);
        assert c in gs;
      }
      if c :| c in gs && p in PreOrder(c) {
        assert gs == [gs[0]] + gs[1..];
        assert c == gs[0] || c in gs[1..];
      }
    }
  }

  /** Every group below `g` has a canonical path that extends `g`'s. */
  lemma {:induction false} BelowRoot(g: Group, p: string)
    requires WellFormed(g) && p in PreOrder(g)
    ensures Canonical(p) && AncestorOrSelf(g.path, p)
    decreases g
  {
    if p != g.path {
      InPreOrderAll(g.children, p);
      var c :| c in g.children && p in PreOrder(c);
      BelowRoot(c, p);
    }
  }

  /** A group's tree holds every ancestor, up to the root, of each of its paths. */
  lemma {:induction false} TreeIsAncestorClosed(g: Group, a: string, p: string)
    requires WellFormed(g) && p in PreOrder(g)
    requires Canonical(a) && AncestorOrSelf(g.path, a) && AncestorOrSelf(a, p)
    ensures a in PreOrder(g)
    decreases g
  {
    if a != g.path {
      MutualAncestors(a, g.path);
      MutualAncestors(g.path, a);
      InPreOrderAll(g.children, p);
      var c :| c in g.children && p in PreOrder(c);
      BelowRoot(c, p);
      AncestorsNest(c.path, a, p);
      TreeIsAncestorClosed(c, a, p);
      InPreOrderAll(g.children, a);
    }
  }

  lemma {:induction false} SamePathAtSameDepth(a: string, b: string, p: string)
    requires AncestorOrSelf(a, p) && AncestorOrSelf(b, p) && Canonical(a) && Canonical(b)
    requires |Segments(a)| == |Segments(b)|
    ensures a == b
  {
    assert Segments(a) == Segments(p)[..|Segments(a)|] == Segments(b);
  }

  /** Paths in the subtrees of different children are unrelated. */
  lemma {:induction false} SiblingsUnrelated(g: Group, k: nat, m: nat, a: string, b: string)
    requires WellFormed(g) && k < m < |g.children|
    requires a in PreOrder(g.children[k]) && b in PreOrder(g.children[m])
    ensures !AncestorOrSelf(a, b) && !AncestorOrSelf(b, a) && a != b
  {
    var c, d := g.children[k], g.children[m];
    assert ChildPaths(g.children)[k] != ChildPaths(g.children)[m];
    assert c in g.children && d in g.children;
    BelowRoot(c, a);
    BelowRoot(d, b);
    if AncestorOrSelf(a, b) {
      SamePathAtSameDepth(c.path, d.path, b);
    } else if AncestorOrSelf(b, a) {
      SamePathAtSameDepth(c.path, d.path, a);
    }
  }

  /** A path found among the children from the `k`-th on lies in one of their subtrees. */
  lemma {:induction false} LocateChild(gs: seq<Group>, k: nat, p: string) returns (m: nat)
    requires k <= |gs| && p in PreOrderAll(gs[k..])
    ensures k <= m < |gs| && p in PreOrder(gs[m])
  {
    InPreOrderAll(gs[k..], p);
    var c :| c in gs[k..] && p in PreOrder(c);
    var i :| 0 <= i < |gs[k..]| && gs[k..][i] == c;
    m := k + i;
  }

  /** Every ancestor is listed before its descendants, and nothing is listed twice. */
  ghost predicate AncestorsFirst(paths: seq<string>)
  {
    forall i, j :: 0 <= j < i < |paths| ==> !AncestorOrSelf(paths[i], paths[j])
  }

  lemma {:induction false} AncestorsFirstConcat(a: seq<string>, b: seq<string>)
    requires AncestorsFirst(a) && AncestorsFirst(b)
    requires forall x, y | x in a && y in b :: !AncestorOrSelf(y, x)
    ensures AncestorsFirst(a + b)
  {
    forall i, j | 0 <= j < i < |a + b| ensures !AncestorOrSelf((a + b)[i], (a + b)[j]) {
      if j < |a| <= i {
        assert a[j] in a && b[i - |a|] in b;
      }
    }
  }

  lemma {:induction false} PreOrderAncestorsFirst(g: Group)
    requires WellFormed(g)
    ensures AncestorsFirst(PreOrder(g))
    decreases g
  {
    assert g.children[0..] == g.children;
    SiblingsAncestorsFirst(g, 0);
    forall y | y in PreOrderAll(g.children) ensures !AncestorOrSelf(y, g.path) {
      var m := LocateChild(g.children, 0, y);
      BelowRoot(g.children[m], y);
    }
    AncestorsFirstConcat([g.path], PreOrderAll(g.children));
  }

  lemma {:induction false} SiblingsAncestorsFirst(g: Group, k: nat)
    requires WellFormed(g) && k <= |g.children|
    ensures AncestorsFirst(PreOrderAll(g.children[k..]))
    decreases g, 0, |g.children| - k
  {
    if k < |g.children| {
      PreOrderAncestorsFirst(g.children[k]);
      SiblingsAncestorsFirst(g, k + 1);
      assert g.children[k..][1..] == g.children[k + 1..];
      forall x, y | x in PreOrder(g.children[k]) && y in PreOrderAll(g.children[k + 1..])
        ensures !AncestorOrSelf(y, x)
      {
        var m := LocateChild(g.children, k + 1, y);
        SiblingsUnrelated(g, k, m, x, y);
      }
      AncestorsFirstConcat(PreOrder(g.children[k]), PreOrderAll(g.children[k + 1..]));
    }
  }

  lemma {:induction false} PreOrderAppend(a: seq<Group>, b: seq<Group>)
    ensures PreOrderAll(a + b) == PreOrderAll(a) + PreOrderAll(b)
  {
    if a == [] {
      assert a + b == b;
    } else {
      assert (a + b)[1..] == a[1..] + b;
      PreOrderAppend(a[1..], b);
    }
  }

  lemma {:induction false} PreOrderAround(gs: seq<Group>, k: nat)
    requires k < |gs|
    ensures PreOrderAll(gs) == PreOrderAll(gs[..k]) + PreOrder(gs[k]) + PreOrderAll(gs[k + 1..])
  {
    var rest := gs[k..];
    assert gs == gs[..k] + rest;
    PreOrderAppend(gs[..k], rest);
    assert rest[0] == gs[k] && rest[1..] == gs[k + 1..];
  }

  /** In the subtree of one of the groups from the `lo`-th up to the `hi`-th. */
  ghost predicate InSubtrees(gs: seq<Group>, lo: nat, hi: nat, p: string)
  {
    exists m :: lo <= m < hi && m < |gs| && p in PreOrder(gs[m])
  }

  /** Siblings come in listing order, each subtree in one piece: before a child's subtree
      there are only the root and the subtrees of earlier children, after it only later ones. */
  lemma {:induction false} SubtreesInListingOrder(g: Group, k: nat) returns (before: seq<string>, after: seq<string>)
    requires k < |g.children|
    ensures PreOrder(g) == [g.path] + before + PreOrder(g.children[k]) + after
    ensures forall p :: p in before <==> InSubtrees(g.children, 0, k, p)
    ensures forall p :: p in after <==> InSubtrees(g.children, k + 1, |g.children|, p)
  {
    before, after := PreOrderAll(g.children[..k]), PreOrderAll(g.children[k + 1..]);
    PreOrderAround(g.children, k);
    assert g.children[0..k] == g.children[..k];
    assert g.children[k + 1..|g.children|] == g.children[k + 1..];
    AmongSubtrees(g.children, 0, k, before);
    AmongSubtrees(g.children, k + 1, |g.children|, after);
  }

  lemma {:induction false} AmongSubtrees(gs: seq<Group>, lo: nat, hi: nat, paths: seq<string>)
    requires lo <= hi <= |gs| && paths == PreOrderAll(gs[lo..hi])
    ensures forall p :: p in paths <==> InSubtrees(gs, lo, hi, p)
  {
    forall p ensures p in paths <==> InSubtrees(gs, lo, hi, p) {
      AmongThese(gs, lo, hi, p);
    }
  }

  lemma {:induction false} AmongThese(gs: seq<Group>, lo: nat, hi: nat, p: string)
    requires lo <= hi <= |gs|
    ensures p in PreOrderAll(gs[lo..hi]) <==> InSubtrees(gs, lo, hi, p)
  {
    InPreOrderAll(gs[lo..hi], p);
    if c :| c in gs[lo..hi] && p in PreOrder(c) {
      var i :| 0 <= i < hi - lo && gs[lo..hi][i] == c;
      assert gs[lo + i] == c;
    }
    if m :| lo <= m < hi && p in PreOrder(gs[m]) {
      assert gs[lo..hi][m - lo] == gs[m];
    }
  }

  // ----- pruning -----

  /** The walkers' filter: everything survives when there is no predicate. */
  predicate Keep(glob: Option<GlobPredicate>, path: string)
  {
    glob.Some? ==> CouldMatch(glob.value, path)
  }

  /** The part of a tree the pruned walk visits; its root is always visited. */
  function Prune(g: Group, glob: Option<GlobPredicate>): (r: Group)
    ensures r.path == g.path
    decreases g
  {
    g.(children := PruneAll(g.children, glob))
  }

  function PruneAll(gs: seq<Group>, glob: Option<GlobPredicate>): seq<Group>
    decreases gs
  {
    if gs == [] then []
    else if Keep(glob, gs[0].path) then [Prune(gs[0], glob)] + PruneAll(gs[1..], glob)
    else PruneAll(gs[1..], glob)
  }

  lemma {:induction false} InPruneAll(gs: seq<Group>, glob: Option<GlobPredicate>, c: Group)
    ensures c in PruneAll(gs, glob) <==> exists d :: d in gs && Keep(glob, d.path) && c == Prune(d, glob)
  {
    if gs == [] {
    } else {
      InPruneAll(gs[1..], glob, c);
      assert gs == [gs[0]] + gs[1..];
    }
  }

  lemma {:induction false} InChildPaths(gs: seq<Group>, p: string)
    ensures p in ChildPaths(gs) <==> exists c :: c in gs && c.path == p
  {
    if c :| c in gs && c.path == p {
      var i :| 0 <= i < |gs| && gs[i] == c;
      assert ChildPaths(gs)[i] == p;
    }
  }

  lemma {:induction false} PrunedChildPaths(gs: seq<Group>, glob: Option<GlobPredicate>, p: string)
    requires p in ChildPaths(PruneAll(gs, glob))
    ensures p in ChildPaths(gs)
  {
    InChildPaths(PruneAll(gs, glob), p);
    var c :| c in PruneAll(gs, glob) && c.path == p;
    InPruneAll(gs, glob, c);
    InChildPaths(gs, p);
  }

  lemma {:induction false} PruneAllPaths(gs: seq<Group>, glob: Option<GlobPredicate>)
    requires gs != []
    ensures ChildPaths(PruneAll(gs, glob)) ==
            (if Keep(glob, gs[0].path) then [gs[0].path] else []) + ChildPaths(PruneAll(gs[1..], glob))
  {}

  lemma {:induction false} TailPaths(gs: seq<Group>)
    requires gs != [] && NoDuplicates(ChildPaths(gs))
    ensures NoDuplicates(ChildPaths(gs[1..])) && gs[0].path !in ChildPaths(gs[1..])
  {
    assert ChildPaths(gs[1..]) == ChildPaths(gs)[1..];
  }

  lemma {:induction false} PruneAllDistinct(gs: seq<Group>, glob: Option<GlobPredicate>)
    requires NoDuplicates(ChildPaths(gs))
    ensures NoDuplicates(ChildPaths(PruneAll(gs, glob)))
  {
    if gs == [] {
    } else {
      var first, rest := gs[0].path, ChildPaths(PruneAll(gs[1..], glob));
      TailPaths(gs);
      PruneAllDistinct(gs[1..], glob);
      if first in rest {
        PrunedChildPaths(gs[1..], glob, first);
      }
      PruneAllPaths(gs, glob);
      NoDuplicatesConcat(if Keep(glob, first) then [first] else [], rest);
    }
  }

  lemma {:induction false} PruneWellFormed(g: Group, glob: Option<GlobPredicate>)
    requires WellFormed(g)
    ensures WellFormed(Prune(g, glob))
    decreases g
  {
    PruneAllDistinct(g.children, glob);
    forall c | c in PruneAll(g.children, glob)
      ensures IsChildOf(g.path, c.path) && WellFormed(c) && c.path !in Handles(g.vars)
    {
      InPruneAll(g.children, glob, c);
      var d :| d in g.children && c == Prune(d, glob);
      PruneWellFormed(d, glob);
    }
  }

  /** Because the predicate is antitone, cutting subtrees is the same as filtering paths. */
  lemma {:induction false} PrunedPaths(g: Group, glob: Option<GlobPredicate>, p: string)
    requires WellFormed(g)
    ensures p in PreOrder(Prune(g, glob)) <==> p in PreOrder(g) && (p == g.path || Keep(glob, p))
    decreases g
  {
    if p in PreOrderAll(PruneAll(g.children, glob)) {
      var d := PrunedChildWith(g.children, glob, p);
      PrunedPaths(d, glob, p);
      InPreOrderAll(g.children, p);
    }
    if p in PreOrderAll(g.children) && Keep(glob, p) {
      InPreOrderAll(g.children, p);
      var d :| d in g.children && p in PreOrder(d);
      KeptBelow(d, glob, p);
      PrunedPaths(d, glob, p);
      InPruneAll(g.children, glob, Prune(d, glob));
      InPreOrderAll(PruneAll(g.children, glob), p);
    }
  }

  lemma {:induction false} PrunedChildWith(gs: seq<Group>, glob: Option<GlobPredicate>, p: string) returns (d: Group)
    requires p in PreOrderAll(PruneAll(gs, glob))
    ensures d in gs && Keep(glob, d.path) && p in PreOrder(Prune(d, glob))
  {
    InPreOrderAll(PruneAll(gs, glob), p);
    var c :| c in PruneAll(gs, glob) && p in PreOrder(c);
    InPruneAll(gs, glob, c);
    d :| d in gs && Keep(glob, d.path) && c == Prune(d, glob);
  }

  lemma {:induction false} KeptBelow(d: Group, glob: Option<GlobPredicate>, p: string)
    requires WellFormed(d) && p in PreOrder(d) && Keep(glob, p)
    ensures Keep(glob, d.path)
  {
    BelowRoot(d, p);
    if glob.Some? {
      CouldMatchAntitone(glob.value, d.path, p);
    }
  }
}
