/** `_filter_by_glob` and `_reroot` (python/rustytree/backend.py), and the promise that
    pruning the walk never changes what the filter returns. */
module GroupFilter {
  import opened Glob
  import opened GroupTrees
  import opened Paths
  import opened Wrappers

  // ----- PurePosixPath.match -----

  /** Exactly two leading slashes are a root of their own in POSIX path syntax. */
  predicate DoubleRoot(pattern: string)
  {
    2 <= |pattern| && pattern[0] == pattern[1] == '/' && (|pattern| == 2 || pattern[2] != '/')
  }

  /** PurePosixPath drops "." segments. */
  function WithoutDots(segs: seq<string>): (r: seq<string>)
    ensures AllNames(segs) ==> AllNames(r)
    ensures "." !in r
  {
    if segs == [] then []
    else (if segs[0] == "." then [] else [segs[0]]) + WithoutDots(segs[1..])
  }

  /** `PurePosixPath(path).match(pattern)` on canonical absolute paths. For patterns the
      walk does not prune by, the answer is left to `other`. */
  predicate PathMatch(pattern: string, path: string, other: (string, string) -> bool)
  {
    if StarOnly(pattern) then
      !DoubleRoot(pattern) && FullMatch(WithoutDots(Segments(pattern)), Segments(path))
    else other(pattern, path)
  }

  /** `pattern` is p0 * p1 * ... and the name puts something in place of every star. */
  ghost predicate FillsStars(pattern: string, name: string)
  {
    exists wilds: seq<string> ::
      |wilds| + 1 == |Split(pattern, '*')| && Interleave(Split(pattern, '*'), wilds) == name
  }

  /** As many segments as the pattern, each filling in the stars of its own. */
  ghost predicate MatchesEach(pats: seq<string>, names: seq<string>)
  {
    |names| == |pats| && forall i :: 0 <= i < |pats| ==> FillsStars(pats[i], names[i])
  }

  lemma {:induction false} FullMatchIsEach(pats: seq<string>, names: seq<string>)
    ensures FullMatch(pats, names) <==> MatchesEach(pats, names)
  {
    forall i | 0 <= i < |pats| && |names| == |pats|
      ensures FnMatch(pats[i], names[i]) <==> FillsStars(pats[i], names[i])
    {
      FnMatchIsACut(pats[i], names[i]);
    }
  }

  lemma {:induction false} NothingDropped(segs: seq<string>)
    requires "." !in segs
    ensures WithoutDots(segs) == segs
  {
    if segs == [] {
    } else {
      NothingDropped(segs[1..]);
    }
  }

  lemma {:induction false} WithoutDotsAppend(a: seq<string>, b: seq<string>)
    ensures WithoutDots(a + b) == WithoutDots(a) + WithoutDots(b)
  {
    if a == [] {
      assert a + b == b;
    } else {
      assert (a + b)[1..] == a[1..] + b;
      WithoutDotsAppend(a[1..], b);
    }
  }

  /** No segment holds one of the wildcards that are not modelled. */
  predicate OnlyStars(pats: seq<string>)
  {
    forall i :: 0 <= i < |pats| ==> '?' !in pats[i] && '[' !in pats[i]
  }

  lemma {:induction false} JoinedAvoids(pats: seq<string>, c: char)
    requires c != '/' && forall i :: 0 <= i < |pats| ==> c !in pats[i]
    ensures c !in Joined(pats)
  {
    if pats == [] {
    } else {
      JoinedAvoids(pats[1..], c);
    }
  }

  /** A rendered pattern is absolute and star-only, and has a single leading slash. */
  lemma {:induction false} RenderedPattern(pats: seq<string>)
    requires AllNames(pats) && OnlyStars(pats)
    ensures StarOnly(Render(pats)) && !DoubleRoot(Render(pats)) && Segments(Render(pats)) == pats
  {
    RenderRoundTrip(pats);
    JoinedAvoids(pats, '?');
    JoinedAvoids(pats, '[');
    if pats != [] {
      assert Joined(pats)[1] == pats[0][0];
    }
  }

  /** Which paths an absolute star-only pattern matches: those with as many segments, each
      matching. */
  lemma {:induction false} PathMatchMeans(pats: seq<string>, names: seq<string>, other: (string, string) -> bool)
    requires AllNames(pats) && "." !in pats && OnlyStars(pats) && AllNames(names)
    ensures PathMatch(Render(pats), Render(names), other) <==> MatchesEach(pats, names)
  {
    RenderedPattern(pats);
    NothingDropped(pats);
    RenderRoundTrip(names);
    FullMatchIsEach(pats, names);
  }

  lemma {:induction false} DotDropped(a: seq<string>, b: seq<string>)
    ensures WithoutDots(a + ["."] + b) == WithoutDots(a + b)
  {
    var dot := ["."];
    WithoutDotsAppend(a + dot, b);
    WithoutDotsAppend(a, dot);
    WithoutDotsAppend(a, b);
    LoneDot();
    assert WithoutDots(a + dot) == WithoutDots(a);
  }

  lemma {:induction false} LoneDot()
    ensures WithoutDots(["."]) == []
  {
    AllDots(["."]);
  }

  lemma {:induction false} DottedPattern(a: seq<string>, b: seq<string>)
    requires AllNames(a + b) && OnlyStars(a + b)
    ensures AllNames(a + ["."] + b) && OnlyStars(a + ["."] + b)
  {
    var plain, dotted := a + b, a + ["."] + b;
    forall i | 0 <= i < |dotted| ensures IsName(dotted[i]) && '?' !in dotted[i] && '[' !in dotted[i] {
      if i < |a| {
        assert dotted[i] == plain[i];
      } else if i > |a| {
        assert dotted[i] == plain[i - 1];
      }
    }
  }

  /** A "." segment anywhere changes no match. */
  lemma {:induction false} DotChangesNothing(a: seq<string>, b: seq<string>, path: string,
                                             other: (string, string) -> bool)
    requires AllNames(a + b) && OnlyStars(a + b)
    ensures PathMatch(Render(a + ["."] + b), path, other) <==> PathMatch(Render(a + b), path, other)
  {
    DottedPattern(a, b);
    RenderedPattern(a + ["."] + b);
    RenderedPattern(a + b);
    DotDropped(a, b);
  }

  /** A pattern with exactly two leading slashes matches nothing. */
  lemma {:induction false} DoubleRootMatchesNothing(rest: string, path: string, other: (string, string) -> bool)
    requires (rest == "" || rest[0] != '/') && '?' !in rest && '[' !in rest
    ensures !PathMatch("//" + rest, path, other)
  {
    assert StarOnly("//" + rest) && DoubleRoot("//" + rest);
  }

  /** More slashes are one slash. */
  lemma {:induction false} TripleSlash(rest: string, path: string, other: (string, string) -> bool)
    requires (rest == "" || rest[0] != '/') && '?' !in rest && '[' !in rest
    ensures PathMatch("///" + rest, path, other) <==> PathMatch("/" + rest, path, other)
  {
    assert "///" + rest == "/" + ("/" + ("/" + rest));
    LeadingSlash("/" + ("/" + rest));
    LeadingSlash("/" + rest);
    assert !DoubleRoot("///" + rest) && !DoubleRoot("/" + rest);
    assert StarOnly("///" + rest) && StarOnly("/" + rest);
  }

  // ----- _filter_by_glob -----

  /** The keys the filter keeps: matches and their ancestors. */
  ghost predicate Kept(paths: set<string>, pattern: string, other: (string, string) -> bool, p: string)
  {
    p in paths && exists q :: q in paths && PathMatch(pattern, q, other) && (p == q || p in Parents(q))
  }

  ghost function FilteredKeys(paths: set<string>, pattern: string, other: (string, string) -> bool): set<string>
  {
    set p | p in paths && Kept(paths, pattern, other, p)
  }

  /** The outer loop: grow `keep` by every parent of every match. */
  method WithAncestors(matched: set<string>) returns (keep: set<string>)
    ensures forall p :: p in keep <==> p in matched || exists q :: q in matched && p in Parents(q)
  {
    keep := matched;
    var todo := matched;
    while todo != {}
      invariant todo <= matched
      invariant forall p :: p in keep <==> p in matched || exists q :: q in matched - todo && p in Parents(q)
      decreases |todo|
    {
      var q :| q in todo;
      keep := AddAll(keep, Parents(q));
      todo := todo - {q};
    }
  }

  /** The inner loop. */
  method AddAll(keep: set<string>, parents: seq<string>) returns (grown: set<string>)
    ensures forall p :: p in grown <==> p in keep || p in parents
  {
    grown := keep;
    for i := 0 to |parents|
      invariant forall p :: p in grown <==> p in keep || p in parents[..i]
    {
      grown := grown + {parents[i]};
      assert parents[..i + 1] == parents[..i] + [parents[i]];
    }
    assert parents[..|parents|] == parents;
  }

  method FilterByGlob<V>(tree: map<string, V>, pattern: string, other: (string, string) -> bool)
    returns (kept: map<string, V>)
    ensures kept.Keys == FilteredKeys(tree.Keys, pattern, other)
    ensures forall p | p in kept :: kept[p] == tree[p]
  {
    var matched := set p | p in tree && PathMatch(pattern, p, other);
    var keep := WithAncestors(matched);
    kept := map p | p in tree && p in keep :: tree[p];
    forall p | p in tree ensures p in keep <==> Kept(tree.Keys, pattern, other, p) {
      if q :| q in matched && p in Parents(q) {
        assert PathMatch(pattern, q, other);
      }
    }
  }

  ghost predicate AncestorClosed(paths: set<string>)
  {
    forall p, a | p in paths && a in Parents(p) :: a in paths
  }

  /** On an ancestor-closed tree the kept keys are ancestor-closed and contain every match,
      and nothing smaller is. */
  lemma {:induction false} FilterIsLeastClosedSet(paths: set<string>, pattern: string,
                                                  other: (string, string) -> bool, s: set<string>)
    requires AncestorClosed(paths) && forall p | p in paths :: Canonical(p)
    requires AncestorClosed(s) && forall p | p in paths && PathMatch(pattern, p, other) :: p in s
    ensures AncestorClosed(FilteredKeys(paths, pattern, other))
    ensures forall p | p in paths && PathMatch(pattern, p, other) :: p in FilteredKeys(paths, pattern, other)
    ensures FilteredKeys(paths, pattern, other) <= s
  {
    var r := FilteredKeys(paths, pattern, other);
    forall p, a | p in r && a in Parents(p) ensures a in r {
      var q :| q in paths && PathMatch(pattern, q, other) && (p == q || p in Parents(q));
      if p != q {
        ParentIsAncestor(p, q);
        ParentIsAncestor(a, p);
        AncestorIsParent(a, q);
      }
      assert Kept(paths, pattern, other, a);
    }
    forall p | p in paths && PathMatch(pattern, p, other) ensures p in r {
      assert Kept(paths, pattern, other, p);
    }
  }

  /** The keys the filter keeps, spelled out: a path stays if it or a path below it in the
      tree has as many segments as the pattern, each matching. */
  lemma {:induction false} FilterKeepsMeans(paths: set<string>, pats: seq<string>,
                                            other: (string, string) -> bool, p: string)
    requires AllNames(pats) && "." !in pats && OnlyStars(pats) && forall q | q in paths :: Canonical(q)
    ensures p in FilteredKeys(paths, Render(pats), other) <==>
            p in paths && exists q :: q in paths && AncestorOrSelf(p, q) && MatchesEach(pats, Segments(q))
  {
    var pattern := Render(pats);
    forall q | q in paths ensures PathMatch(pattern, q, other) <==> MatchesEach(pats, Segments(q)) {
      PathMatchMeans(pats, Segments(q), other);
    }
    if p in paths {
      forall q | q in paths ensures (p == q || p in Parents(q)) <==> AncestorOrSelf(p, q) {
        if p in Parents(q) {
          ParentIsAncestor(p, q);
        }
        if AncestorOrSelf(p, q) && p != q {
          AncestorIsParent(p, q);
        }
      }
    }
  }

  // ----- pruning before filtering -----

  /** What a walk given `pattern` visits, at least: the paths its predicate lets through. */
  ghost predicate CoversPruned(all: set<string>, walked: set<string>, pattern: string)
  {
    walked <= all && forall p | p in all && CouldMatch(Parse(pattern), p) :: p in walked
  }

  /** No "." segment comes before a proper one. */
  ghost predicate DotsOnlyTrail(segs: seq<string>)
  {
    forall i, j :: 0 <= i < j < |segs| && segs[i] == "." ==> segs[j] == "."
  }

  lemma {:induction false} TrailingDots(segs: seq<string>)
    requires DotsOnlyTrail(segs)
    ensures WithoutDots(segs) <= segs
  {
    if segs == [] {
    } else {
      TrailingDots(segs[1..]);
      if segs[0] == "." {
        AllDots(segs);
      } else {
        var rest := WithoutDots(segs[1..]);
        assert segs[1..][..|rest|] == rest;
        assert segs[..|rest| + 1] == [segs[0]] + segs[1..][..|rest|];
      }
    }
  }

  lemma {:induction false} AllDots(segs: seq<string>)
    requires forall i :: 0 <= i < |segs| ==> segs[i] == "."
    ensures WithoutDots(segs) == []
  {
    if segs == [] {
    } else {
      AllDots(segs[1..]);
    }
  }

  /** The patterns it is safe to prune the walk by: a leading "//" matches no group at
      all, and otherwise "." segments may only trail. */
  ghost predicate PruneSafe(pattern: string)
  {
    StarOnly(pattern) && !DoubleRoot(pattern) ==> DotsOnlyTrail(Segments(pattern))
  }

  /** A path the filter matches gets past the predicate. */
  lemma {:induction false} MatchSurvivesPruning(pattern: string, path: string, other: (string, string) -> bool)
    requires PruneSafe(pattern) && PathMatch(pattern, path, other)
    ensures CouldMatch(Parse(pattern), path)
  {
    ParseSegments(pattern);
    if StarOnly(pattern) {
      TrailingDots(Segments(pattern));
    }
  }

  /** Walking less loses nothing, for either walker: any set of paths between the pruned
      and the full one is filtered to the same keys. */
  lemma {:induction false} PruneThenFilter(all: set<string>, walked: set<string>, pattern: string,
                                           other: (string, string) -> bool)
    requires CoversPruned(all, walked, pattern) && PruneSafe(pattern)
    ensures FilteredKeys(walked, pattern, other) == FilteredKeys(all, pattern, other)
  {
    forall p | p in all && Kept(all, pattern, other, p) ensures Kept(walked, pattern, other, p) {
      var q :| q in all && PathMatch(pattern, q, other) && (p == q || p in Parents(q));
      MatchSurvivesPruning(pattern, q, other);
      if p != q {
        ParentIsAncestor(p, q);
        CouldMatchAntitone(Parse(pattern), p, q);
      }
    }
  }

  ghost function PathsIn(g: Group): set<string>
  {
    set p | p in PreOrder(g)
  }

  /** The paths of a hierarchy rooted at "/" are what the filter relies on: canonical and
      ancestor-closed. */
  lemma {:induction false} TreePathsAncestorClosed(g: Group)
    requires WellFormed(g) && g.path == "/"
    ensures AncestorClosed(PathsIn(g)) && forall p | p in PathsIn(g) :: Canonical(p)
  {
    RenderRoundTrip([]);
    forall p | p in PathsIn(g) ensures Canonical(p) {
      BelowRoot(g, p);
    }
    forall p, a | p in PathsIn(g) && a in Parents(p) ensures a in PathsIn(g) {
      ParentIsAncestor(a, p);
      TreeIsAncestorClosed(g, a, p);
    }
  }

  ghost predicate PruningIsInvisible(pattern: string, other: (string, string) -> bool, g: Group)
  {
    FilteredKeys(PathsIn(Prune(g, Some(Parse(pattern)))), pattern, other) == FilteredKeys(PathsIn(g), pattern, other)
  }

  /** Pruning is invisible on every hierarchy exactly for the safe patterns. */
  lemma {:induction false} PruningIsInvisibleIffSafe(pattern: string, other: (string, string) -> bool)
    ensures (forall g | WellFormed(g) && g.path == "/" :: PruningIsInvisible(pattern, other, g)) <==> PruneSafe(pattern)
  {
    if PruneSafe(pattern) {
      forall g | WellFormed(g) && g.path == "/" ensures PruningIsInvisible(pattern, other, g) {
        forall p | p in PreOrder(g) || p in PreOrder(Prune(g, Some(Parse(pattern))))
          ensures p in PreOrder(Prune(g, Some(Parse(pattern)))) <==>
                  p in PreOrder(g) && (p == g.path || CouldMatch(Parse(pattern), p))
        {
          PrunedPaths(g, Some(Parse(pattern)), p);
        }
        PruneThenFilter(PathsIn(g), PathsIn(Prune(g, Some(Parse(pattern)))), pattern, other);
      }
    } else {
      var g := LostMatch(pattern, other);
    }
  }

  // ----- the patterns pruning is not safe for -----

  /** A hierarchy with one group at each depth, named by `names`. */
  function Chain(above: seq<string>, names: seq<string>): (g: Group)
    ensures g.path == Render(above)
    decreases |names|
  {
    Group(Render(above), map[], [], if names == [] then [] else [Chain(above + [names[0]], names[1..])])
  }

  lemma {:induction false} OneDeeper(above: seq<string>, name: string)
    requires AllNames(above) && IsName(name) && name != "."
    ensures AllNames(above + [name]) && IsChildOf(Render(above), Render(above + [name]))
  {
    var next := above + [name];
    assert forall i :: 0 <= i < |next| ==> next[i] == if i < |above| then above[i] else name;
    RenderRoundTrip(above);
    RenderRoundTrip(next);
    assert IsChildPath(Render(above), Render(next), name);
  }

  lemma {:induction false} ChainWellFormed(above: seq<string>, names: seq<string>)
    requires AllNames(above) && AllNames(names) && "." !in names
    ensures WellFormed(Chain(above, names))
    decreases |names|
  {
    RenderRoundTrip(above);
    var g := Chain(above, names);
    if names == [] {
      LeafWellFormed(g);
    } else {
      OneDeeper(above, names[0]);
      ChainWellFormed(above + [names[0]], names[1..]);
      StemWellFormed(g, g.children[0]);
    }
  }

  lemma {:induction false} LeafWellFormed(g: Group)
    requires Canonical(g.path) && g.vars == [] && g.children == []
    ensures WellFormed(g)
  {}

  lemma {:induction false} StemWellFormed(g: Group, child: Group)
    requires Canonical(g.path) && g.vars == [] && g.children == [child]
    requires IsChildOf(g.path, child.path) && WellFormed(child)
    ensures WellFormed(g)
  {}

  lemma {:induction false} ChainReaches(above: seq<string>, names: seq<string>)
    ensures Render(above + names) in PreOrder(Chain(above, names))
    decreases |names|
  {
    if names == [] {
      assert above + names == above;
    } else {
      ChainReaches(above + [names[0]], names[1..]);
      assert above + [names[0]] + names[1..] == above + names;
      InPreOrderAll(Chain(above, names).children, Render(above + names));
    }
  }

  lemma {:induction false} OnlyDotMatchesDot(name: string)
    ensures FnMatch(".", name) ==> name == "."
  {
    if name != [] {
      assert "."[1..] == [];
      assert FnMatch(".", name) ==> FnMatch([], name[1..]);
    }
  }

  /** A proper path as long as the dot-free pattern gets past a pattern with dots only
      if they trail. */
  lemma {:induction false} DotsBlock(segs: seq<string>, names: seq<string>)
    requires |names| == |WithoutDots(segs)| && "." !in names && PrefixMatch(segs, names)
    ensures DotsOnlyTrail(segs)
  {
    if segs == [] {
    } else {
      if names != [] {
        assert names[0] in names && FnMatch(segs[0], names[0]);
        OnlyDotMatchesDot(names[0]);
      }
      if segs[0] == "." {
        NoDotsLeft(segs);
      } else {
        forall i | 0 <= i < |names[1..]| ensures FnMatch(segs[1..][i], names[1..][i]) {
          assert FnMatch(segs[i + 1], names[i + 1]);
        }
        DotsBlock(segs[1..], names[1..]);
        forall i, j | 0 <= i < j < |segs| && segs[i] == "." ensures segs[j] == "." {
          assert segs[1..][i - 1] == "." && segs[1..][j - 1] == segs[j];
        }
      }
    }
  }

  lemma {:induction false} NoDotsLeft(segs: seq<string>)
    ensures WithoutDots(segs) == [] ==> forall i :: 0 <= i < |segs| ==> segs[i] == "."
  {
    if segs == [] {
    } else {
      NoDotsLeft(segs[1..]);
    }
  }

  lemma {:induction false} InstanceIsProper(segment: string)
    requires segment != "."
    ensures Instance(segment) != "."
  {
    if |segment| == 1 {
      assert segment == [segment[0]];
      assert segment[0] != '.' && Instance(segment)[0] != '.';
    }
  }

  lemma {:induction false} MatchedButPruned(pattern: string,
                                            other: (string, string) -> bool) returns (names: seq<string>)
    requires !PruneSafe(pattern)
    ensures AllNames(names) && "." !in names
    ensures PathMatch(pattern, Render(names), other) && !CouldMatch(Parse(pattern), Render(names))
  {
    var segs := Segments(pattern);
    var proper := WithoutDots(segs);
    names := Instances(proper);
    forall i | 0 <= i < |proper| ensures names[i] != "." && FnMatch(proper[i], names[i]) {
      assert proper[i] in proper;
      InstanceIsProper(proper[i]);
      InstanceMatches(proper[i]);
    }
    RenderRoundTrip(names);
    ParseSegments(pattern);
    if PrefixMatch(segs, names) {
      DotsBlock(segs, names);
    }
  }

  /** For an unsafe pattern such as "/./foo" there is a hierarchy the pruned walk loses
      a match of. */
  lemma {:induction false} LostMatch(pattern: string, other: (string, string) -> bool) returns (g: Group)
    requires !PruneSafe(pattern)
    ensures WellFormed(g) && g.path == "/" && !PruningIsInvisible(pattern, other, g)
  {
    var names := MatchedButPruned(pattern, other);
    g := Chain([], names);
    ChainWellFormed([], names);
    ChainReaches([], names);
    assert [] + names == names;
    PrunedMatchIsLost(pattern, other, g, Render(names));
  }

  lemma {:induction false} DotThenName(pattern: string, name: string)
    requires IsName(name) && name != "." && pattern == "/" + ("." + "/" + name) && StarOnly(pattern)
    ensures Segments(pattern) == [".", name] && !PruneSafe(pattern)
  {
    LeadingSlash("." + "/" + name);
    SegmentsAt(".", name);
    SegmentsName(".");
    SegmentsName(name);
    var segs := Segments(pattern);
    assert segs[0] == "." && segs[1] == name;
  }

  /** "/./foo" is such a pattern: it matches a group the pruned walk never visits. */
  lemma {:induction false} DotPatternLosesMatch(other: (string, string) -> bool) returns (g: Group)
    ensures !PruneSafe("/./foo")
    ensures WellFormed(g) && g.path == "/" && !PruningIsInvisible("/./foo", other, g)
  {
    var name := "foo";
    DotThenName("/" + ("." + "/" + name), name);
    assert "/./foo" == "/" + ("." + "/" + name);
    g := LostMatch("/./foo", other);
  }

  lemma {:induction false} PrunedMatchIsLost(pattern: string, other: (string, string) -> bool, g: Group, p: string)
    requires WellFormed(g) && g.path == "/" && p in PreOrder(g)
    requires PathMatch(pattern, p, other) && !CouldMatch(Parse(pattern), p)
    ensures !PruningIsInvisible(pattern, other, g)
  {
    RootSurvives(Parse(pattern));
    PrunedPaths(g, Some(Parse(pattern)), p);
    var all, walked := PathsIn(g), PathsIn(Prune(g, Some(Parse(pattern))));
    assert p in all && p !in walked;
    assert Kept(all, pattern, other, p);
    assert p in FilteredKeys(all, pattern, other) && p !in FilteredKeys(walked, pattern, other);
  }

  lemma {:induction false} RootSurvives(glob: GlobPredicate)
    ensures CouldMatch(glob, "/")
  {
    RenderRoundTrip([]);
  }

  // ----- _reroot -----

  /** Where a path of `root`'s subtree ends up. */
  function Relative(root: string, path: string): string
    requires AncestorOrSelf(root, path)
  {
    Render(Segments(path)[|Segments(root)|..])
  }

  lemma {:induction false} SuffixNames(segs: seq<string>, n: nat)
    requires AllNames(segs) && n <= |segs|
    ensures AllNames(segs[n..])
  {}

  lemma {:induction false} PrefixIsSubtree(root: string, path: string)
    requires Canonical(root) && root + "/" <= path
    ensures AncestorOrSelf(root, path) && Segments(path)[|Segments(root)|..] == Segments(path[|root| + 1..])
  {
    var rest := path[|root| + 1..];
    assert path == root + "/" + rest;
    SegmentsAt(root, rest);
  }

  lemma {:induction false} SubtreeIsPrefix(root: string, path: string)
    requires Canonical(root) && root != "/" && Canonical(path) && AncestorOrSelf(root, path) && path != root
    ensures root + "/" <= path && "/" + path[|root| + 1..] == Relative(root, path)
  {
    var r, s := Segments(root), Segments(path);
    MutualAncestors(root, path);
    var t := s[|r|..];
    assert s == r + t && t != [];
    JoinedAppend(r, t);
    assert path == root + Joined(t);
    assert Joined(t) == "/" + (t[0] + Joined(t[1..]));
    assert path[|root| + 1..] == Joined(t)[1..];
  }

  /** The string tests pick out exactly the subtree: a sibling whose name merely starts
      with the root's is not captured. */
  lemma {:induction false} SubtreeTest(root: string, path: string)
    requires Canonical(root) && root != "/" && Canonical(path)
    ensures path == root || root + "/" <= path <==> AncestorOrSelf(root, path)
    ensures root + "/" <= path ==> path != root && "/" + path[|root| + 1..] == Relative(root, path)
    ensures AncestorOrSelf(root, root) && Relative(root, root) == "/"
  {
    if root + "/" <= path {
      PrefixIsSubtree(root, path);
    }
    if AncestorOrSelf(root, path) && path != root {
      SubtreeIsPrefix(root, path);
    }
    var r := Segments(root);
    assert r[|r|..] == [];
  }

  /** Re-rooting yields canonical paths and is injective on the subtree. */
  lemma {:induction false} RelativeInjective(root: string, p: string, q: string)
    requires Canonical(p) && Canonical(q) && AncestorOrSelf(root, p) && AncestorOrSelf(root, q)
    ensures Canonical(Relative(root, p))
    ensures Relative(root, p) == Relative(root, q) ==> p == q
  {
    var r, sp, sq := Segments(root), Segments(p), Segments(q);
    SuffixNames(sp, |r|);
    SuffixNames(sq, |r|);
    RenderRoundTrip(sp[|r|..]);
    RenderRoundTrip(sq[|r|..]);
    assert sp == r + sp[|r|..] && sq == r + sq[|r|..];
  }

  lemma {:induction false} DropFrontThenLast(r: seq<string>, s: seq<string>)
    requires r <= s && r != s
    ensures r <= s[..|s| - 1]
    ensures s[..|s| - 1][|r|..] == s[|r|..][..|s| - |r| - 1]
  {}

  lemma {:induction false} ParentOfProper(p: string)
    requires Canonical(p) && Segments(p) != []
    ensures Segments(ParentOf(p)) == Segments(p)[..|Segments(p)| - 1]
  {
    RenderRoundTrip([]);
    ParentSegments(p);
  }

  lemma {:induction false} ParentBelow(root: string, p: string)
    requires Canonical(root) && Canonical(p) && AncestorOrSelf(root, p) && p != root
    ensures AncestorOrSelf(root, ParentOf(p)) && |Segments(root)| < |Segments(p)|
    ensures var below := Segments(p)[|Segments(root)|..];
            AllNames(below) && Segments(ParentOf(p))[|Segments(root)|..] == below[..|below| - 1]
  {
    MutualAncestors(root, p);
    ParentOfProper(p);
    DropFrontThenLast(Segments(root), Segments(p));
    SuffixNames(Segments(p), |Segments(root)|);
  }

  /** It keeps the parent relation. */
  lemma {:induction false} RelativeKeepsParents(root: string, p: string)
    requires Canonical(root) && Canonical(p) && AncestorOrSelf(root, p) && p != root
    ensures AncestorOrSelf(root, ParentOf(p)) && Relative(root, ParentOf(p)) == ParentOf(Relative(root, p))
  {
    ParentBelow(root, p);
    ParentOfDropsLast(Segments(p)[|Segments(root)|..]);
  }

  ghost predicate AllCanonical(paths: set<string>)
  {
    forall p | p in paths :: Canonical(p)
  }

  ghost predicate SubtreeCarried<V>(groups: map<string, V>, root: string, done: set<string>, out: map<string, V>)
  {
    forall p | p in done && p in groups && AncestorOrSelf(root, p) ::
      Relative(root, p) in out && out[Relative(root, p)] == groups[p]
  }

  ghost predicate NothingElse<V>(groups: map<string, V>, root: string, done: set<string>, out: map<string, V>)
  {
    forall k | k in out :: exists p :: p in done && p in groups && AncestorOrSelf(root, p) && k == Relative(root, p)
  }

  /** `out` is what re-rooting makes of the groups in `done`. */
  ghost predicate Rerooted<V>(groups: map<string, V>, root: string, done: set<string>, out: map<string, V>)
  {
    SubtreeCarried(groups, root, done, out) && NothingElse(groups, root, done, out)
  }

  lemma {:induction false} RerootedSkip<V>(groups: map<string, V>, root: string, done: set<string>,
                                           out: map<string, V>, path: string)
    requires Rerooted(groups, root, done, out) && !AncestorOrSelf(root, path)
    ensures Rerooted(groups, root, done + {path}, out)
  {}

  lemma {:induction false} CarryOneMore<V>(groups: map<string, V>, root: string, done: set<string>,
                                           out: map<string, V>, path: string)
    requires SubtreeCarried(groups, root, done, out) && path in groups && AncestorOrSelf(root, path)
    requires AllCanonical(groups.Keys)
    ensures SubtreeCarried(groups, root, done + {path}, out[Relative(root, path) := groups[path]])
  {
    forall p | p in done + {path} && p in groups && AncestorOrSelf(root, p)
      ensures var out' := out[Relative(root, path) := groups[path]];
              Relative(root, p) in out' && out'[Relative(root, p)] == groups[p]
    {
      RelativeInjective(root, p, path);
    }
  }

  lemma {:induction false} NothingElseYet<V>(groups: map<string, V>, root: string, done: set<string>,
                                             out: map<string, V>, path: string)
    requires NothingElse(groups, root, done, out) && path in groups && AncestorOrSelf(root, path)
    ensures NothingElse(groups, root, done + {path}, out[Relative(root, path) := groups[path]])
  {}

  lemma {:induction false} RerootedAdd<V>(groups: map<string, V>, root: string, done: set<string>,
                                          out: map<string, V>, path: string)
    requires Rerooted(groups, root, done, out) && path in groups && AncestorOrSelf(root, path)
    requires AllCanonical(groups.Keys)
    ensures Rerooted(groups, root, done + {path}, out[Relative(root, path) := groups[path]])
  {
    CarryOneMore(groups, root, done, out, path);
    NothingElseYet(groups, root, done, out, path);
  }

  lemma {:induction false} NothingRerooted<V>(groups: map<string, V>, root: string)
    ensures Rerooted(groups, root, {}, map[])
  {}

  /** The tests on one key: its relative path, if it is in the subtree. */
  method RelativeKey(root: string, path: string) returns (key: Option<string>)
    requires Canonical(root) && root != "/" && Canonical(path)
    ensures key.Some? <==> AncestorOrSelf(root, path)
    ensures key.Some? ==> key.value == Relative(root, path)
  {
    SubtreeTest(root, path);
    var prefix := root + "/";
    if path == root {
      return Some("/");
    } else if prefix <= path {
      return Some("/" + path[|prefix|..]);
    }
    return None;
  }

  /** The loop body: one entry of the dict. */
  method RerootOne<V>(groups: map<string, V>, root: string, path: string,
                      out: map<string, V>, ghost done: set<string>)
    returns (out': map<string, V>)
    requires Canonical(root) && root != "/" && path in groups && AllCanonical(groups.Keys)
    requires Rerooted(groups, root, done, out)
    ensures Rerooted(groups, root, done + {path}, out')
  {
    assert Canonical(path);
    var key := RelativeKey(root, path);
    if key.Some? {
      RerootedAdd(groups, root, done, out, path);
      out' := out[key.value := groups[path]];
    } else {
      RerootedSkip(groups, root, done, out, path);
      out' := out;
    }
  }

  lemma {:induction false} MoveOver(done: set<string>, todo: set<string>, path: string)
    requires path in todo
    ensures (done + {path}) + (todo - {path}) == done + todo
  {}

  /** The loop, for a root without trailing slashes. */
  method RerootAll<V>(groups: map<string, V>, base: string) returns (out: map<string, V>)
    requires Canonical(base) && base != "/" && AllCanonical(groups.Keys)
    ensures Rerooted(groups, base, groups.Keys, out)
  {
    out := map[];
    var todo := groups.Keys;
    ghost var done: set<string> := {};
    NothingRerooted(groups, base);
    while todo != {}
      invariant done + todo == groups.Keys
      invariant Rerooted(groups, base, done, out)
      decreases |todo|
    {
      var path :| path in todo;
      out := RerootOne(groups, base, path, out, done);
      MoveOver(done, todo, path);
      todo, done := todo - {path}, done + {path};
    }
  }

  /** The re-rooted dict is exactly the subtree, under its relative paths. */
  method Reroot<V>(groups: map<string, V>, root: string) returns (out: map<string, V>)
    requires Canonical(root) && root != "/" && AllCanonical(groups.Keys)
    ensures Rerooted(groups, root, groups.Keys, out)
  {
    TrimEndCanonical(root);
    out := RerootAll(groups, TrimEnd(root, '/'));
  }
}
