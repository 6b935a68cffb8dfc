/** The glob matcher and the conservative prune predicate (src/glob.rs). */
module Glob {
  import opened Paths
  import opened Wrappers

  // ----- what a star pattern means -----

  /** `fnmatch` for patterns whose only wildcard is `*`: any run of characters. */
  predicate FnMatch(pattern: string, name: string)
    decreases |pattern| + |name|
  {
    if pattern == [] then name == []
    else if pattern[0] == '*' then
      FnMatch(pattern[1..], name) || (name != [] && FnMatch(pattern, name[1..]))
    else name != [] && name[0] == pattern[0] && FnMatch(pattern[1..], name[1..])
  }

  /** p0 · w0 · p1 · w1 ⋯ pk: the pieces of a pattern with something put in each gap. */
  function Interleave(pieces: seq<string>, wilds: seq<string>): string
    requires |pieces| == |wilds| + 1
  {
    if wilds == [] then pieces[0] else pieces[0] + wilds[0] + Interleave(pieces[1..], wilds[1..])
  }

  predicate Occurs(piece: string, s: string, i: nat)
  {
    i + |piece| <= |s| && s[i..i + |piece|] == piece
  }

  /** From position `from` on, `s` is gap · p1 · gap · p2 ⋯ gap · pk. */
  ghost predicate Gaps(pieces: seq<string>, s: string, from: nat)
    decreases |pieces|, 1
  {
    if pieces == [] then from == |s|
    else exists i: nat :: from <= i && PieceAt(pieces, s, i)
  }

  /** The first piece sits at `i` and the others fit after it. */
  ghost predicate PieceAt(pieces: seq<string>, s: string, i: nat)
    requires pieces != []
    decreases |pieces|, 0
  {
    Occurs(pieces[0], s, i) && Gaps(pieces[1..], s, i + |pieces[0]|)
  }

  lemma {:induction false} GapsElim(pieces: seq<string>, s: string, from: nat) returns (i: nat)
    requires pieces != [] && Gaps(pieces, s, from)
    ensures from <= i && PieceAt(pieces, s, i)
  {
    i :| from <= i && PieceAt(pieces, s, i);
  }

  lemma {:induction false} FnMatchLiteral(literal: string, rest: string, name: string)
    requires '*' !in literal
    ensures FnMatch(literal + rest, name) <==> literal <= name && FnMatch(rest, name[|literal|..])
  {
    if literal == [] {
      assert literal + rest == rest;
    } else {
      assert (literal + rest)[1..] == literal[1..] + rest;
      if name != [] && name[0] == literal[0] {
        FnMatchLiteral(literal[1..], rest, name[1..]);
        assert literal == [literal[0]] + literal[1..] && name == [name[0]] + name[1..];
      }
    }
  }

  /** A star absorbs some prefix of the name. */
  lemma {:induction false} FnMatchStar(rest: string, name: string)
    ensures FnMatch("*" + rest, name) <==> exists i: nat :: i <= |name| && FnMatch(rest, name[i..])
    decreases |name|
  {
    var pattern := "*" + rest;
    assert pattern[1..] == rest && name[0..] == name;
    if name != [] {
      FnMatchStar(rest, name[1..]);
      if i: nat :| i <= |name[1..]| && FnMatch(rest, name[1..][i..]) {
        assert name[1..][i..] == name[i + 1..];
      }
      if i: nat :| i <= |name| && FnMatch(rest, name[i..]) {
        if i > 0 {
          assert name[i..] == name[1..][i - 1..];
        }
      }
    }
  }

  /** Matching piecewise is `fnmatch`. */
  lemma {:induction false} PiecesAreFnMatch(pattern: string, name: string, from: nat)
    requires from <= |name|
    ensures PieceAt(Split(pattern, '*'), name, from) <==> FnMatch(pattern, name[from..])
    decreases |pattern|, 0
  {
    var pieces, s := Split(pattern, '*'), name[from..];
    var n := |pieces[0]|;
    FirstPiece(pattern);
    OccursAsPrefix(pieces[0], name, from);
    if |pieces| == 1 {
      assert pieces[0] + [] == pattern;
      FnMatchLiteral(pieces[0], [], s);
    } else {
      var rest := pattern[n + 1..];
      assert pattern == pieces[0] + ("*" + rest);
      FnMatchLiteral(pieces[0], "*" + rest, s);
      if pieces[0] <= s {
        StarThenPieces(rest, name, from + n);
      }
    }
  }

  lemma {:induction false} StarThenPieces(rest: string, name: string, from: nat)
    requires from <= |name|
    ensures Gaps(Split(rest, '*'), name, from) <==> FnMatch("*" + rest, name[from..])
    decreases |rest|, 1
  {
    var pieces, s := Split(rest, '*'), name[from..];
    FnMatchStar(rest, s);
    if Gaps(pieces, name, from) {
      var i := GapsElim(pieces, name, from);
      PiecesAreFnMatch(rest, name, i);
      assert s[i - from..] == name[i..];
    }
    if i: nat :| i <= |s| && FnMatch(rest, s[i..]) {
      PiecesAreFnMatch(rest, name, from + i);
      assert s[i..] == name[from + i..];
    }
  }

  lemma {:induction false} FirstPiece(pattern: string)
    ensures var pieces := Split(pattern, '*');
            if |pieces| == 1 then pattern == pieces[0]
            else && |pieces[0]| < |pattern| && pattern == pieces[0] + "*" + pattern[|pieces[0]| + 1..]
                 && pieces[1..] == Split(pattern[|pieces[0]| + 1..], '*')
  {
    if pattern != [] && pattern[0] != '*' {
      FirstPiece(pattern[1..]);
      assert pattern == [pattern[0]] + pattern[1..];
    }
  }

  lemma {:induction false} OccursAsPrefix(piece: string, s: string, i: nat)
    requires i <= |s|
    ensures piece <= s[i..] <==> Occurs(piece, s, i)
    ensures Occurs(piece, s, i) ==> s[i..][|piece|..] == s[i + |piece|..]
  {
    var n := if i + |piece| <= |s| then i + |piece| else i;
    assert s[i..][..n - i] == s[i..n];
  }

  lemma {:induction false} CutGivesMatch(pieces: seq<string>, wilds: seq<string>, before: string)
    requires |pieces| == |wilds| + 1
    ensures PieceAt(pieces, before + Interleave(pieces, wilds), |before|)
    decreases |wilds|
  {
    var name := before + Interleave(pieces, wilds);
    if wilds != [] {
      var next := before + pieces[0] + wilds[0];
      CutGivesMatch(pieces[1..], wilds[1..], next);
      assert name == next + Interleave(pieces[1..], wilds[1..]);
    }
  }

  lemma {:induction false} MatchGivesCut(pieces: seq<string>, name: string, from: nat) returns (wilds: seq<string>)
    requires pieces != [] && PieceAt(pieces, name, from)
    ensures |pieces| == |wilds| + 1 && from <= |name| && Interleave(pieces, wilds) == name[from..]
    decreases |pieces|
  {
    var after := from + |pieces[0]|;
    if |pieces| == 1 {
      wilds := [];
    } else {
      var i := GapsElim(pieces[1..], name, after);
      var rest := MatchGivesCut(pieces[1..], name, i);
      var wild := name[after..i];
      InterleaveStep(pieces, wild, rest);
      assert wild + name[i..] == name[after..] && pieces[0] + name[after..] == name[from..];
      wilds := [wild] + rest;
    }
  }

  lemma {:induction false} InterleaveStep(pieces: seq<string>, wild: string, rest: seq<string>)
    requires |pieces| == |rest| + 2
    ensures Interleave(pieces, [wild] + rest) == pieces[0] + (wild + Interleave(pieces[1..], rest))
  {
    assert ([wild] + rest)[1..] == rest;
  }

  /** So is having a cut p0 · w0 · p1 ⋯ pk of the whole name. */
  lemma {:induction false} FnMatchIsACut(pattern: string, name: string)
    ensures var pieces := Split(pattern, '*');
            FnMatch(pattern, name) <==>
            exists wilds: seq<string> :: |wilds| + 1 == |pieces| && Interleave(pieces, wilds) == name
  {
    var pieces := Split(pattern, '*');
    PiecesAreFnMatch(pattern, name, 0);
    assert name[0..] == name;
    if FnMatch(pattern, name) {
      var wilds := MatchGivesCut(pieces, name, 0);
    }
    if wilds: seq<string> :| |wilds| + 1 == |pieces| && Interleave(pieces, wilds) == name {
      CutGivesMatch(pieces, wilds, "");
      assert "" + name == name;
    }
  }

  // ----- star_match -----

  /** Leftmost occurrence (`str::find`). */
  function Find(s: string, piece: string): (r: Option<nat>)
    ensures r.Some? ==> Occurs(piece, s, r.value) && forall i: nat :: i < r.value ==> !Occurs(piece, s, i)
    ensures r.None? ==> forall i: nat :: !Occurs(piece, s, i)
  {
    FindFrom(s, piece, 0)
  }

  function FindFrom(s: string, piece: string, from: nat): (r: Option<nat>)
    requires forall i: nat :: i < from ==> !Occurs(piece, s, i)
    ensures r.Some? ==> Occurs(piece, s, r.value) && forall i: nat :: i < r.value ==> !Occurs(piece, s, i)
    ensures r.None? ==> forall i: nat :: !Occurs(piece, s, i)
    decreases |s| - from
  {
    if Occurs(piece, s, from) then Some(from)
    else if from >= |s| then None
    else FindFrom(s, piece, from + 1)
  }

  predicate EndsWith(s: string, suffix: string)
  {
    |suffix| <= |s| && s[|s| - |suffix|..] == suffix
  }

  /** The last piece ends the string, after `from`. */
  lemma {:induction false} GapsEnd(pieces: seq<string>, s: string, from: nat)
    requires pieces != [] && Gaps(pieces, s, from)
    ensures from + |pieces[|pieces| - 1]| <= |s| && EndsWith(s, pieces[|pieces| - 1])
    decreases |pieces|
  {
    var i := GapsElim(pieces, s, from);
    if |pieces| > 1 {
      GapsEnd(pieces[1..], s, i + |pieces[0]|);
    } else {
      assert pieces[1..] == [] && s[i..] == s[i..|s|];
    }
  }

  lemma {:induction false} OccursInWindow(piece: string, s: string, lo: nat, hi: nat, i: nat)
    requires lo <= hi <= |s|
    ensures Occurs(piece, s[lo..hi], i) <==> Occurs(piece, s, lo + i) && lo + i + |piece| <= hi
  {
    var n := |piece|;
    if lo + i + n <= hi {
      var a, b := s[lo..hi][i..i + n], s[lo + i..lo + i + n];
      assert forall k :: 0 <= k < n ==> a[k] == b[k];
      assert a == b;
    }
  }

  /** Starting further left never loses a match: the first gap absorbs the difference. */
  lemma {:induction false} GapsWiden(pieces: seq<string>, s: string, from: nat, earlier: nat)
    requires pieces != [] && earlier <= from && Gaps(pieces, s, from)
    ensures Gaps(pieces, s, earlier)
  {
    var i := GapsElim(pieces, s, from);
  }

  /** Greedy placement loses nothing: if the pieces fit at all, they still fit after the
      next one is put at its leftmost place in the window before the reserved suffix. */
  lemma {:induction false} GreedyPlacement(pieces: seq<string>, s: string, cursor: nat, stop: nat)
    requires |pieces| > 1 && cursor <= stop <= |s| && |pieces[|pieces| - 1]| == |s| - stop
    ensures match Find(s[cursor..stop], pieces[0])
            case None => !Gaps(pieces, s, cursor)
            case Some(i) =>
              var next := cursor + i + |pieces[0]|;
              next <= stop && (Gaps(pieces, s, cursor) <==> Gaps(pieces[1..], s, next))
  {
    var n := |pieces[0]|;
    var found := Find(s[cursor..stop], pieces[0]);
    if Gaps(pieces, s, cursor) {
      var i := GapsElim(pieces, s, cursor);
      GapsEnd(pieces[1..], s, i + n);
      OccursInWindow(pieces[0], s, cursor, stop, i - cursor);
      GapsWiden(pieces[1..], s, i + n, cursor + found.value + n);
    }
    if found.Some? {
      OccursInWindow(pieces[0], s, cursor, stop, found.value);
      if Gaps(pieces[1..], s, cursor + found.value + n) {
        assert PieceAt(pieces, s, cursor + found.value);
      }
    }
  }

  /** The cursor loop over the middle pieces, between the fixed prefix and suffix. */
  method PlaceMiddlePieces(parts: seq<string>, name: string, stop: nat) returns (b: bool)
    requires |parts| > 1 && |parts[0]| <= stop <= |name| && name[stop..] == parts[|parts| - 1]
    ensures b <==> Gaps(parts[1..], name, |parts[0]|)
  {
    var cursor: nat := |parts[0]|;
    for k := 1 to |parts| - 1
      // The source's guard `cursor > stop` therefore never fires.
      invariant 0 <= cursor <= stop
      invariant Gaps(parts[1..], name, |parts[0]|) <==> Gaps(parts[k..], name, cursor)
    {
      GreedyPlacement(parts[k..], name, cursor, stop);
      assert parts[k..][1..] == parts[k + 1..];
      match Find(name[cursor..stop], parts[k]) {
        case Some(idx) => cursor := cursor + idx + |parts[k]|;
        case None => return false;
      }
    }
    assert parts[|parts| - 1..] == [parts[|parts| - 1]];
    LastPieceFits(parts[|parts| - 1], name, cursor);
    return true;
  }

  lemma {:induction false} LastPieceFits(piece: string, s: string, from: nat)
    requires EndsWith(s, piece) && from + |piece| <= |s|
    ensures Gaps([piece], s, from)
  {
    var i: nat := |s| - |piece|;
    assert [piece][1..] == [];
    assert PieceAt([piece], s, i);
  }

  /** The greedy matcher decides exactly the `fnmatch` relation. */
  method StarMatch(pattern: string, name: string) returns (b: bool)
    ensures b <==> FnMatch(pattern, name)
  {
    var parts := Split(pattern, '*');
    PiecesAreFnMatch(pattern, name, 0);
    OccursAsPrefix(parts[0], name, 0);
    assert name[0..] == name;
    if |parts| == 1 {
      return parts[0] == name;
    }
    var last := parts[|parts| - 1];
    if !(parts[0] <= name) {
      return false;
    }
    if Gaps(parts[1..], name, |parts[0]|) {
      GapsEnd(parts[1..], name, |parts[0]|);
    }
    if !EndsWith(name, last) {
      return false;
    }
    if |parts[0]| + |last| > |name| {
      return false;
    }
    b := PlaceMiddlePieces(parts, name, |name| - |last|);
  }

  // ----- the prune predicate -----

  /** Per-segment patterns, or `None` when nothing can be pruned safely. */
  datatype GlobPredicate = GlobPredicate(segments: Option<seq<string>>)

  /** Absolute patterns whose only wildcard is `*`: the ones the walk prunes by. */
  predicate StarOnly(pattern: string)
  {
    pattern != [] && pattern[0] == '/' && '?' !in pattern && '[' !in pattern
  }

  function Parse(pattern: string): (p: GlobPredicate)
    ensures p.segments.Some? ==> AllNames(p.segments.value)
  {
    if pattern == [] || pattern[0] != '/' then GlobPredicate(None)
    else if '?' in pattern || '[' in pattern then GlobPredicate(None)
    else GlobPredicate(Some(Segments(TrimEnd(TrimStart(pattern, '/'), '/'))))
  }

  /** Trimming is redundant: empty pieces are filtered out anyway. */
  lemma {:induction false} ParseSegments(pattern: string)
    ensures Parse(pattern).segments.Some? ==> Parse(pattern).segments.value == Segments(pattern)
  {
    TrimStartKeepsSegments(pattern);
    TrimEndKeepsSegments(TrimStart(pattern, '/'));
  }

  /** Exactly the absolute star-only patterns are pruned by. */
  lemma {:induction false} ParsedIffStarOnly(pattern: string)
    ensures Parse(pattern).segments.Some? <==>
            pattern != "" && pattern[0] == '/' && '?' !in pattern && '[' !in pattern
    ensures Parse(pattern).segments == if StarOnly(pattern) then Some(Segments(pattern)) else None
  {
    ParseSegments(pattern);
  }

  /** Segment by segment, the whole path matches the whole pattern. */
  predicate FullMatch(pattern: seq<string>, segs: seq<string>)
  {
    |segs| == |pattern| && PrefixMatch(pattern, segs)
  }

  predicate PrefixMatch(pattern: seq<string>, segs: seq<string>)
  {
    |segs| <= |pattern| && forall i :: 0 <= i < |segs| ==> FnMatch(pattern[i], segs[i])
  }

  predicate CouldMatch(glob: GlobPredicate, path: string)
  {
    glob.segments.Some? ==> PrefixMatch(glob.segments.value, Segments(path))
  }

  /** The zip loop: early return on the first segment that does not match. */
  method MatchPrefix(pattern: seq<string>, segs: seq<string>) returns (b: bool)
    requires |segs| <= |pattern|
    ensures b <==> PrefixMatch(pattern, segs)
  {
    for i := 0 to |segs|
      invariant forall k :: 0 <= k < i ==> FnMatch(pattern[k], segs[k])
    {
      var matches := StarMatch(pattern[i], segs[i]);
      if !matches {
        return false;
      }
    }
    return true;
  }

  /** `could_descendant_match`. */
  method CouldDescendantMatch(glob: GlobPredicate, path: string) returns (b: bool)
    ensures b <==> CouldMatch(glob, path)
  {
    if glob.segments.None? {
      return true;
    }
    TrimStartKeepsSegments(path);
    var pathSegs := Segments(TrimStart(path, '/'));
    if |pathSegs| > |glob.segments.value| {
      return false;
    }
    b := MatchPrefix(glob.segments.value, pathSegs);
  }

  /** Some name each pattern segment matches: put an `a` for every star. */
  function Instance(segment: string): (name: string)
    ensures |name| == |segment|
    ensures forall i :: 0 <= i < |name| ==> name[i] == if segment[i] == '*' then 'a' else segment[i]
    ensures IsName(segment) ==> IsName(name)
  {
    seq(|segment|, i requires 0 <= i < |segment| => if segment[i] == '*' then 'a' else segment[i])
  }

  lemma {:induction false} InstanceMatches(segment: string)
    ensures FnMatch(segment, Instance(segment))
  {
    if segment == [] {
    } else {
      InstanceMatches(segment[1..]);
      var name := Instance(segment);
      assert name[1..] == Instance(segment[1..]);
      if segment[0] == '*' {
        assert FnMatch(segment, name[1..]);
      }
    }
  }

  function Instances(segments: seq<string>): (names: seq<string>)
    ensures |names| == |segments| && forall i :: 0 <= i < |names| ==> names[i] == Instance(segments[i])
    ensures AllNames(segments) ==> AllNames(names)
  {
    seq(|segments|, i requires 0 <= i < |segments| => Instance(segments[i]))
  }

  /** The predicate is exact: it holds of a path if and only if the path or some
      extension of it by further names matches the whole pattern. */
  lemma {:induction false} CouldMatchIsExact(pattern: seq<string>, segs: seq<string>)
    requires AllNames(pattern)
    ensures PrefixMatch(pattern, segs) <==>
            exists more: seq<string> :: AllNames(more) && FullMatch(pattern, segs + more)
  {
    if PrefixMatch(pattern, segs) {
      var more := Instances(pattern[|segs|..]);
      forall i | 0 <= i < |pattern| ensures FnMatch(pattern[i], (segs + more)[i]) {
        InstanceMatches(pattern[i]);
      }
      assert FullMatch(pattern, segs + more);
    }
    if more: seq<string> :| AllNames(more) && FullMatch(pattern, segs + more) {
      forall i | 0 <= i < |segs| ensures FnMatch(pattern[i], segs[i]) {
        assert (segs + more)[i] == segs[i];
      }
    }
  }

  /** In terms of patterns and paths: for a star-only pattern the predicate holds exactly
      if names can be appended to the path so that it has as many segments as the pattern
      and each matches; for any other pattern it always holds. */
  lemma {:induction false} CouldMatchMeans(pattern: string, path: string)
    ensures StarOnly(pattern) ==>
              var segs, pats := Segments(path), Segments(pattern);
              CouldMatch(Parse(pattern), path) <==>
              exists more: seq<string> ::
                && AllNames(more) && |segs + more| == |pats|
                && forall i :: 0 <= i < |pats| ==> FnMatch(pats[i], (segs + more)[i])
    ensures !StarOnly(pattern) ==> CouldMatch(Parse(pattern), path)
  {
    ParsedIffStarOnly(pattern);
    if StarOnly(pattern) {
      CouldMatchIsExact(Segments(pattern), Segments(path));
      var segs, pats := Segments(path), Segments(pattern);
      forall more: seq<string>
        ensures FullMatch(pats, segs + more) <==>
                |segs + more| == |pats| && forall i :: 0 <= i < |pats| ==> FnMatch(pats[i], (segs + more)[i])
      {}
    }
  }

  /** Hence it can only turn from true to false on the way down. */
  lemma {:induction false} CouldMatchAntitone(glob: GlobPredicate, ancestor: string, path: string)
    requires AncestorOrSelf(ancestor, path) && CouldMatch(glob, path)
    ensures CouldMatch(glob, ancestor)
  {
    if glob.segments.Some? {
      var a, p := Segments(ancestor), Segments(path);
      assert forall i :: 0 <= i < |a| ==> a[i] == p[i];
    }
  }
}
