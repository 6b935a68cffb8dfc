/** Absolute group paths as strings, and the segment lists they stand for. */
module Paths {
  import opened Wrappers

  /** Rust's `str::split` on one character: one more piece than there are separators. */
  function Split(s: string, sep: char): (pieces: seq<string>)
    ensures |pieces| > 0
    ensures forall i :: 0 <= i < |pieces| ==> sep !in pieces[i]
  {
    if s == [] then [""]
    else
      var rest := Split(s[1..], sep);
      if s[0] == sep then [""] + rest else [[s[0]] + rest[0]] + rest[1..]
  }

  function Join(pieces: seq<string>, sep: char): string
    requires |pieces| > 0
  {
    if |pieces| == 1 then pieces[0] else pieces[0] + [sep] + Join(pieces[1..], sep)
  }

  /** Joining the pieces again gives the string back. */
  lemma {:induction false} SplitJoins(s: string, sep: char)
    ensures Join(Split(s, sep), sep) == s
  {
    if s == [] {
    } else {
      SplitJoins(s[1..], sep);
      var rest := Split(s[1..], sep);
      assert Split(s, sep)[1..] == if s[0] == sep then rest else rest[1..];
      assert s == [s[0]] + s[1..];
    }
  }

  function NonEmpty(pieces: seq<string>): (r: seq<string>)
    ensures forall i :: 0 <= i < |r| ==> r[i] != "" && r[i] in pieces
  {
    if pieces == [] then []
    else (if pieces[0] == "" then [] else [pieces[0]]) + NonEmpty(pieces[1..])
  }

  /** A non-empty name without a slash. */
  predicate IsName(s: string)
  {
    s != "" && '/' !in s
  }

  predicate AllNames(segs: seq<string>)
  {
    forall i :: 0 <= i < |segs| ==> IsName(segs[i])
  }

  /** The slash-separated segments of a path, runs of slashes collapsed. */
  function Segments(path: string): (segs: seq<string>)
    ensures AllNames(segs)
  {
    NonEmpty(Split(path, '/'))
  }

  function Joined(segs: seq<string>): string
  {
    if segs == [] then "" else "/" + segs[0] + Joined(segs[1..])
  }

  /** The canonical spelling: "/" for the root, "/a/b" otherwise. */
  function Render(segs: seq<string>): string
  {
    if segs == [] then "/" else Joined(segs)
  }

  /** Spelled the way PurePosixPath, zarrs and icechunk spell absolute paths. */
  predicate Canonical(path: string)
  {
    path == Render(Segments(path))
  }

  lemma {:induction false} NonEmptyAppend(a: seq<string>, b: seq<string>)
    ensures NonEmpty(a + b) == NonEmpty(a) + NonEmpty(b)
  {
    if a == [] {
      assert a + b == b;
    } else {
      assert (a + b)[1..] == a[1..] + b;
      NonEmptyAppend(a[1..], b);
    }
  }

  lemma {:induction false} ConsOntoFirst(c: char, xs: seq<string>, ys: seq<string>)
    requires |xs| > 0
    ensures [""] + (xs + ys) == [""] + xs + ys
    ensures [[c] + (xs + ys)[0]] + (xs + ys)[1..] == [[c] + xs[0]] + xs[1..] + ys
  {}

  /** Splitting at a separator in the middle splits both sides. */
  lemma {:induction false} SplitAt(a: string, sep: char, b: string)
    ensures Split(a + [sep] + b, sep) == Split(a, sep) + Split(b, sep)
  {
    if a == [] {
      assert a + [sep] + b == [sep] + b;
      assert ([sep] + b)[1..] == b;
    } else {
      assert (a + [sep] + b)[1..] == a[1..] + [sep] + b;
      SplitAt(a[1..], sep, b);
      ConsOntoFirst(a[0], Split(a[1..], sep), Split(b, sep));
    }
  }

  lemma {:induction false} SplitAtom(a: string, sep: char)
    requires sep !in a
    ensures Split(a, sep) == [a]
  {
    if a == [] {
    } else {
      SplitAtom(a[1..], sep);
      assert a == [a[0]] + a[1..];
    }
  }

  lemma {:induction false} SegmentsAt(a: string, b: string)
    ensures Segments(a + "/" + b) == Segments(a) + Segments(b)
  {
    SplitAt(a, '/', b);
    NonEmptyAppend(Split(a, '/'), Split(b, '/'));
  }

  lemma {:induction false} SegmentsName(a: string)
    requires IsName(a)
    ensures Segments(a) == [a]
  {
    SplitAtom(a, '/');
    var one := [a];
    assert one[1..] == [] && NonEmpty(one) == [a] + NonEmpty(one[1..]);
  }

  lemma {:induction false} NoSegments()
    ensures Segments("") == []
  {
    var one := [""];
    assert one[1..] == [] && NonEmpty(one) == NonEmpty(one[1..]);
    assert Split("", '/') == one;
  }

  lemma {:induction false} LeadingSlash(s: string)
    ensures Segments("/" + s) == Segments(s)
  {
    NoSegments();
    SegmentsAt("", s);
    assert "" + "/" + s == "/" + s;
  }

  /** A leading "/name" is one segment. */
  lemma {:induction false} LeadingSegment(seg: string, rest: string)
    requires IsName(seg) && (rest == "" || rest[0] == '/')
    ensures Segments("/" + seg + rest) == [seg] + Segments(rest)
  {
    assert "/" + seg + rest == "/" + (seg + rest);
    LeadingSlash(seg + rest);
    SegmentsName(seg);
    if rest == "" {
      assert seg + rest == seg;
    } else {
      assert rest == "/" + rest[1..];
      var tail := rest[1..];
      LeadingSlash(tail);
      assert seg + rest == seg + "/" + tail;
      SegmentsAt(seg, tail);
    }
  }

  lemma {:induction false} SegmentsJoined(segs: seq<string>)
    requires AllNames(segs)
    ensures Segments(Joined(segs)) == segs
  {
    if segs == [] {
      NoSegments();
    } else {
      SegmentsJoined(segs[1..]);
      LeadingSegment(segs[0], Joined(segs[1..]));
      assert segs == [segs[0]] + segs[1..];
    }
  }

  /** Rendering loses nothing. */
  lemma {:induction false} RenderRoundTrip(segs: seq<string>)
    requires AllNames(segs)
    ensures Segments(Render(segs)) == segs && Canonical(Render(segs))
  {
    if segs == [] {
      NoSegments();
      LeadingSlash("");
      assert "/" + "" == "/";
    } else {
      SegmentsJoined(segs);
    }
  }

  // ----- trimming -----

  function TrimStart(s: string, c: char): string
  {
    if s != [] && s[0] == c then TrimStart(s[1..], c) else s
  }

  function TrimEnd(s: string, c: char): string
  {
    if s != [] && s[|s| - 1] == c then TrimEnd(s[..|s| - 1], c) else s
  }

  lemma {:induction false} TrimStartKeepsSegments(s: string)
    ensures Segments(TrimStart(s, '/')) == Segments(s)
  {
    if s != [] && s[0] == '/' {
      TrimStartKeepsSegments(s[1..]);
      assert s == "/" + s[1..];
      LeadingSlash(s[1..]);
    }
  }

  lemma {:induction false} TrimEndKeepsSegments(s: string)
    ensures Segments(TrimEnd(s, '/')) == Segments(s)
    decreases |s|
  {
    if s != [] && s[|s| - 1] == '/' {
      var front := s[..|s| - 1];
      TrimEndKeepsSegments(front);
      assert s == front + "/" + "";
      SegmentsAt(front, "");
      NoSegments();
    }
  }

  // ----- parents and ancestors -----

  /** `rsplit_once`: everything before the last separator, if there is one. */
  function BeforeLast(s: string, sep: char): (r: Option<string>)
  {
    if s == [] then None
    else if s[|s| - 1] == sep then Some(s[..|s| - 1])
    else BeforeLast(s[..|s| - 1], sep)
  }

  /** `parent_of` (src/walk.rs). */
  function ParentOf(path: string): string
  {
    match BeforeLast(path, '/')
    case None => "/"
    case Some(head) => if head == "" then "/" else head
  }

  lemma {:induction false} BeforeLastAt(a: string, sep: char, b: string)
    requires sep !in b
    ensures BeforeLast(a + [sep] + b, sep) == Some(a)
    decreases |b|
  {
    var s := a + [sep] + b;
    if b == [] {
      assert s[..|s| - 1] == a;
    } else {
      assert s[..|s| - 1] == a + [sep] + b[..|b| - 1];
      BeforeLastAt(a, sep, b[..|b| - 1]);
    }
  }

  lemma {:induction false} JoinedAppend(a: seq<string>, b: seq<string>)
    ensures Joined(a + b) == Joined(a) + Joined(b)
  {
    if a == [] {
      assert a + b == b;
    } else {
      assert (a + b)[1..] == a[1..] + b;
      JoinedAppend(a[1..], b);
    }
  }

  /** `parent_of` drops exactly the last segment; the root is its own parent. */
  lemma {:induction false} ParentOfDropsLast(segs: seq<string>)
    requires AllNames(segs)
    ensures ParentOf(Render(segs)) == Render(if segs == [] then [] else segs[..|segs| - 1])
  {
    if segs == [] {
      assert "/" == "" + ['/'] + "";
      BeforeLastAt("", '/', "");
    } else {
      var front, last := segs[..|segs| - 1], segs[|segs| - 1];
      assert segs == front + [last];
      JoinedAppend(front, [last]);
      assert Joined([last]) == "/" + last by { assert Joined([last][1..]) == ""; }
      assert Joined(segs) == Joined(front) + ['/'] + last;
      BeforeLastAt(Joined(front), '/', last);
    }
  }

  lemma {:induction false} ParentSegments(path: string)
    requires Canonical(path) && path != "/"
    ensures var segs := Segments(path);
            segs != [] && Canonical(ParentOf(path)) && Segments(ParentOf(path)) == segs[..|segs| - 1]
  {
    var segs := Segments(path);
    ParentOfDropsLast(segs);
    PrefixNames(segs, |segs| - 1);
    RenderRoundTrip(segs[..|segs| - 1]);
  }

  /** A canonical path other than the root has no trailing slash to trim. */
  lemma {:induction false} TrimEndCanonical(path: string)
    requires Canonical(path) && path != "/"
    ensures TrimEnd(path, '/') == path
  {
    var segs := Segments(path);
    var front, last := segs[..|segs| - 1], segs[|segs| - 1];
    assert segs == front + [last];
    JoinedAppend(front, [last]);
    assert Joined([last]) == "/" + last by { assert Joined([last][1..]) == ""; }
    assert path[|path| - 1] == last[|last| - 1];
  }

  /** `normalize_path` (src/walk.rs). */
  function NormalizePath(path: string): string
  {
    if path == "" then "/"
    else if |path| > 1 && path[|path| - 1] == '/' then TrimEnd(path, '/')
    else path
  }

  lemma {:induction false} NormalizeCanonical(path: string)
    requires Canonical(path)
    ensures NormalizePath(path) == path
  {
    if path != "/" {
      TrimEndCanonical(path);
    }
  }

  predicate OnlySlashes(s: string)
  {
    forall i :: 0 <= i < |s| ==> s[i] == '/'
  }

  lemma {:induction false} TrimEndDrops(s: string, slashes: string)
    requires OnlySlashes(slashes)
    ensures TrimEnd(s + slashes, '/') == TrimEnd(s, '/')
    decreases |slashes|
  {
    if slashes == [] {
      assert s + slashes == s;
    } else {
      var n := |slashes| - 1;
      assert (s + slashes)[..|s + slashes| - 1] == s + slashes[..n];
      TrimEndDrops(s, slashes[..n]);
    }
  }

  /** `normalize_path` makes a path with trailing slashes equal to the one without, and
      the empty string the root. The one spelling it gets wrong is the root's: "//" and
      longer runs of slashes come out empty. */
  lemma {:induction false} NormalizeTrailing(path: string, slashes: string)
    requires Canonical(path) && OnlySlashes(slashes)
    ensures NormalizePath("") == "/"
    ensures NormalizePath(path + slashes) == if path == "/" && slashes != "" then "" else path
    ensures NormalizePath(path + slashes) == path <==> path != "/" || slashes == ""
  {
    NormalizeCanonical(path);
    RenderRoundTrip(Segments(path));
    if slashes == "" {
      assert path + slashes == path;
    } else {
      TrimEndDrops(path, slashes);
      if path == "/" {
        assert "/" == "" + "/";
        TrimEndDrops("", "/");
      } else {
        TrimEndCanonical(path);
      }
    }
  }

  /** The paths of the proper prefixes, longest first. */
  function ProperPrefixes(segs: seq<string>): (r: seq<string>)
    ensures |r| == |segs|
    ensures forall i :: 0 <= i < |segs| ==> r[i] == Render(segs[..|segs| - 1 - i])
  {
    seq(|segs|, i requires 0 <= i < |segs| => Render(segs[..|segs| - 1 - i]))
  }

  /** `PurePosixPath(path).parents`, closest first. */
  function Parents(path: string): (r: seq<string>)
    ensures |r| == |Segments(path)|
  {
    ProperPrefixes(Segments(path))
  }

  /** `a` is `b` or one of its ancestors. */
  predicate AncestorOrSelf(a: string, b: string)
  {
    Segments(a) <= Segments(b)
  }

  lemma {:induction false} PrefixNames(segs: seq<string>, n: nat)
    requires AllNames(segs) && n <= |segs|
    ensures AllNames(segs[..n])
  {}

  lemma {:induction false} AncestorIsParent(a: string, b: string)
    requires Canonical(a) && Canonical(b) && AncestorOrSelf(a, b) && a != b
    ensures a in Parents(b)
  {
    var segs, n := Segments(b), |Segments(a)|;
    assert segs[..n] == Segments(a) && segs[..|segs|] == segs;
    assert Parents(b)[|segs| - 1 - n] == a;
  }

  lemma {:induction false} PrefixRendered(segs: seq<string>, n: nat)
    requires AllNames(segs) && n <= |segs|
    ensures Canonical(Render(segs[..n])) && Segments(Render(segs[..n])) == segs[..n]
  {
    PrefixNames(segs, n);
    RenderRoundTrip(segs[..n]);
  }

  lemma {:induction false} ParentAt(b: string, i: nat)
    requires i < |Parents(b)|
    ensures Canonical(Parents(b)[i]) && Segments(Parents(b)[i]) == Segments(b)[..|Segments(b)| - 1 - i]
  {
    PrefixRendered(Segments(b), |Segments(b)| - 1 - i);
  }

  lemma {:induction false} ParentIsAncestor(a: string, b: string)
    requires a in Parents(b)
    ensures Canonical(a) && AncestorOrSelf(a, b) && |Segments(a)| < |Segments(b)|
  {
    var i: nat :| i < |Parents(b)| && Parents(b)[i] == a;
    ParentAt(b, i);
  }

  // ----- path-string order -----

  /** Byte order of UTF-8 strings, which is code-point order. */
  predicate Less(a: string, b: string)
  {
    b != [] && (a == [] || a[0] < b[0] || (a[0] == b[0] && Less(a[1..], b[1..])))
  }

  /** The first character that differs decides. */
  lemma {:induction false} FirstDifferenceDecides(p: string, x: char, a: string, y: char, b: string)
    requires x != y
    ensures Less(p + [x] + a, p + [y] + b) <==> x < y
  {
    if p == [] {
    } else {
      assert (p + [x] + a)[1..] == p[1..] + [x] + a && (p + [y] + b)[1..] == p[1..] + [y] + b;
      FirstDifferenceDecides(p[1..], x, a, y, b);
    }
  }

  lemma {:induction false} LessIrreflexive(a: string)
    ensures !Less(a, a)
  {
    if a != [] { LessIrreflexive(a[1..]); }
  }

  lemma {:induction false} LessTransitive(a: string, b: string, c: string)
    requires Less(a, b) && Less(b, c)
    ensures Less(a, c)
  {
    if a != [] && a[0] == b[0] == c[0] {
      LessTransitive(a[1..], b[1..], c[1..]);
    }
  }

  lemma {:induction false} LessTotal(a: string, b: string)
    ensures a == b || Less(a, b) || Less(b, a)
  {
    if a != [] && b != [] && a[0] == b[0] {
      LessTotal(a[1..], b[1..]);
      assert a == [a[0]] + a[1..] && b == [b[0]] + b[1..];
    }
  }

  lemma {:induction false} PrefixSortsFirst(a: string, b: string)
    requires a <= b && a != b
    ensures Less(a, b)
  {
    if a == [] {
    } else {
      assert a[1..] <= b[1..];
      assert a == [a[0]] + a[1..] && b == [b[0]] + b[1..];
      PrefixSortsFirst(a[1..], b[1..]);
    }
  }

  /** In path-string order every ancestor comes before its descendants. */
  lemma {:induction false} AncestorSortsFirst(a: string, b: string)
    requires Canonical(a) && Canonical(b) && AncestorOrSelf(a, b) && a != b
    ensures Less(a, b)
  {
    var sa, sb := Segments(a), Segments(b);
    assert sb == sa + sb[|sa|..];
    JoinedAppend(sa, sb[|sa|..]);
    if sa == [] {
      assert b[0] == '/';
      assert a <= b;
    }
    PrefixSortsFirst(a, b);
  }

  // ----- where path-string order is not a pre-order -----

  lemma {:induction false} LessAfterPrefix(p: string, x: string, y: string)
    ensures Less(p + x, p + y) <==> Less(x, y)
  {
    if p == [] {
      assert p + x == x && p + y == y;
    } else {
      assert (p + x)[1..] == p[1..] + x && (p + y)[1..] == p[1..] + y;
      LessAfterPrefix(p[1..], x, y);
    }
  }

  /** Whatever sorts between a string and one that extends it extends it too. */
  lemma {:induction false} BetweenExtends(a: string, b: string, t: string)
    requires Less(a, b) && Less(b, a + t)
    ensures a <= b && a != b
  {
    if a == [] {
    } else {
      assert (a + t)[1..] == a[1..] + t;
      assert b[0] == a[0];
      BetweenExtends(a[1..], b[1..], t);
      assert a == [a[0]] + a[1..] && b == [b[0]] + b[1..];
    }
  }

  lemma {:induction false} ProperPrefix<T>(s: seq<T>, t: seq<T>)
    requires s <= t
    ensures s == t || |s| < |t|
  {}

  /** A proper descendant's path continues its ancestor's with a slash. */
  lemma {:induction false} DescendantContinues(a: string, c: string)
    requires Canonical(a) && Canonical(c) && a != "/" && AncestorOrSelf(a, c) && a != c
    ensures a + "/" <= c
  {
    var s, t := Segments(a), Segments(c);
    ProperPrefix(s, t);
    assert t == s + t[|s|..];
    JoinedAppend(s, t[|s|..]);
    assert c == a + Joined(t[|s|..]);
  }

  /** Path-string order is not a pre-order: `b`, not below `a`, is listed between `a` and
      its descendant `c` exactly when `b` continues `a` with a character before '/'. */
  lemma {:induction false} SubtreeSplitIff(a: string, b: string, c: string)
    requires Canonical(a) && Canonical(b) && Canonical(c) && a != "/"
    requires AncestorOrSelf(a, c) && a != c
    ensures Less(a, b) && Less(b, c) && !AncestorOrSelf(a, b) <==>
            a <= b && a != b && b[|a|] < '/'
  {
    DescendantContinues(a, c);
    var rest := c[|a|..];
    assert c == a + rest && rest[0] == '/';
    if Less(a, b) && Less(b, c) {
      BetweenExtends(a, b, rest);
    }
    if a <= b && a != b {
      var more := b[|a|..];
      assert b == a + more && more[0] == b[|a|];
      PrefixSortsFirst(a, b);
      LessAfterPrefix(a, more, rest);
      if b[|a|] == '/' {
        assert b == a + "/" + more[1..];
        SegmentsAt(a, more[1..]);
      }
      if AncestorOrSelf(a, b) {
        DescendantContinues(a, b);
      }
    }
  }

  /** For example "/a!" separates "/a" from "/a/b". */
  lemma {:induction false} SplitSubtree()
    ensures Canonical("/a") && Canonical("/a!") && AncestorOrSelf("/a", "/a/b") && !AncestorOrSelf("/a", "/a!")
    ensures Less("/a", "/a!") && Less("/a!", "/a/b")
  {}
}
