/** Row-major (C order) layout of an n-dimensional box: the mixed-radix numbering
    that `slice_nd`, the Zarr chunks and NumPy's `reshape` all share. */
module RowMajor {

  /** Number of elements of a box; 1 for rank 0. */
  function Volume(shape: seq<nat>): nat
  {
    if shape == [] then 1 else shape[0] * Volume(shape[1..])
  }

  ghost predicate InBounds(shape: seq<nat>, idx: seq<nat>)
  {
    |idx| == |shape| && forall i :: 0 <= i < |shape| ==> idx[i] < shape[i]
  }

  /** Position of a multi-index in the row-major listing. */
  function Flat(shape: seq<nat>, idx: seq<nat>): nat
    requires |shape| == |idx|
  {
    if shape == [] then 0
    else idx[0] * Volume(shape[1..]) + Flat(shape[1..], idx[1..])
  }

  /** The multi-index at a position of the row-major listing. */
  function Unflat(shape: seq<nat>, k: nat): (idx: seq<nat>)
    requires k < Volume(shape)
    ensures InBounds(shape, idx)
  {
    if shape == [] then []
    else
      var inner := Volume(shape[1..]);
      QuotientInRange(k, shape[0], inner);
      [k / inner] + Unflat(shape[1..], k % inner)
  }

  lemma {:induction false} FlatUnflat(shape: seq<nat>, k: nat)
    requires k < Volume(shape)
    ensures Flat(shape, Unflat(shape, k)) == k
  {
    if shape == [] {
    } else {
      QuotientInRange(k, shape[0], Volume(shape[1..]));
      var digit, rest := Divide(k, Volume(shape[1..]));
      FlatUnflat(shape[1..], rest);
      FlatOfDigit(shape, digit, Unflat(shape[1..], rest), k);
    }
  }

  lemma {:induction false} Divide(k: nat, radix: nat) returns (digit: nat, rest: nat)
    requires radix > 0
    ensures digit == k / radix && rest == k % radix && rest < radix
    ensures digit * radix + rest == k
  {
    digit, rest := k / radix, k % radix;
  }

  lemma {:induction false} FlatOfDigit(shape: seq<nat>, digit: nat, rest: seq<nat>, k: nat)
    requires shape != [] && |rest| == |shape| - 1
    requires k == digit * Volume(shape[1..]) + Flat(shape[1..], rest)
    ensures Flat(shape, [digit] + rest) == k
  {
    assert ([digit] + rest)[1..] == rest;
  }

  lemma {:induction false} MulMono(a: nat, b: nat, c: nat)
    ensures a <= b ==> a * c <= b * c
  {}

  lemma {:induction false} Distribute(a: nat, c: nat)
    ensures (a + 1) * c == a * c + c
  {}

  lemma {:induction false} Successor(a: nat, b: nat, c: nat)
    ensures a < b ==> a * c + c <= b * c
  {
    MulMono(a + 1, b, c);
    Distribute(a, c);
  }

  lemma {:induction false} ProductPositive(a: nat, b: nat)
    ensures a * b > 0 <==> a > 0 && b > 0
  {}

  lemma {:induction false} QuotientInRange(k: nat, a: nat, b: nat)
    requires k < a * b
    ensures b > 0 && k / b < a
  {
    ProductPositive(a, b);
    MulMono(a, k / b, b);
  }

  /** A leading digit and a remainder below the radix stay below the product. */
  lemma {:induction false} DigitInRange(digit: nat, digits: nat, rest: nat, radix: nat)
    requires digit < digits && rest < radix
    ensures digit * radix + rest < digits * radix
  {
    Successor(digit, digits, radix);
  }

  /** Digit and remainder are determined by the number they make. */
  lemma {:induction false} DigitUnique(d: nat, r: nat, d': nat, r': nat, radix: nat)
    requires r < radix && r' < radix
    requires d * radix + r == d' * radix + r'
    ensures d == d' && r == r'
  {
    Successor(d, d', radix);
    Successor(d', d, radix);
  }

  lemma {:induction false} FlatInRange(shape: seq<nat>, idx: seq<nat>)
    requires InBounds(shape, idx)
    ensures Flat(shape, idx) < Volume(shape)
  {
    if shape == [] {
    } else {
      FlatInRange(shape[1..], idx[1..]);
      DigitInRange(idx[0], shape[0], Flat(shape[1..], idx[1..]), Volume(shape[1..]));
    }
  }

  /** Two multi-indices of a box never share a position. */
  lemma {:induction false} FlatInjective(shape: seq<nat>, a: seq<nat>, b: seq<nat>)
    requires InBounds(shape, a) && InBounds(shape, b)
    requires Flat(shape, a) == Flat(shape, b)
    ensures a == b
  {
    if shape == [] {
    } else {
      FlatInRange(shape[1..], a[1..]);
      FlatInRange(shape[1..], b[1..]);
      DigitUnique(a[0], Flat(shape[1..], a[1..]), b[0], Flat(shape[1..], b[1..]), Volume(shape[1..]));
      FlatInjective(shape[1..], a[1..], b[1..]);
      assert a == [a[0]] + a[1..] && b == [b[0]] + b[1..];
    }
  }

  lemma {:induction false} VolumeZero(shape: seq<nat>)
    ensures Volume(shape) == 0 <==> 0 in shape
  {
    if shape == [] {
    } else {
      VolumeZero(shape[1..]);
    }
  }

  lemma {:induction false} VolumeAppend(shape: seq<nat>, last: nat)
    ensures Volume(shape + [last]) == Volume(shape) * last
  {
    if shape == [] {
      assert shape + [last] == [last];
      assert Volume([last]) == last * Volume([]);
    } else {
      VolumeAppend(shape[1..], last);
      assert (shape + [last])[1..] == shape[1..] + [last];
      assert shape[0] * (Volume(shape[1..]) * last) == shape[0] * Volume(shape[1..]) * last;
    }
  }

  /** A trailing part of a non-empty box is no larger than the box. */
  lemma {:induction false} VolumeSuffix(shape: seq<nat>, i: nat)
    requires i <= |shape| && Volume(shape) > 0
    ensures 0 < Volume(shape[i..]) <= Volume(shape)
  {
    if i == 0 {
      assert shape[0..] == shape;
    } else {
      ProductPositive(shape[0], Volume(shape[1..]));
      VolumeSuffix(shape[1..], i - 1);
      assert shape[1..][i - 1..] == shape[i..];
      MulMono(1, shape[0], Volume(shape[1..]));
    }
  }

  lemma {:induction false} VolumePrefix(shape: seq<nat>, i: nat)
    requires i <= |shape| && Volume(shape) > 0
    ensures 0 < Volume(shape[..i]) <= Volume(shape)
    decreases |shape| - i
  {
    if i == |shape| {
      assert shape[..i] == shape;
    } else {
      VolumePrefix(shape, i + 1);
      assert shape[..i + 1] == shape[..i] + [shape[i]];
      VolumeAppend(shape[..i], shape[i]);
      ProductPositive(Volume(shape[..i]), shape[i]);
      MulMono(1, shape[i], Volume(shape[..i]));
    }
  }

  /** Pointwise sum of two multi-indices. */
  function Add(a: seq<nat>, b: seq<nat>): (c: seq<nat>)
    requires |a| == |b|
    ensures |c| == |a|
    ensures forall i :: 0 <= i < |a| ==> c[i] == a[i] + b[i]
  {
    seq(|a|, i requires 0 <= i < |a| => a[i] + b[i])
  }

  /** Row-major positions are in the lexicographic order of the multi-indices. */
  lemma {:induction false} FlatIsLexicographic(shape: seq<nat>, a: seq<nat>, b: seq<nat>, k: nat)
    requires InBounds(shape, a) && InBounds(shape, b) && k < |shape|
    requires a[..k] == b[..k] && a[k] < b[k]
    ensures Flat(shape, a) < Flat(shape, b)
  {
    if k == 0 {
      FlatInRange(shape[1..], a[1..]);
      Successor(a[0], b[0], Volume(shape[1..]));
    } else {
      assert a[0] == a[..k][0] == b[..k][0] == b[0];
      assert a[1..][..k - 1] == a[..k][1..] == b[..k][1..] == b[1..][..k - 1];
      FlatIsLexicographic(shape[1..], a[1..], b[1..], k - 1);
    }
  }
}
