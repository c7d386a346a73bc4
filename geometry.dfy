/** Sampling grids: the number of pixels of a region, the raster order in which
    a region iterator visits them, and the index-to-physical-point transform. */
module ImageGeometry {

  /** A physical point, a displacement or a pixel value: one real per axis. */
  type Vec = seq<real>

  /** The vector whose every component is zero. */
  function Zero(dimension: nat): (v: Vec)
    ensures |v| == dimension
    ensures forall j :: 0 <= j < dimension ==> v[j] == 0.0
  {
    seq(dimension, _ => 0.0)
  }

  /** Size, spacing and origin of an image grid, one entry per axis. */
  datatype Geometry = Geometry(size: seq<nat>, spacing: seq<real>, origin: seq<real>)
  {
    predicate HasDimension(dimension: nat) {
      |size| == dimension && |spacing| == dimension && |origin| == dimension
    }
  }

  /** Number of pixels in a region of the given size. */
  function CellCount(size: seq<nat>): (n: nat) {
    if |size| == 0 then 1 else size[0] * CellCount(size[1..])
  }

  /** `idx` is an index of the region that starts at the zero index and has the given size. */
  predicate InRegion(idx: seq<int>, size: seq<nat>) {
    |idx| == |size| && forall j :: 0 <= j < |size| ==> 0 <= idx[j] < size[j]
  }

  lemma MulMonotone(a: int, x: int, y: int)
    requires a >= 0
    ensures x <= y ==> a * x <= a * y
  {
    assert a * y == a * x + a * (y - x);
    assert y - x >= 0 ==> a * (y - x) >= 0;
  }

  lemma QuotientBelow(p: nat, a: nat, b: nat)
    requires p < a * b
    ensures 0 < a && p % a < a && p / a < b
  {
    assert a == 0 ==> a * b == 0;
    MulMonotone(a, b, p / a);
  }

  lemma MixedRadixBelow(i: int, a: nat, f: nat, b: nat)
    requires 0 <= i < a && f < b
    ensures i + a * f < a * b
  {
    MulMonotone(a, f + 1, b);
  }

  lemma MixedRadixDigits(i: int, a: nat, f: nat)
    requires 0 <= i < a
    ensures (i + a * f) % a == i && (i + a * f) / a == f
  {
    var n := i + a * f;
    var q, r := n / a, n % a;
    var k := f - q;
    assert a * f == a * q + a * k;
    MulMonotone(a, 1, k);
    MulMonotone(a, k, -1);
    assert k == 0;
  }

  /** The index at position `p` of the raster order (first axis fastest), which is
      the order a region iterator walks a region starting at the zero index. */
  function Unflatten(p: nat, size: seq<nat>): (idx: seq<int>)
    requires p < CellCount(size)
    ensures InRegion(idx, size)
    decreases |size|
  {
    if |size| == 0 then []
    else
      QuotientBelow(p, size[0], CellCount(size[1..]));
      [p % size[0]] + Unflatten(p / size[0], size[1..])
  }

  /** The raster position of an index of the region: the offset of its pixel in the buffer. */
  function Flatten(idx: seq<int>, size: seq<nat>): (p: nat)
    requires InRegion(idx, size)
    ensures p < CellCount(size)
    decreases |size|
  {
    if |size| == 0 then 0
    else
      assert InRegion(idx[1..], size[1..]) by {
        forall j | 0 <= j < |size[1..]| ensures 0 <= idx[1..][j] < size[1..][j] {
          assert idx[1..][j] == idx[j + 1] && size[1..][j] == size[j + 1];
        }
      }
      var rest := Flatten(idx[1..], size[1..]);
      MixedRadixBelow(idx[0], size[0], rest, CellCount(size[1..]));
      idx[0] + size[0] * rest
  }

  /** Flattening an index whose first coordinate is `i` and whose other coordinates
      are `tail`. */
  lemma FlattenCons(i: int, tail: seq<int>, size: seq<nat>)
    requires |size| > 0 && 0 <= i < size[0] && InRegion(tail, size[1..])
    ensures InRegion([i] + tail, size)
    ensures Flatten([i] + tail, size) == i + size[0] * Flatten(tail, size[1..])
  {
    assert ([i] + tail)[1..] == tail;
  }

  /** Every position of the raster order names a different index. */
  lemma {:induction false} FlattenUnflatten(p: nat, size: seq<nat>)
    requires p < CellCount(size)
    ensures Flatten(Unflatten(p, size), size) == p
    decreases |size|
  {
    if |size| != 0 {
      var a, rest := size[0], size[1..];
      QuotientBelow(p, a, CellCount(rest));
      var q, r := p / a, p % a;
      var tail := Unflatten(q, rest);
      FlattenUnflatten(q, rest);
      assert Unflatten(p, size) == [r] + tail;
      FlattenCons(r, tail, size);
    }
  }

  /** Every index of the region occurs in the raster order. */
  lemma {:induction false} UnflattenFlatten(idx: seq<int>, size: seq<nat>)
    requires InRegion(idx, size)
    ensures Unflatten(Flatten(idx, size), size) == idx
    decreases |size|
  {
    if |size| != 0 {
      var p := Flatten(idx, size);
      var rest := Flatten(idx[1..], size[1..]);
      MixedRadixDigits(idx[0], size[0], rest);
      UnflattenFlatten(idx[1..], size[1..]);
      assert Unflatten(p, size) == [idx[0]] + idx[1..];
    }
  }

  /** The physical point of a grid index under identity direction cosines:
      origin plus index times spacing, axis by axis. */
  function PhysicalPoint(g: Geometry, idx: seq<int>): (pt: Vec)
    requires |g.spacing| == |g.origin| && |idx| == |g.origin|
    ensures |pt| == |g.origin|
  {
    seq(|g.origin|, j requires 0 <= j < |g.origin| => g.origin[j] + (idx[j] as real) * g.spacing[j])
  }
}
