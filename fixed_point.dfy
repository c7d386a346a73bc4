/** The fixed-point scheme of Chen et al. ("A simple fixed-point approach to invert
    a deformation field", Medical Physics 35(1):81) as the filter runs it: the
    estimate starts at the zero field and is swept N+1 times; each sweep visits the
    pixels in raster order, maps each pixel's physical point by the value its
    pixel currently holds, and, when the interpolator accepts the mapped point,
    replaces that pixel by the negated interpolated input vector.

    These functions are the specification the filter's GenerateData is proved
    against; the lemmas state what the scheme guarantees. */
module FixedPointScheme {
  import opened ImageGeometry
  import opened Interpolation

  /** The physical points of the grid's pixels, in raster order. */
  function GridPoints(g: Geometry): (points: seq<Vec>)
    requires |g.spacing| == |g.origin| == |g.size|
    ensures |points| == CellCount(g.size)
    ensures forall p :: 0 <= p < |points| ==> |points[p]| == |g.origin|
  {
    seq(CellCount(g.size), p requires 0 <= p < CellCount(g.size) => PhysicalPoint(g, Unflatten(p, g.size)))
  }

  /** The interpolator and the pixels' physical points share the image dimension. */
  ghost predicate Compatible(s: Interpolator, points: seq<Vec>) {
    s.Valid() && forall p :: 0 <= p < |points| ==> |points[p]| == s.dimension
  }

  /** A buffer over the pixels: one vector of `dimension` components per pixel. */
  predicate IsField(buf: seq<Vec>, points: seq<Vec>, dimension: nat) {
    |buf| == |points| && forall q :: 0 <= q < |buf| ==> |buf[q]| == dimension
  }

  /** The point `pt` moved by the displacement `d`, axis by axis. */
  function Translate(pt: Vec, d: Vec): (m: Vec)
    requires |pt| == |d|
    ensures |m| == |pt|
  {
    seq(|pt|, j requires 0 <= j < |pt| => pt[j] + d[j])
  }

  /** The vector with every component negated. */
  function Negated(v: Vec): (r: Vec)
    ensures |r| == |v|
  {
    seq(|v|, j requires 0 <= j < |v| => -v[j])
  }

  /** What a visit leaves in the pixel at `p` when that pixel holds `d`: the negated
      interpolated vector at the pixel's point moved by `d`, when the interpolator
      accepts that point, and `d` otherwise. */
  function Refine(s: Interpolator, points: seq<Vec>, p: nat, d: Vec): (r: Vec)
    requires Compatible(s, points) && p < |points| && |d| == s.dimension
    ensures |r| == s.dimension
  {
    var m := Translate(points[p], d);
    if s.isInsideBuffer(m) then Negated(s.evaluate(m)) else d
  }

  /** One visit of the pixel at `p`, reading and writing the same buffer. */
  function Visit(s: Interpolator, points: seq<Vec>, buf: seq<Vec>, p: nat): (r: seq<Vec>)
    requires Compatible(s, points) && IsField(buf, points, s.dimension) && p < |buf|
    ensures IsField(r, points, s.dimension)
  {
    buf[p := Refine(s, points, p, buf[p])]
  }

  /** The buffer after the first `k` visits of a sweep that started from `buf`. */
  function SweepPrefix(s: Interpolator, points: seq<Vec>, buf: seq<Vec>, k: nat): (r: seq<Vec>)
    requires Compatible(s, points) && IsField(buf, points, s.dimension) && k <= |buf|
    ensures IsField(r, points, s.dimension)
    decreases k
  {
    if k == 0 then buf else Visit(s, points, SweepPrefix(s, points, buf, k - 1), k - 1)
  }

  /** One full sweep: every pixel visited once, in raster order. */
  function Sweep(s: Interpolator, points: seq<Vec>, buf: seq<Vec>): (r: seq<Vec>)
    requires Compatible(s, points) && IsField(buf, points, s.dimension)
    ensures IsField(r, points, s.dimension)
  {
    SweepPrefix(s, points, buf, |buf|)
  }

  /** The buffer after `m` full sweeps. */
  function Sweeps(s: Interpolator, points: seq<Vec>, buf: seq<Vec>, m: nat): (r: seq<Vec>)
    requires Compatible(s, points) && IsField(buf, points, s.dimension)
    ensures IsField(r, points, s.dimension)
    decreases m
  {
    if m == 0 then buf else Sweep(s, points, Sweeps(s, points, buf, m - 1))
  }

  /** The freshly allocated estimate: the zero vector at every pixel. */
  function ZeroField(points: seq<Vec>, dimension: nat): (r: seq<Vec>)
    ensures IsField(r, points, dimension)
  {
    seq(|points|, _ => Zero(dimension))
  }

  /** The filter's output on the grid `g` for `iterations` iterations:
      iterations + 1 sweeps from the zero field. */
  function Inverse(s: Interpolator, g: Geometry, iterations: nat): (r: seq<Vec>)
    requires s.Valid() && g.HasDimension(s.dimension)
    ensures IsField(r, GridPoints(g), s.dimension)
  {
    var points := GridPoints(g);
    Sweeps(s, points, ZeroField(points, s.dimension), iterations + 1)
  }

  // ---------------------------------------------------------------------------
  // How often the interpolator is evaluated

  /** 1 when visiting `p` evaluates the interpolator, 0 otherwise. */
  function VisitEvaluations(s: Interpolator, points: seq<Vec>, buf: seq<Vec>, p: nat): (n: nat)
    requires Compatible(s, points) && IsField(buf, points, s.dimension) && p < |buf|
  {
    if s.isInsideBuffer(Translate(points[p], buf[p])) then 1 else 0
  }

  /** Evaluations made by the first `k` visits of a sweep from `buf`. */
  function SweepPrefixEvaluations(s: Interpolator, points: seq<Vec>, buf: seq<Vec>, k: nat): (n: nat)
    requires Compatible(s, points) && IsField(buf, points, s.dimension) && k <= |buf|
    decreases k
  {
    if k == 0 then 0
    else SweepPrefixEvaluations(s, points, buf, k - 1) + VisitEvaluations(s, points, SweepPrefix(s, points, buf, k - 1), k - 1)
  }

  /** Evaluations made by `m` full sweeps from `buf`. */
  function SweepsEvaluations(s: Interpolator, points: seq<Vec>, buf: seq<Vec>, m: nat): (n: nat)
    requires Compatible(s, points) && IsField(buf, points, s.dimension)
    decreases m
  {
    if m == 0 then 0
    else SweepsEvaluations(s, points, buf, m - 1) + SweepPrefixEvaluations(s, points, Sweeps(s, points, buf, m - 1), |buf|)
  }

  /** Evaluations made by the whole filter run. */
  function InverseEvaluations(s: Interpolator, g: Geometry, iterations: nat): (n: nat)
    requires s.Valid() && g.HasDimension(s.dimension)
  {
    var points := GridPoints(g);
    SweepsEvaluations(s, points, ZeroField(points, s.dimension), iterations + 1)
  }

  // ---------------------------------------------------------------------------
  // Reference definitions, one pixel at a time

  /** What the pixel at `p` holds after `m` refinements starting from `d`. */
  function CellOrbit(s: Interpolator, points: seq<Vec>, p: nat, d: Vec, m: nat): (r: Vec)
    requires Compatible(s, points) && p < |points| && |d| == s.dimension
    ensures |r| == s.dimension
    decreases m
  {
    if m == 0 then d else Refine(s, points, p, CellOrbit(s, points, p, d, m - 1))
  }

  /** The first `k` pixels all send their mapped point inside the input's buffer. */
  predicate AllInside(s: Interpolator, points: seq<Vec>, buf: seq<Vec>, k: nat)
    requires Compatible(s, points) && IsField(buf, points, s.dimension) && k <= |buf|
  {
    forall q :: 0 <= q < k ==> s.isInsideBuffer(Translate(points[q], buf[q]))
  }

  /** Number of the first `k` pixels whose mapped point is inside the input's buffer. */
  function InsideCount(s: Interpolator, points: seq<Vec>, buf: seq<Vec>, k: nat): (n: nat)
    requires Compatible(s, points) && IsField(buf, points, s.dimension) && k <= |buf|
    decreases k
  {
    if k == 0 then 0
    else InsideCount(s, points, buf, k - 1) + (if s.isInsideBuffer(Translate(points[k - 1], buf[k - 1])) then 1 else 0)
  }

  /** Every visit of the first `m` sweeps from `buf` maps inside the input's buffer. */
  predicate EveryVisitInside(s: Interpolator, points: seq<Vec>, buf: seq<Vec>, m: nat)
    requires Compatible(s, points) && IsField(buf, points, s.dimension)
    decreases m
  {
    m == 0 || (EveryVisitInside(s, points, buf, m - 1) && AllInside(s, points, Sweeps(s, points, buf, m - 1), |buf|))
  }

  // ---------------------------------------------------------------------------
  // Properties of one sweep

  /** After `k` visits, each visited pixel holds the refinement of the value it held
      when the sweep began, and every pixel not yet visited still holds that value:
      a visit writes its own pixel only, and it reads its own pixel before any
      write of the sweep has touched it. */
  lemma {:induction false} SweepPrefixAt(s: Interpolator, points: seq<Vec>, buf: seq<Vec>, k: nat)
    requires Compatible(s, points) && IsField(buf, points, s.dimension) && k <= |buf|
    ensures forall q :: 0 <= q < |buf| ==>
      SweepPrefix(s, points, buf, k)[q] == if q < k then Refine(s, points, q, buf[q]) else buf[q]
    decreases k
  {
    if k != 0 {
      SweepPrefixAt(s, points, buf, k - 1);
      var prev := SweepPrefix(s, points, buf, k - 1);
      var next := Refine(s, points, k - 1, buf[k - 1]);
      assert prev[k - 1] == buf[k - 1];
      assert SweepPrefix(s, points, buf, k) == prev[k - 1 := next];
    }
  }

  /** A pixel the sweep has not reached yet still holds its value from before the sweep. */
  lemma {:induction false} SweepPrefixUnvisited(s: Interpolator, points: seq<Vec>, buf: seq<Vec>, k: nat, q: nat)
    requires Compatible(s, points) && IsField(buf, points, s.dimension) && k <= q < |buf|
    ensures SweepPrefix(s, points, buf, k)[q] == buf[q]
    decreases k
  {
    if k != 0 {
      var prev := SweepPrefix(s, points, buf, k - 1);
      SweepPrefixUnvisited(s, points, buf, k - 1, q);
      assert SweepPrefix(s, points, buf, k) == prev[k - 1 := Refine(s, points, k - 1, prev[k - 1])];
    }
  }

  /** The in-place sweep equals the synchronised one: sweeping every pixel in raster
      order through one shared buffer gives the same field as refining every pixel
      from the values of the previous sweep. */
  lemma SweepIsPointwise(s: Interpolator, points: seq<Vec>, buf: seq<Vec>)
    requires Compatible(s, points) && IsField(buf, points, s.dimension)
    ensures Sweep(s, points, buf) == seq(|buf|, q requires 0 <= q < |buf| => Refine(s, points, q, buf[q]))
  {
    SweepPrefixAt(s, points, buf, |buf|);
  }

  /** After `m` sweeps, each pixel holds its own orbit: the other pixels never influence it. */
  lemma {:induction false} SweepsAt(s: Interpolator, points: seq<Vec>, buf: seq<Vec>, m: nat, p: nat)
    requires Compatible(s, points) && IsField(buf, points, s.dimension) && p < |buf|
    ensures Sweeps(s, points, buf, m)[p] == CellOrbit(s, points, p, buf[p], m)
    decreases m
  {
    if m != 0 {
      SweepsAt(s, points, buf, m - 1, p);
      SweepPrefixAt(s, points, Sweeps(s, points, buf, m - 1), |buf|);
    }
  }

  /** A value the refinement leaves alone stays for any number of refinements. */
  lemma {:induction false} OrbitOfFixedPoint(s: Interpolator, points: seq<Vec>, p: nat, d: Vec, m: nat)
    requires Compatible(s, points) && p < |points| && |d| == s.dimension
    requires Refine(s, points, p, d) == d
    ensures CellOrbit(s, points, p, d, m) == d
    decreases m
  {
    if m != 0 {
      OrbitOfFixedPoint(s, points, p, d, m - 1);
    }
  }

  // ---------------------------------------------------------------------------
  // Properties of the whole run

  /** Each output pixel holds its own orbit from the zero vector after
      iterations + 1 refinements. */
  lemma InverseAt(s: Interpolator, g: Geometry, iterations: nat, p: nat)
    requires s.Valid() && g.HasDimension(s.dimension) && p < CellCount(g.size)
    ensures Compatible(s, GridPoints(g))
    ensures Inverse(s, g, iterations)[p] == CellOrbit(s, GridPoints(g), p, Zero(s.dimension), iterations + 1)
  {
    var points := GridPoints(g);
    SweepsAt(s, points, ZeroField(points, s.dimension), iterations + 1, p);
  }

  /** If the input field is zero wherever it can be interpolated, the output is the zero
      field, for every iteration count. */
  lemma ZeroFieldInvariant(s: Interpolator, g: Geometry, iterations: nat)
    requires s.Valid() && g.HasDimension(s.dimension)
    requires forall x :: s.isInsideBuffer(x) ==> s.evaluate(x) == Zero(s.dimension)
    ensures Inverse(s, g, iterations) == ZeroField(GridPoints(g), s.dimension)
  {
    var points := GridPoints(g);
    forall p | 0 <= p < |points|
      ensures Inverse(s, g, iterations)[p] == Zero(s.dimension)
    {
      assert Negated(Zero(s.dimension)) == Zero(s.dimension);
      OrbitOfFixedPoint(s, points, p, Zero(s.dimension), iterations + 1);
      InverseAt(s, g, iterations, p);
    }
  }

  /** A pixel whose own physical point lies outside the input's buffer is never
      updated: it holds the zero vector after every number of iterations. */
  lemma BoundaryFreeze(s: Interpolator, g: Geometry, iterations: nat, p: nat)
    requires s.Valid() && g.HasDimension(s.dimension) && p < CellCount(g.size)
    requires !s.isInsideBuffer(PhysicalPoint(g, Unflatten(p, g.size)))
    ensures Inverse(s, g, iterations)[p] == Zero(s.dimension)
  {
    var points := GridPoints(g);
    assert Translate(points[p], Zero(s.dimension)) == points[p];
    OrbitOfFixedPoint(s, points, p, Zero(s.dimension), iterations + 1);
    InverseAt(s, g, iterations, p);
  }

  /** A constant input field `c` (a pure translation) is inverted exactly after any
      number of iterations at every pixel whose physical point lies inside the input;
      every other pixel stays zero. */
  lemma ConstantFieldInverse(s: Interpolator, g: Geometry, iterations: nat, c: Vec, p: nat)
    requires s.Valid() && g.HasDimension(s.dimension) && p < CellCount(g.size) && |c| == s.dimension
    requires forall x :: s.isInsideBuffer(x) ==> s.evaluate(x) == c
    ensures Inverse(s, g, iterations)[p] ==
      if s.isInsideBuffer(PhysicalPoint(g, Unflatten(p, g.size))) then Negated(c) else Zero(s.dimension)
  {
    var points := GridPoints(g);
    if s.isInsideBuffer(points[p]) {
      InverseAt(s, g, iterations, p);
      ConstantFieldOrbit(s, points, p, c, iterations + 1);
    } else {
      BoundaryFreeze(s, g, iterations, p);
    }
  }

  /** From the zero vector, a pixel whose point is inside reaches -c at its first
      refinement and keeps it. */
  lemma {:induction false} ConstantFieldOrbit(s: Interpolator, points: seq<Vec>, p: nat, c: Vec, m: nat)
    requires Compatible(s, points) && p < |points| && |c| == s.dimension && m >= 1
    requires forall x :: s.isInsideBuffer(x) ==> s.evaluate(x) == c
    requires s.isInsideBuffer(points[p])
    ensures CellOrbit(s, points, p, Zero(s.dimension), m) == Negated(c)
    decreases m
  {
    assert Translate(points[p], Zero(s.dimension)) == points[p];
    if m > 1 {
      ConstantFieldOrbit(s, points, p, c, m - 1);
    }
  }

  // ---------------------------------------------------------------------------
  // Evaluation counts

  /** A sweep evaluates the interpolator once for each pixel whose mapped point,
      computed from the value it held when the sweep began, is inside. */
  lemma {:induction false} SweepPrefixEvaluationsCount(s: Interpolator, points: seq<Vec>, buf: seq<Vec>, k: nat)
    requires Compatible(s, points) && IsField(buf, points, s.dimension) && k <= |buf|
    ensures SweepPrefixEvaluations(s, points, buf, k) == InsideCount(s, points, buf, k)
    decreases k
  {
    if k != 0 {
      SweepPrefixEvaluationsCount(s, points, buf, k - 1);
      SweepPrefixUnvisited(s, points, buf, k - 1, k - 1);
    }
  }

  /** At most one evaluation per pixel, and exactly one each precisely when every
      mapped point is inside. */
  lemma {:induction false} InsideCountBound(s: Interpolator, points: seq<Vec>, buf: seq<Vec>, k: nat)
    requires Compatible(s, points) && IsField(buf, points, s.dimension) && k <= |buf|
    ensures InsideCount(s, points, buf, k) <= k
    ensures InsideCount(s, points, buf, k) == k <==> AllInside(s, points, buf, k)
    decreases k
  {
    if k != 0 {
      InsideCountBound(s, points, buf, k - 1);
      var last := s.isInsideBuffer(Translate(points[k - 1], buf[k - 1]));
      assert InsideCount(s, points, buf, k) == InsideCount(s, points, buf, k - 1) + if last then 1 else 0;
      assert AllInside(s, points, buf, k) ==> AllInside(s, points, buf, k - 1) && last;
      if AllInside(s, points, buf, k - 1) && last {
        forall q | 0 <= q < k
          ensures s.isInsideBuffer(Translate(points[q], buf[q]))
        {
          if q < k - 1 {
            assert s.isInsideBuffer(Translate(points[q], buf[q]));
          }
        }
      }
    }
  }

  /** `m` sweeps evaluate the interpolator at most `m` times per pixel, and exactly that
      often precisely when every visit maps inside the input's buffer. */
  lemma {:induction false} SweepsEvaluationsBound(s: Interpolator, points: seq<Vec>, buf: seq<Vec>, m: nat)
    requires Compatible(s, points) && IsField(buf, points, s.dimension)
    ensures SweepsEvaluations(s, points, buf, m) <= m * |buf|
    ensures SweepsEvaluations(s, points, buf, m) == m * |buf| <==> EveryVisitInside(s, points, buf, m)
    decreases m
  {
    if m != 0 {
      var before := Sweeps(s, points, buf, m - 1);
      SweepsEvaluationsBound(s, points, buf, m - 1);
      SweepPrefixEvaluationsCount(s, points, before, |buf|);
      InsideCountBound(s, points, before, |buf|);
      assert m * |buf| == (m - 1) * |buf| + |buf|;
    }
  }

  /** A run with `iterations` iterations evaluates the interpolator at most
      (iterations + 1) times per output pixel, exactly that often when every visit
      maps inside the input's buffer. */
  lemma InverseEvaluationsBound(s: Interpolator, g: Geometry, iterations: nat)
    requires s.Valid() && g.HasDimension(s.dimension)
    ensures Compatible(s, GridPoints(g))
    ensures InverseEvaluations(s, g, iterations) <= (iterations + 1) * CellCount(g.size)
    ensures InverseEvaluations(s, g, iterations) == (iterations + 1) * CellCount(g.size)
      <==> EveryVisitInside(s, GridPoints(g), ZeroField(GridPoints(g), s.dimension), iterations + 1)
  {
    var points := GridPoints(g);
    SweepsEvaluationsBound(s, points, ZeroField(points, s.dimension), iterations + 1);
  }
}
