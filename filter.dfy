/** The filter object: its configuration, the output image it owns, the step that
    gives the output its geometry and the step that fills it by the fixed-point
    scheme. */
module InverseFilter {
  import opened ImageGeometry
  import opened Interpolation
  import opened FixedPointScheme

  /** The output displacement-field image: its grid and its pixel buffer, one vector
      per pixel in raster order. */
  class VectorImage {
    const dimension: nat
    var size: seq<nat>
    var spacing: seq<real>
    var origin: seq<real>
    var buffer: array<Vec>

    ghost predicate Valid()
      reads this
    {
      Geometry(size, spacing, origin).HasDimension(dimension)
    }

    function GridGeometry(): (g: Geometry)
      reads this
    {
      Geometry(size, spacing, origin)
    }

    /** An empty image: no pixels, unit spacing, origin at zero. */
    constructor (dimension: nat)
      ensures Valid() && this.dimension == dimension
      ensures size == seq(dimension, _ => 0) && spacing == seq(dimension, _ => 1.0)
      ensures origin == Zero(dimension)
      ensures fresh(buffer) && buffer.Length == 0
    {
      this.dimension := dimension;
      size := seq(dimension, _ => 0);
      spacing := seq(dimension, _ => 1.0);
      origin := Zero(dimension);
      buffer := new Vec[0];
    }

    /** A new buffer with one (not yet meaningful) pixel per index of the region. */
    method Allocate()
      modifies this
      ensures fresh(buffer) && buffer.Length == CellCount(size)
      ensures size == old(size) && spacing == old(spacing) && origin == old(origin)
    {
      buffer := new Vec[CellCount(size)];
    }

    /** Every pixel of the buffer set to `value`. */
    method FillBuffer(value: Vec)
      modifies buffer
      ensures buffer[..] == seq(buffer.Length, _ => value)
    {
      forall i | 0 <= i < buffer.Length {
        buffer[i] := value;
      }
    }
  }

  /** The mapped point of a pixel: its physical point plus its current displacement,
      computed one axis at a time. */
  method ComputeMappedPoint(pt: Vec, displacement: Vec, dimension: nat) returns (mappedPt: Vec)
    requires |pt| == dimension && |displacement| == dimension
    ensures mappedPt == Translate(pt, displacement)
  {
    mappedPt := [];
    for j := 0 to dimension
      invariant |mappedPt| == j
      invariant forall k :: 0 <= k < j ==> mappedPt[k] == pt[k] + displacement[k]
    {
      mappedPt := mappedPt + [pt[j] + displacement[j]];
    }
  }

  /** The new pixel value: the interpolated vector with each component negated. */
  method NegateComponents(val: Vec, dimension: nat) returns (outputVector: Vec)
    requires |val| == dimension
    ensures outputVector == Negated(val)
  {
    outputVector := [];
    for j := 0 to dimension
      invariant |outputVector| == j
      invariant forall k :: 0 <= k < j ==> outputVector[k] == -val[k]
    {
      outputVector := outputVector + [-val[j]];
    }
  }

  /** One sweep of the fixed-point scheme over `buffer`, in raster order and in
      place: each pixel is mapped by the value it currently holds and, when the
      interpolator accepts the mapped point, overwritten by the negated
      interpolated vector. */
  method SweepBuffer(input: Interpolator, g: Geometry, buffer: array<Vec>) returns (ghost evaluations: nat)
    requires input.Valid() && g.HasDimension(input.dimension)
    requires IsField(buffer[..], GridPoints(g), input.dimension)
    modifies buffer
    ensures buffer[..] == Sweep(input, GridPoints(g), old(buffer[..]))
    ensures evaluations == SweepPrefixEvaluations(input, GridPoints(g), old(buffer[..]), buffer.Length)
  {
    ghost var points := GridPoints(g);
    ghost var before := buffer[..];
    evaluations := 0;
    var pos := 0;
    while pos < buffer.Length
      invariant 0 <= pos <= buffer.Length
      invariant buffer[..] == SweepPrefix(input, points, before, pos)
      invariant evaluations == SweepPrefixEvaluations(input, points, before, pos)
    {
      var index := Unflatten(pos, g.size);
      var pt := PhysicalPoint(g, index);
      assert pt == points[pos];
      var displacement := buffer[pos];
      var mappedPt := ComputeMappedPoint(pt, displacement, input.dimension);
      if input.isInsideBuffer(mappedPt) {
        var val := input.evaluate(mappedPt);
        evaluations := evaluations + 1;
        var outputVector := NegateComponents(val, input.dimension);
        buffer[pos] := outputVector;
      }
      pos := pos + 1;
    }
  }

  /** `count` sweeps over `buffer`, one after another, all in the same buffer. */
  method RunSweeps(input: Interpolator, g: Geometry, buffer: array<Vec>, count: nat)
    returns (ghost sweeps: nat, ghost evaluations: nat)
    requires input.Valid() && g.HasDimension(input.dimension)
    requires IsField(buffer[..], GridPoints(g), input.dimension)
    modifies buffer
    ensures buffer[..] == Sweeps(input, GridPoints(g), old(buffer[..]), count)
    ensures sweeps == count
    ensures evaluations == SweepsEvaluations(input, GridPoints(g), old(buffer[..]), count)
  {
    ghost var points := GridPoints(g);
    ghost var start := buffer[..];
    sweeps, evaluations := 0, 0;
    for i := 0 to count
      invariant sweeps == i
      invariant buffer[..] == Sweeps(input, points, start, i)
      invariant evaluations == SweepsEvaluations(input, points, start, i)
    {
      ghost var sweepEvaluations := SweepBuffer(input, g, buffer);
      evaluations := evaluations + sweepEvaluations;
      sweeps := sweeps + 1;
    }
  }

  class FixedPointInverseDisplacementFieldImageFilter {
    /** The dimension of the output image, which the input image shares. */
    const imageDimension: nat
    var numberOfIterations: nat
    var size: seq<nat>
    var outputSpacing: seq<real>
    var outputOrigin: seq<real>
    const output: VectorImage

    ghost predicate Valid()
      reads this, output
    {
      && |size| == imageDimension
      && |outputSpacing| == imageDimension
      && |outputOrigin| == imageDimension
      && output.dimension == imageDimension
      && output.Valid()
    }

    /** The grid the configuration asks for. */
    function ConfiguredGeometry(): (g: Geometry)
      reads this
    {
      Geometry(size, outputSpacing, outputOrigin)
    }

    /** Five iterations, and per axis size 0, spacing 1 and origin 0. */
    constructor (imageDimension: nat)
      ensures Valid() && fresh(output)
      ensures this.imageDimension == imageDimension
      ensures numberOfIterations == 5
      ensures forall j :: 0 <= j < imageDimension ==>
        size[j] == 0 && outputSpacing[j] == 1.0 && outputOrigin[j] == 0.0
    {
      var zeroSize: seq<nat> := [];
      for i := 0 to imageDimension
        invariant |zeroSize| == i && forall k :: 0 <= k < i ==> zeroSize[k] == 0
      {
        zeroSize := zeroSize + [0];
      }
      this.imageDimension := imageDimension;
      numberOfIterations := 5;
      outputSpacing := seq(imageDimension, _ => 1.0);
      outputOrigin := Zero(imageDimension);
      size := zeroSize;
      output := new VectorImage(imageDimension);
    }

    method SetNumberOfIterations(iterations: nat)
      requires Valid()
      modifies this
      ensures Valid() && numberOfIterations == iterations
      ensures size == old(size) && outputSpacing == old(outputSpacing) && outputOrigin == old(outputOrigin)
    {
      numberOfIterations := iterations;
    }

    method GetNumberOfIterations() returns (iterations: nat)
      ensures iterations == numberOfIterations
    {
      iterations := numberOfIterations;
    }

    method SetSize(newSize: seq<nat>)
      requires Valid() && |newSize| == imageDimension
      modifies this
      ensures Valid() && size == newSize
      ensures numberOfIterations == old(numberOfIterations)
      ensures outputSpacing == old(outputSpacing) && outputOrigin == old(outputOrigin)
    {
      size := newSize;
    }

    method GetSize() returns (currentSize: seq<nat>)
      ensures currentSize == size
    {
      currentSize := size;
    }

    method SetOutputSpacing(spacing: seq<real>)
      requires Valid() && |spacing| == imageDimension
      modifies this
      ensures Valid() && outputSpacing == spacing
      ensures numberOfIterations == old(numberOfIterations)
      ensures size == old(size) && outputOrigin == old(outputOrigin)
    {
      outputSpacing := spacing;
    }

    /** Spacing given as a C array: its first `imageDimension` entries become the spacing. */
    method SetOutputSpacingFromArray(values: array<real>)
      requires Valid() && values.Length >= imageDimension
      modifies this
      ensures Valid() && outputSpacing == values[..imageDimension]
      ensures numberOfIterations == old(numberOfIterations)
      ensures size == old(size) && outputOrigin == old(outputOrigin)
    {
      SetOutputSpacing(values[..imageDimension]);
    }

    method GetOutputSpacing() returns (spacing: seq<real>)
      ensures spacing == outputSpacing
    {
      spacing := outputSpacing;
    }

    method SetOutputOrigin(origin: seq<real>)
      requires Valid() && |origin| == imageDimension
      modifies this
      ensures Valid() && outputOrigin == origin
      ensures numberOfIterations == old(numberOfIterations)
      ensures size == old(size) && outputSpacing == old(outputSpacing)
    {
      outputOrigin := origin;
    }

    /** Origin given as a C array: its first `imageDimension` entries become the origin. */
    method SetOutputOriginFromArray(values: array<real>)
      requires Valid() && values.Length >= imageDimension
      modifies this
      ensures Valid() && outputOrigin == values[..imageDimension]
      ensures numberOfIterations == old(numberOfIterations)
      ensures size == old(size) && outputSpacing == old(outputSpacing)
    {
      SetOutputOrigin(values[..imageDimension]);
    }

    /** The output image gets exactly the configured size, spacing and origin. */
    method GenerateOutputInformation()
      requires Valid()
      modifies output
      ensures Valid()
      ensures output.GridGeometry() == ConfiguredGeometry()
      ensures output.buffer == old(output.buffer)
    {
      output.size := size;
      output.spacing := outputSpacing;
      output.origin := outputOrigin;
    }

    /** Fill the output by the fixed-point scheme: a zero buffer, then
        `numberOfIterations + 1` sweeps in raster order over the one buffer.
        `sweeps` counts the sweeps and `evaluations` the interpolator evaluations. */
    method GenerateData(input: Interpolator) returns (ghost sweeps: nat, ghost evaluations: nat)
      requires Valid() && input.Valid() && input.dimension == imageDimension
      modifies output
      ensures Valid() && output.GridGeometry() == old(output.GridGeometry())
      ensures fresh(output.buffer)
      ensures output.buffer[..] == Inverse(input, output.GridGeometry(), numberOfIterations)
      ensures sweeps == numberOfIterations + 1
      ensures evaluations == InverseEvaluations(input, output.GridGeometry(), numberOfIterations)
      ensures evaluations <= sweeps * |output.buffer[..]|
    {
      var g := output.GridGeometry();
      ghost var zero := ZeroField(GridPoints(g), imageDimension);
      output.Allocate();
      output.FillBuffer(Zero(imageDimension));
      var buffer := output.buffer;
      assert buffer[..] == zero;

      sweeps, evaluations := RunSweeps(input, g, buffer, numberOfIterations + 1);
      InverseEvaluationsBound(input, g, numberOfIterations);
    }

    /** A pipeline update: output information first, then the data. */
    method Update(input: Interpolator) returns (ghost evaluations: nat)
      requires Valid() && input.Valid() && input.dimension == imageDimension
      modifies output
      ensures Valid() && output.GridGeometry() == ConfiguredGeometry()
      ensures output.buffer[..] == Inverse(input, ConfiguredGeometry(), numberOfIterations)
      ensures evaluations <= (numberOfIterations + 1) * CellCount(size)
    {
      GenerateOutputInformation();
      ghost var sweeps;
      sweeps, evaluations := GenerateData(input);
    }
  }
}
