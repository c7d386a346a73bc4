# Fixed-point inversion of a displacement field

This project models ITK's `FixedPointInverseDisplacementFieldImageFilter`. The filter
inverts a displacement field by the fixed-point scheme of Chen et al. ("A simple
fixed-point approach to invert a deformation field", Medical Physics 35(1):81).

The filter's configuration is:
- an iteration count N (default 5);
- an output size (default 0 per axis);
- an output spacing (default 1.0 per axis);
- an output origin (default 0.0 per axis).

`GenerateOutputInformation` gives the output image that grid. `GenerateData` works as follows:
1. It allocates the output buffer and fills it with the zero vector.
2. It runs N + 1 sweeps over that one buffer. Each sweep visits the pixels in raster order, first axis fastest.
3. At each pixel it computes the mapped point: the pixel's physical point (origin + index × spacing) plus the vector the pixel currently holds.
4. If the input's linear interpolator reports the mapped point inside its buffer, the pixel gets the negated interpolated vector. Otherwise the pixel is left alone.

Modules:
- `ImageGeometry` (geometry.dfy): vectors and grids. It defines the pixel count of a region, the raster order as a position ↔ index bijection (`Unflatten`/`Flatten`), and the index-to-physical-point transform.
- `Interpolation` (interpolator.dfy): the input's interpolator, seen only through its two queries, `IsInsideBuffer` and `Evaluate`. `Evaluate` is a partial function that may only be called where `IsInsideBuffer` holds.
- `FixedPointScheme` (fixed_point.dfy): the specification functions for one visit, a sweep, N + 1 sweeps and the filter's output (`Inverse`), plus counts of interpolator evaluations. It also holds the lemmas about them.
- `InverseFilter` (filter.dfy): the filter and its output image, as classes whose methods update fields and an `array` buffer in place. The sweep methods and `GenerateData` are proved against the functions of `FixedPointScheme`.
- `SweepCounter` (counter.dfy): the sweep loop's 32-bit unsigned counter, exactly as written (see Findings).

In-place versus synchronised update. A visit reads the pixel's current value, which earlier visits of the same sweep could in principle have changed. This is the Gauss-Seidel style of update, as opposed to the Jacobi style, which reads only values frozen at the previous sweep. Two facts decide between them:
- A visit reads and writes only its own pixel.
- The interpolator samples the input field, never the output.

So no visit sees another pixel's update, and the two readings give the same field. `SweepIsPointwise` proves this, and `SweepsAt` proves that each pixel follows its own orbit, independent of every other pixel.

Constant input field. For a constant input field c (a pure translation), the output is exact after the very first sweep:
- it is −c at every pixel whose own physical point lies inside the input;
- it is zero everywhere else;
- further iterations change nothing (`ConstantFieldInverse`).

## Model

Paths are relative to the repository root. Lines are those of the files.

| member | source | states |
|---|---|---|
| ImageGeometry.Unflatten | include/itkFixedPointInverseDisplacementFieldImageFilter.hxx:103-105 | the index visited at raster position p lies in the output region |
| ImageGeometry.FlattenUnflatten | include/itkFixedPointInverseDisplacementFieldImageFilter.hxx:103-105 | distinct raster positions visit distinct indices, so no pixel is visited twice in a sweep |
| ImageGeometry.UnflattenFlatten | include/itkFixedPointInverseDisplacementFieldImageFilter.hxx:103-105 | every index of the region occurs in the raster order, so no pixel is skipped |
| FixedPointScheme.SweepPrefixAt | include/itkFixedPointInverseDisplacementFieldImageFilter.hxx:103-123 | after k visits of a sweep, each visited pixel holds the refinement of its value from the sweep's start and every other pixel is unchanged, so a visit writes its own pixel and no other |
| FixedPointScheme.SweepPrefixUnvisited | include/itkFixedPointInverseDisplacementFieldImageFilter.hxx:105-111 | the value a visit reads is the one its pixel held when the sweep began: earlier writes of the sweep never reach it |
| FixedPointScheme.SweepIsPointwise | include/itkFixedPointInverseDisplacementFieldImageFilter.hxx:103-124 | the in-place raster-order sweep equals the synchronised update of every pixel from the previous sweep's values |
| FixedPointScheme.SweepsAt | include/itkFixedPointInverseDisplacementFieldImageFilter.hxx:101-125 | after m sweeps each pixel holds its own m-fold refinement of its starting value |
| FixedPointScheme.OrbitOfFixedPoint | include/itkFixedPointInverseDisplacementFieldImageFilter.hxx:114-123 | a value that one refinement leaves alone is kept by any number of sweeps |
| FixedPointScheme.InverseAt | include/itkFixedPointInverseDisplacementFieldImageFilter.hxx:84-125 | each output pixel is the (N + 1)-fold refinement of the zero vector |
| FixedPointScheme.ZeroFieldInvariant | include/itkFixedPointInverseDisplacementFieldImageFilter.hxx:84-123 | an input that interpolates to zero everywhere inside gives the all-zero output for every N |
| FixedPointScheme.BoundaryFreeze | include/itkFixedPointInverseDisplacementFieldImageFilter.hxx:84-123 | a pixel whose own physical point is outside the input stays zero for every N |
| FixedPointScheme.ConstantFieldInverse | include/itkFixedPointInverseDisplacementFieldImageFilter.hxx:101-125 | a constant input c gives exactly −c at every pixel whose physical point is inside the input and zero elsewhere, for every N |
| FixedPointScheme.ConstantFieldOrbit | include/itkFixedPointInverseDisplacementFieldImageFilter.hxx:105-122 | from zero, a pixel whose point is inside reaches −c at its first refinement and keeps it |
| FixedPointScheme.SweepPrefixEvaluationsCount | include/itkFixedPointInverseDisplacementFieldImageFilter.hxx:103-116 | a sweep evaluates the interpolator exactly once per pixel whose mapped point is inside |
| FixedPointScheme.InsideCountBound | include/itkFixedPointInverseDisplacementFieldImageFilter.hxx:114-116 | at most one evaluation per pixel, and exactly one each if and only if every mapped point is inside |
| FixedPointScheme.SweepsEvaluationsBound | include/itkFixedPointInverseDisplacementFieldImageFilter.hxx:101-116 | m sweeps make at most m evaluations per pixel, exactly that many if and only if every visit maps inside |
| FixedPointScheme.InverseEvaluationsBound | include/itkFixedPointInverseDisplacementFieldImageFilter.hxx:101-116 | a run makes at most (N + 1) × pixel-count evaluations, exactly that many if and only if every visit maps inside |
| InverseFilter.VectorImage.Allocate | include/itkFixedPointInverseDisplacementFieldImageFilter.hxx:79-80 | a fresh buffer with one pixel per index of the region; the grid is unchanged |
| InverseFilter.VectorImage.FillBuffer | include/itkFixedPointInverseDisplacementFieldImageFilter.hxx:84-86 | every pixel holds the given vector |
| InverseFilter.ComputeMappedPoint | include/itkFixedPointInverseDisplacementFieldImageFilter.hxx:108-111 | the mapped point is the physical point translated by the displacement, axis by axis |
| InverseFilter.NegateComponents | include/itkFixedPointInverseDisplacementFieldImageFilter.hxx:117-121 | the new pixel value is the interpolated vector negated, axis by axis |
| InverseFilter.SweepBuffer | include/itkFixedPointInverseDisplacementFieldImageFilter.hxx:103-124 | the in-place raster loop leaves exactly the specified sweep in the buffer, calls Evaluate only where IsInsideBuffer held, and counts its evaluations |
| InverseFilter.RunSweeps | include/itkFixedPointInverseDisplacementFieldImageFilter.hxx:101-125 | the outer loop performs exactly `count` sweeps and leaves their composition in the buffer |
| InverseFilter.FixedPointInverseDisplacementFieldImageFilter.constructor | include/itkFixedPointInverseDisplacementFieldImageFilter.hxx:29-38 | 5 iterations, and per axis size 0, spacing 1.0 and origin 0.0 |
| InverseFilter.FixedPointInverseDisplacementFieldImageFilter.SetNumberOfIterations | include/itkFixedPointInverseDisplacementFieldImageFilter.h:110 | the count becomes the given value; nothing else changes |
| InverseFilter.FixedPointInverseDisplacementFieldImageFilter.GetNumberOfIterations | include/itkFixedPointInverseDisplacementFieldImageFilter.h:111 | returns the value last set |
| InverseFilter.FixedPointInverseDisplacementFieldImageFilter.SetSize | include/itkFixedPointInverseDisplacementFieldImageFilter.h:115 | the size becomes the given value; nothing else changes |
| InverseFilter.FixedPointInverseDisplacementFieldImageFilter.GetSize | include/itkFixedPointInverseDisplacementFieldImageFilter.h:117 | returns the size last set |
| InverseFilter.FixedPointInverseDisplacementFieldImageFilter.SetOutputSpacing | include/itkFixedPointInverseDisplacementFieldImageFilter.h:120 | the spacing becomes the given value; nothing else changes |
| InverseFilter.FixedPointInverseDisplacementFieldImageFilter.SetOutputSpacingFromArray | include/itkFixedPointInverseDisplacementFieldImageFilter.hxx:44-51 | equivalent to setting the spacing built from the array's first ImageDimension values |
| InverseFilter.FixedPointInverseDisplacementFieldImageFilter.GetOutputSpacing | include/itkFixedPointInverseDisplacementFieldImageFilter.h:124 | returns the spacing last set |
| InverseFilter.FixedPointInverseDisplacementFieldImageFilter.SetOutputOrigin | include/itkFixedPointInverseDisplacementFieldImageFilter.h:127 | the origin becomes the given value; nothing else changes |
| InverseFilter.FixedPointInverseDisplacementFieldImageFilter.SetOutputOriginFromArray | include/itkFixedPointInverseDisplacementFieldImageFilter.hxx:56-63 | equivalent to setting the origin built from the array's first ImageDimension values |
| InverseFilter.FixedPointInverseDisplacementFieldImageFilter.GenerateOutputInformation | include/itkFixedPointInverseDisplacementFieldImageFilter.hxx:132-157 | the output gets exactly the configured size, spacing and origin |
| InverseFilter.FixedPointInverseDisplacementFieldImageFilter.GenerateData | include/itkFixedPointInverseDisplacementFieldImageFilter.hxx:67-126 | the output buffer holds `Inverse` of the input on the output grid, after exactly N + 1 sweeps and at most (N + 1) × pixel-count evaluations |
| InverseFilter.FixedPointInverseDisplacementFieldImageFilter.Update | include/itkFixedPointInverseDisplacementFieldImageFilter.hxx:132-157 | output information then data: the output is `Inverse` of the input on the configured grid |
| SweepCounter.Increment | include/itkFixedPointInverseDisplacementFieldImageFilter.hxx:101 | `i++` on an `unsigned int` is addition modulo 2^32 |
| SweepCounter.SweepsAsWrittenBelowMax | include/itkFixedPointInverseDisplacementFieldImageFilter.hxx:101 | with N below UINT_MAX the loop as written stops after exactly N + 1 sweeps |
| SweepCounter.SweepsAsWrittenAtMax | include/itkFixedPointInverseDisplacementFieldImageFilter.hxx:101 | with N equal to UINT_MAX the loop as written never stops |

The input and output share one dimension. The header states this as `SameDimensionCheck`
(include/itkFixedPointInverseDisplacementFieldImageFilter.h:134-135). In the model it appears as
the requirement `input.dimension == imageDimension` on `GenerateData` and `Update`, and as the
filter's `Valid()` invariant.

## Left out

- The ITK pipeline and object machinery are not modelled: `SmartPointer`, `New`, the type macros, `Modified`/MTime, buffered versus requested regions, and the null-pointer checks on the output and input. The output region is the whole configured grid, starting at the zero index.
- `GenerateInputRequestedRegion` is left out. It only asks the upstream filter for the whole input, which is pipeline plumbing.
- `PrintSelf` is left out because it only writes to a stream. The unused `TimeProbe` typedef is left out too.
- The internals of `VectorLinearInterpolateImageFunction` are not part of this model. The interpolator appears as two abstract functions, and every property holds for any interpolator whose `Evaluate` answers wherever `IsInsideBuffer` holds.
- Floating point is not modelled. Pixel values and coordinates are `real`, so rounding is absent.
- No convergence or monotone-refinement property is stated. The code performs no convergence test and promises nothing numerical.
- Direction cosines are taken as the identity. The filter never sets a direction, so the output inherits the input's direction through the superclass's `GenerateOutputInformation` (include/itkFixedPointInverseDisplacementFieldImageFilter.hxx:138). The model covers only inputs whose direction is the identity, where the physical point is origin + index × spacing.
- The code never checks that the spacing is positive. The model does not either, and no property depends on it.
- The test program is not modelled, because it only reads a file, runs the filter and writes a file. The packaging script is left out as well.
- InverseFilter.FixedPointInverseDisplacementFieldImageFilter.SetNumberOfIterations: the count is a `nat` rather than a 32-bit `unsigned int`. The loop's counter width is modelled separately in `SweepCounter`.
- InverseFilter.FixedPointInverseDisplacementFieldImageFilter.GenerateData: the sweep count and the evaluation count are ghost outputs. They are observations added by the model; the source returns nothing.

## Findings

| source | as written | input that shows it | evidently intended | confidence | as-written member | corrected member |
|---|---|---|---|---|---|---|
| include/itkFixedPointInverseDisplacementFieldImageFilter.hxx:101 | the sweep loop is `for (unsigned int i = 0; i <= m_NumberOfIterations; i++)`; when the count is UINT_MAX the test `i <= UINT_MAX` always holds and `i++` wraps to 0, so the loop never ends | `SetNumberOfIterations(4294967295)` followed by `Update()` | exactly N + 1 sweeps for every N the setter accepts | not executed | SweepCounter.SweepsAsWrittenAtMax | InverseFilter.RunSweeps |
