# simple-registration in Dafny

A model of the point-based and surface-based rigid registration core of
simple-registration. The original is written in C++ on Eigen 3xN point sets.
The model covers four things:

- **Geometry helpers** (module `Util`):
  - tolerance comparison;
  - the centroid of a point set;
  - residuals about a point;
  - per-column distances;
  - composing a 4x4 homogeneous transform from a rotation and a translation;
  - applying such a transform to every point of a set.
- **The closed-form rigid estimator of Arun, Huang and Blostein (1987)** (module `PointMatching`). It computes:
  - both centroids;
  - both centred residual sets;
  - the cross-covariance H = Q * Q'^T;
  - the translation p' - R * p.

  The rotation R that the singular value decomposition of H yields is an abstract function of H.
- **Closest-point matching** (module `SurfaceBasedRegistration`):
  - `find_closest_points` is an imperative method over a `lookup_table` array and a `used` array. It is proved equal to a functional specification of its two nested loops.
  - `reorder_points` is a loop that overwrites the columns of a copy. It is proved equal to a column gather.
- **The iterative-closest-point loop of `register_surfaces`**:
  - a do-while with the rigid estimator and the registration-error measure as given functions;
  - a fuel bound on the number of passes.

The loop is proved equal to a recursive specification `Run`. Lemmas about
`Run` state when the loop stops and what it returns.

Coordinates are Dafny `real`s, so the model is exact arithmetic. Distances are
compared squared. For non-negative values, squaring orders them the same way the
Euclidean norms of the original do. The 1E10 sentinel of the matcher becomes
1E10 * 1E10.

Code/PointMatching/PointMatching.cc:6-13 repeats `find_pointset_average`
and the residuals of Code/PointMatching/Util.cc under the name
`residuals_from_average`. Both copies are modelled once, by
`Util.FindPointsetAverage` and `Util.ResidualsFromPoint`.

Matrices are row-major sequences of rows (module `LinAlg`). A `PointSet` has
exactly three rows of equal length, one point per column.

## Model

| member | source | states |
|---|---|---|
| Util.Abs | Code/PointMatching/Util.cc:9 | the absolute value is non-negative and is x or -x |
| Util.IsApproxEqual | Code/PointMatching/Util.cc:7-11 | a and b are equal within eps exactly when each is strictly less than the other plus eps |
| Util.ApproxEqualSymmetric | Code/PointMatching/Util.cc:7-11 | the comparison is symmetric in a and b |
| Util.ApproxEqualIsStrict | Code/PointMatching/Util.cc:7-11 | a difference of exactly eps is not within tolerance, in either order |
| Util.IsApproxEqualDefault | Code/PointMatching/Util.cc:13-16 | the two-argument form compares with tolerance 0.001, and any value equals itself |
| Util.FindPointsetAverage | Code/PointMatching/Util.cc:18-21 | for a non-empty set, each coordinate of the centroid times the column count is that row's sum (the row-wise mean) |
| Util.AverageOfRepeatedPoint | Code/PointMatching/Util.cc:18-21 | a set whose columns are all the same point has that point as its centroid |
| Util.AverageOfTranslated | Code/PointMatching/Util.cc:18-21 | moving every point by c moves the centroid by c |
| Util.ResidualsFromPoint | Code/PointMatching/Util.cc:23-25 | the shape is kept; column i is input column i minus the point, and adding the point back restores it |
| Util.ResidualsAboutAverageSumToZero | Code/PointMatching/Util.cc:18-25 | residuals about the set's own centroid sum to zero in every row |
| Util.CentredResidualsTranslationInvariant | Code/PointMatching/Util.cc:18-25 | translating a set leaves its residuals about its own centroid unchanged |
| Util.SquaredDistancesBetweenPointsets | Code/PointMatching/Util.cc:27-29 | for two sets of the same shape: one non-negative squared distance per column, zero wherever the two columns coincide |
| Util.DistancesSymmetric | Code/PointMatching/Util.cc:27-29 | the per-column distances do not depend on the order of the two sets |
| Util.ComposeFinalTransform | Code/PointMatching/Util.cc:35-45 | the rotation fills the top-left 3x3 block, the translation the top-right 3x1 block, and the bottom row is (0, 0, 0, 1) |
| Util.ComposeFinalTransformUnique | Code/PointMatching/Util.cc:35-45 | any 4x4 matrix with that block layout is the composed transform |
| Util.ApplyTransform | Code/PointMatching/Util.cc:47-59 | the result has three rows and as many columns as the input |
| Util.ApplyTransformIsAugmentedProduct | Code/PointMatching/Util.cc:47-59 | the result is the top three rows of the transform times the set augmented with a row of ones |
| Util.ApplyTransformIgnoresBottomRow | Code/PointMatching/Util.cc:47-59 | two transforms that agree on their top three rows move every set alike |
| Util.ApplyComposedTransform | Code/PointMatching/Util.cc:35-59 | applying the composition of R and t maps each point p to R * p + t |
| Util.ApplyIdentityTransform | Code/PointMatching/Util.cc:35-59 | the composition of the identity and the zero translation leaves every set unchanged |
| PointMatching.CrossCovariance | Code/PointMatching/PointMatching.cc:22 | for two sets with the same column count, H is 3x3 and H[r][c] is the sum over points of q[r][i] * q'[c][i] |
| PointMatching.CrossCovarianceSwap | Code/PointMatching/PointMatching.cc:22 | exchanging the two sets transposes H |
| PointMatching.EstimateRigidTransform | Code/PointMatching/PointMatching.cc:15-28 | the estimate holds both centroids, the H of the centred sets, the rotation proposed for H, and a translation with R * p + translation = p' |
| PointMatching.EstimateMapsCentroidOntoCentroid | Code/PointMatching/PointMatching.cc:26-28 | the composed estimate, applied to the source centroid, yields the target centroid, whatever rotation is proposed |
| PointMatching.EstimateUnderTargetTranslation | Code/PointMatching/PointMatching.cc:16-28 | moving the target set by c leaves H and the rotation unchanged and moves the translation by c |
| PointMatching.EstimateUnderSourceTranslation | Code/PointMatching/PointMatching.cc:16-28 | moving the source set by c leaves H and the rotation unchanged and takes R * c off the translation |
| PointMatching.EstimateSwapTransposesH | Code/PointMatching/PointMatching.cc:15-22 | exchanging source and target transposes H |
| SurfaceBasedRegistration.SquaredDistance | Code/PointMatching/SurfaceBasedRegistration.cc:19-20 | the squared distance between a point of surface 1 and a candidate of surface 2 is non-negative |
| SurfaceBasedRegistration.Initial | Code/PointMatching/SurfaceBasedRegistration.cc:4-10 | the initialisation loop leaves one 0 entry and one false flag per column of surface 1 |
| SurfaceBasedRegistration.Scan | Code/PointMatching/SurfaceBasedRegistration.cc:17-28 | the inner loop keeps every entry 0 or a column of surface 2, and changes no entry but j |
| SurfaceBasedRegistration.MatchPoint | Code/PointMatching/SurfaceBasedRegistration.cc:14-28 | the scan for point j, started at the sentinel, changes no entry but j |
| SurfaceBasedRegistration.MatchFirst | Code/PointMatching/SurfaceBasedRegistration.cc:13-29 | after the scans for points 0 .. j-1 both arrays have one slot per column of surface 1, and every entry is 0 or a column of surface 2 |
| SurfaceBasedRegistration.ClosestPoints | Code/PointMatching/SurfaceBasedRegistration.cc:3-32 | the table has one entry per column of surface 1, and each entry is 0 or a column of surface 2 |
| SurfaceBasedRegistration.FirstClosestUnique | Code/PointMatching/SurfaceBasedRegistration.cc:15-26 | at most one column is the first closest unused candidate |
| SurfaceBasedRegistration.ScanTakeStep | Code/PointMatching/SurfaceBasedRegistration.cc:21-25 | taking a closer unused column (release the held column, record k, flag k, lower the best distance) keeps the scan invariant |
| SurfaceBasedRegistration.ScanSkipStep | Code/PointMatching/SurfaceBasedRegistration.cc:17-27 | passing over a used or no-closer column keeps the scan invariant |
| SurfaceBasedRegistration.ScanFromInvariant | Code/PointMatching/SurfaceBasedRegistration.cc:17-28 | from any state meeting the invariant, the scan either takes nothing, when no column was a candidate, or ends holding the first closest candidate, with only column 0 released besides |
| SurfaceBasedRegistration.ScanFindsFirstClosest | Code/PointMatching/SurfaceBasedRegistration.cc:15-28 | with no unused column closer than the sentinel both arrays stay as they were. Otherwise entry j becomes the lowest-indexed unused column at minimum distance (ties to the lower index), that column is flagged, column 0 is released, and nothing else changes |
| SurfaceBasedRegistration.MatchFirstFacts | Code/PointMatching/SurfaceBasedRegistration.cc:13-29 | after the scans for points 0 .. j-1: entries from j on are still 0, every non-zero entry is flagged used, and no non-zero entry is shared |
| SurfaceBasedRegistration.ClosestPointsInjectiveOffZero | Code/PointMatching/SurfaceBasedRegistration.cc:8-29 | no column other than 0 is assigned to two points |
| SurfaceBasedRegistration.ScanPoint | Code/PointMatching/SurfaceBasedRegistration.cc:14-28 | the in-place inner loop leaves the two arrays as the scan specification for point j says |
| SurfaceBasedRegistration.FindClosestPoints | Code/PointMatching/SurfaceBasedRegistration.cc:3-32 | the in-place nested loops return the specified table: one entry per column of surface 1, each 0 or a column of surface 2, and no non-zero entry repeated |
| SurfaceBasedRegistration.ColumnZeroReused | Code/PointMatching/SurfaceBasedRegistration.cc:7-29 | on a three-point example the table is [0, 1, 0]. Point 1's scan releases column 0, held by point 0, because its own entry still holds the initial 0. Point 2 then takes column 0 again, and column 2 is never matched |
| SurfaceBasedRegistration.Gather | Code/PointMatching/SurfaceBasedRegistration.cc:34-41 | the shape is kept and column i is column lookup_table[i] of the surface |
| SurfaceBasedRegistration.GatherIdentity | Code/PointMatching/SurfaceBasedRegistration.cc:34-41 | the identity table returns the surface unchanged |
| SurfaceBasedRegistration.GatherTwice | Code/PointMatching/SurfaceBasedRegistration.cc:34-41 | gathering twice is gathering once through the composed table |
| SurfaceBasedRegistration.ReorderPoints | Code/PointMatching/SurfaceBasedRegistration.cc:34-41 | overwriting the columns of a copy one by one, reading from the original, yields the gather |
| SurfaceBasedRegistration.Start | Code/PointMatching/SurfaceBasedRegistration.cc:44-50 | before the loop: the initial transform, the error of untransformed surface 2, and column i of the closest set is surface 2's column matched to point i |
| SurfaceBasedRegistration.Advance | Code/PointMatching/SurfaceBasedRegistration.cc:57-62 | a pass re-estimates the transform from surface 1 and the closest points, keeps the closest set's width, and measures the error of the new closest set under the new transform |
| SurfaceBasedRegistration.LoopBody | Code/PointMatching/SurfaceBasedRegistration.cc:52-63 | the loop body is defined on every state of the right width and keeps that width |
| SurfaceBasedRegistration.Iterate | Code/PointMatching/SurfaceBasedRegistration.cc:52-63 | the state at the head of every pass keeps the width |
| SurfaceBasedRegistration.IterateShift | Code/PointMatching/SurfaceBasedRegistration.cc:52-63 | n passes from the state after one pass are n + 1 passes from the start |
| SurfaceBasedRegistration.ImprovesThroughShift | Code/PointMatching/SurfaceBasedRegistration.cc:52-63 | passes 0 .. n lower the error exactly when pass 0 does and passes 0 .. n-1 from the next state do |
| SurfaceBasedRegistration.RunStopsAtFirstFailure | Code/PointMatching/SurfaceBasedRegistration.cc:52-65 | if pass n is the first that does not lower the error, and n is within the fuel, the loop returns the transform held before pass n |
| SurfaceBasedRegistration.RunOutOfFuel | Code/PointMatching/SurfaceBasedRegistration.cc:52-65 | the loop runs out of fuel exactly when each of the first `fuel` passes lowers the error |
| SurfaceBasedRegistration.RunConverged | Code/PointMatching/SurfaceBasedRegistration.cc:52-65 | a loop that returns a transform stopped at the first pass that failed to lower the error, and returns the transform from before it |
| SurfaceBasedRegistration.ConvergedErrorsDecrease | Code/PointMatching/SurfaceBasedRegistration.cc:52-65 | in a run that returns, the errors at successive loop heads strictly decrease, the last pass does not lower the error, and the result is the transform from one pass before the last |
| SurfaceBasedRegistration.MatchAndReorder | Code/PointMatching/SurfaceBasedRegistration.cc:44-45 | matching surface 1 against a moved set and gathering from untransformed surface 2 yields the gather through the specified table |
| SurfaceBasedRegistration.Pass | Code/PointMatching/SurfaceBasedRegistration.cc:57-62 | the statements of one pass compute exactly `Advance` of the current closest points |
| SurfaceBasedRegistration.PassOutcome | Code/PointMatching/SurfaceBasedRegistration.cc:52-63 | after one pass the loop goes on from the new state if the error fell, and otherwise returns the transform held before the pass |
| SurfaceBasedRegistration.RepeatWhileImproving | Code/PointMatching/SurfaceBasedRegistration.cc:52-65 | the do-while returns what `Run` specifies for the loop variables it is entered with |
| SurfaceBasedRegistration.RegisterSurfaces | Code/PointMatching/SurfaceBasedRegistration.cc:43-66 | `register_surfaces` returns what `Run` specifies from the starting state, with at most `fuel` passes |

## Left out

- The singular value decomposition of H and the rotation V * U^T (Code/PointMatching/PointMatching.cc:24-26). The rotation is an arbitrary function `svdRotation` of H. No orthogonality, reflection or degeneracy handling is modelled, because the code has none.
- `sqrt`, `norm` and `root_mean_square` (Code/PointMatching/Util.cc:28, 31-33). Dafny reals have no square root, so `distances_between_pointsets` and the matcher's distance are modelled squared, which preserves every comparison the matcher makes.
- SquaredDistancesBetweenPointsets: states non-negativity and zero on equal columns, but not that a zero distance means equal columns.
- `fiducial_registration_error` is only declared in Code/PointMatching/PointMatching.hpp. The registration loop takes it as the parameter `registrationError`.
- The rigid estimator is declared in Code/PointMatching/PointMatching.hpp to return a 4x4 transform, but the body shown in Code/PointMatching/PointMatching.cc returns nothing. `EstimateRigidTransform` returns the values that body computes. The registration loop takes the estimator as the parameter `estimate`.
- Input checks that the code does not perform are not modelled: no minimum of four points and no error results. Where the code would read out of range, the model states a precondition instead:
  - a centroid needs at least one column;
  - the estimator needs two sets with the same column count.
- FindClosestPoints: requires surface 2 to have at most as many columns as surface 1. The `used` array has one slot per column of surface 1 but is indexed by the columns of surface 2, so a wider surface 2 would index out of bounds.
- RegisterSurfaces: the transform is uninitialised where the code declares it (Code/PointMatching/SurfaceBasedRegistration.cc:46), yet it is used for the first error and can be returned. The model takes it as the explicit parameter `transformInit`.
- RegisterSurfaces: the do-while has no iteration cap. The model runs at most `fuel` passes and returns `OutOfFuel` when they are used up. Convergence of the loop is not modelled.
- RegisterSurfaces: the do-while is written as three methods: `RepeatWhileImproving` for the loop, `Pass` for one pass and `MatchAndReorder` for the match-and-gather step. This is the same sequence of statements the source runs.
- The `transform_init` overload of `register_surfaces` and `find_rotation` are declared without bodies and are not part of this model.
- File input and output are outside the model:
  - `load_pointcloud_from_file`, `load_transform_from_file` and `write_matrix_to_file` (Code/PointMatching/Util.cc:61-132);
  - the triangle loader in Code/PointMatching/SurfaceBasedRegistrationCmd.cc.
- The command-line programs, the demo `main` of Code/PointMatching/PointMatching.cc, Code/HelloWorld/HelloWorld.cc and the exception object of Code/PointMatching/Exceptions.hpp are outside the model.
- Floating point: IEEE rounding, NaN and infinities are not modelled. All arithmetic is exact over the reals.
- Eigen's integer column indices (`int`, `Eigen::ArrayXi`) become natural numbers, because the code never forms a negative index.
