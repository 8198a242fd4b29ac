/** The geometry helpers of point-based registration: tolerance comparison,
    centroid, residuals, per-point distances, and building and applying a
    4x4 homogeneous rigid transform. */
module Util {
  import opened LinAlg

  function Abs(x: real): (a: real)
    ensures a >= 0.0 && (a == x || a == -x)
  {
    if x < 0.0 then -x else x
  }

  /** The tolerance used when none is given. */
  const DefaultTolerance: real := 0.001

  /** `a` and `b` differ by strictly less than `eps`. */
  function IsApproxEqual(a: real, b: real, eps: real): (equal: bool)
    ensures equal <==> a < b + eps && b < a + eps
  {
    Abs(a - b) < eps
  }

  /** The two-argument form: tolerance 0.001. */
  function IsApproxEqualDefault(a: real, b: real): (equal: bool)
    ensures equal <==> a < b + 0.001 && b < a + 0.001
    ensures a == b ==> equal
  {
    IsApproxEqual(a, b, DefaultTolerance)
  }

  lemma ApproxEqualSymmetric(a: real, b: real, eps: real)
    ensures IsApproxEqual(a, b, eps) == IsApproxEqual(b, a, eps)
  {
  }

  /** A difference of exactly `eps` is not within tolerance `eps`. */
  lemma ApproxEqualIsStrict(a: real, eps: real)
    ensures !IsApproxEqual(a + eps, a, eps) && !IsApproxEqual(a, a + eps, eps)
  {
  }

  /** The row-wise mean of a non-empty point set: the centroid. */
  function FindPointsetAverage(pointset: PointSet): (average: Vec3)
    requires Cols(pointset) > 0
    ensures forall r | 0 <= r < 3 :: average[r] * (Cols(pointset) as real) == Sum(pointset[r])
  {
    [Mean(pointset[0]), Mean(pointset[1]), Mean(pointset[2])]
  }

  /** A constant set averages to its single point. */
  lemma {:induction false} AverageOfRepeatedPoint(pointset: PointSet, point: Vec3)
    requires Cols(pointset) > 0
    requires forall i | 0 <= i < Cols(pointset) :: Col(pointset, i) == point
    ensures FindPointsetAverage(pointset) == point
  {
    var n := Cols(pointset);
    var zeros := seq(n, i => 0.0);
    SumOfZeros(zeros);
    forall r | 0 <= r < 3 ensures Mean(pointset[r]) == point[r] {
      forall i | 0 <= i < n ensures pointset[r][i] == zeros[i] + point[r] {
        assert Col(pointset, i)[r] == point[r];
      }
      MeanShift(zeros, pointset[r], point[r]);
    }
  }

  lemma {:induction false} SumOfZeros(s: Vector)
    requires forall i | 0 <= i < |s| :: s[i] == 0.0
    ensures Sum(s) == 0.0
  {
    if |s| > 0 {
      SumOfZeros(s[1..]);
    }
  }

  /** Moving every point by `c` moves the centroid by `c`. */
  lemma AverageOfTranslated(pointset: PointSet, c: Vec3)
    requires Cols(pointset) > 0
    ensures FindPointsetAverage(Translate(pointset, c)) == Add3(FindPointsetAverage(pointset), c)
  {
    var moved := Translate(pointset, c);
    forall r | 0 <= r < 3 ensures Mean(moved[r]) == Mean(pointset[r]) + c[r] {
      forall i | 0 <= i < Cols(pointset) ensures moved[r][i] == pointset[r][i] + c[r] {
        assert Col(moved, i)[r] == Add3(Col(pointset, i), c)[r];
      }
      MeanShift(pointset[r], moved[r], c[r]);
    }
  }

  /** `point` subtracted from every column. */
  function ResidualsFromPoint(pointset: PointSet, point: Vec3): (residuals: PointSet)
    ensures Cols(residuals) == Cols(pointset)
    ensures forall i | 0 <= i < Cols(pointset) ::
      Col(residuals, i) == Sub3(Col(pointset, i), point) &&
      Add3(Col(residuals, i), point) == Col(pointset, i)
  {
    var n := Cols(pointset);
    seq(3, r requires 0 <= r < 3 => seq(n, i requires 0 <= i < n => pointset[r][i] - point[r]))
  }

  /** Residuals about the set's own centroid sum to zero in every row. */
  lemma ResidualsAboutAverageSumToZero(pointset: PointSet)
    requires Cols(pointset) > 0
    ensures var q := ResidualsFromPoint(pointset, FindPointsetAverage(pointset));
      forall r | 0 <= r < 3 :: Sum(q[r]) == 0.0
  {
    var average := FindPointsetAverage(pointset);
    var q := ResidualsFromPoint(pointset, average);
    var n := Cols(pointset);
    forall r | 0 <= r < 3 ensures Sum(q[r]) == 0.0 {
      forall i | 0 <= i < n ensures q[r][i] == pointset[r][i] - average[r] {
        assert Col(q, i)[r] == Sub3(Col(pointset, i), average)[r];
      }
      SumLessConstant(pointset[r], q[r], average[r]);
    }
  }

  /** Residuals of a translated set about its own centroid are those of the original set. */
  lemma CentredResidualsTranslationInvariant(pointset: PointSet, c: Vec3)
    requires Cols(pointset) > 0
    ensures var moved := Translate(pointset, c);
      ResidualsFromPoint(moved, FindPointsetAverage(moved))
      == ResidualsFromPoint(pointset, FindPointsetAverage(pointset))
  {
    var moved := Translate(pointset, c);
    var average := FindPointsetAverage(pointset);
    AverageOfTranslated(pointset, c);
    assert FindPointsetAverage(moved) == Add3(average, c);
    var a := ResidualsFromPoint(moved, Add3(average, c));
    var b := ResidualsFromPoint(pointset, average);
    forall i | 0 <= i < Cols(pointset) ensures Col(a, i) == Col(b, i) {
    }
    PointSetsEqual(a, b);
  }

  /** Per-column squared Euclidean distance between two sets of the same shape. */
  function SquaredDistancesBetweenPointsets(pointset: PointSet, pointsetDash: PointSet): (d: Vector)
    requires Cols(pointsetDash) == Cols(pointset)
    ensures |d| == Cols(pointset)
    ensures forall i | 0 <= i < |d| :: d[i] >= 0.0
    ensures forall i | 0 <= i < |d| && Col(pointset, i) == Col(pointsetDash, i) :: d[i] == 0.0
  {
    var n := Cols(pointset);
    seq(n, i requires 0 <= i < n => SquaredNorm(Sub3(Col(pointset, i), Col(pointsetDash, i))))
  }

  lemma DistancesSymmetric(pointset: PointSet, pointsetDash: PointSet)
    requires Cols(pointsetDash) == Cols(pointset)
    ensures SquaredDistancesBetweenPointsets(pointset, pointsetDash)
         == SquaredDistancesBetweenPointsets(pointsetDash, pointset)
  {
    var a := SquaredDistancesBetweenPointsets(pointset, pointsetDash);
    var b := SquaredDistancesBetweenPointsets(pointsetDash, pointset);
    forall i | 0 <= i < |a| ensures a[i] == b[i] {
      var u, v := Col(pointset, i), Col(pointsetDash, i);
      forall r | 0 <= r < 3 ensures (u[r] - v[r]) * (u[r] - v[r]) == (v[r] - u[r]) * (v[r] - u[r]) {
        var x := u[r] - v[r];
        assert v[r] - u[r] == -x;
      }
    }
  }

  /** The 4x4 homogeneous matrix with `rotation` in the top-left 3x3 block,
      `translation` in the top-right 3x1 block and bottom row (0, 0, 0, 1). */
  function ComposeFinalTransform(rotation: Mat3, translation: Vec3): (transform: Mat4)
    ensures forall r, c | 0 <= r < 3 && 0 <= c < 3 :: transform[r][c] == rotation[r][c]
    ensures forall r | 0 <= r < 3 :: transform[r][3] == translation[r]
    ensures transform[3] == [0.0, 0.0, 0.0, 1.0]
  {
    [rotation[0] + [translation[0]],
     rotation[1] + [translation[1]],
     rotation[2] + [translation[2]],
     [0.0, 0.0, 0.0, 1.0]]
  }

  /** The block layout determines the composed transform. */
  lemma ComposeFinalTransformUnique(rotation: Mat3, translation: Vec3, transform: Mat4)
    requires forall r, c | 0 <= r < 3 && 0 <= c < 3 :: transform[r][c] == rotation[r][c]
    requires forall r | 0 <= r < 3 :: transform[r][3] == translation[r]
    requires transform[3] == [0.0, 0.0, 0.0, 1.0]
    ensures transform == ComposeFinalTransform(rotation, translation)
  {
    var t := ComposeFinalTransform(rotation, translation);
    forall r | 0 <= r < 4 ensures transform[r] == t[r] {
      if r < 3 {
        forall c | 0 <= c < 4 ensures transform[r][c] == t[r][c] {
        }
      }
    }
  }

  /** The point set with a row of ones appended (homogeneous coordinates). */
  function Augment(pointset: PointSet): (augmented: Matrix)
    ensures Shape(augmented, 4, Cols(pointset))
  {
    PointSetShape(pointset);
    [pointset[0], pointset[1], pointset[2], seq(Cols(pointset), i => 1.0)]
  }

  /** Entry (r, i) of transform * augmented is the affine image of point i. */
  lemma AugmentedProduct(transform: Mat4, pointset: PointSet)
    ensures var product := Mul(transform, Augment(pointset), 4, 4, Cols(pointset));
      forall r, i | 0 <= r < 4 && 0 <= i < Cols(pointset) ::
        product[r][i] == transform[r][0] * pointset[0][i] + transform[r][1] * pointset[1][i]
                       + transform[r][2] * pointset[2][i] + transform[r][3]
  {
    var n := Cols(pointset);
    var augmented := Augment(pointset);
    forall r, i | 0 <= r < 4 && 0 <= i < n
      ensures Dot(transform[r], Column(augmented, 4, i))
           == transform[r][0] * pointset[0][i] + transform[r][1] * pointset[1][i]
            + transform[r][2] * pointset[2][i] + transform[r][3]
    {
      var column := Column(augmented, 4, i);
      assert column == [pointset[0][i], pointset[1][i], pointset[2][i], 1.0];
      Dot4(transform[r], column);
    }
  }

  /** Each point p moved to the affine image of p under the top three rows
      of `transform`: what the source obtains by multiplying the augmented
      set by `transform` and dropping the fourth row (see
      `ApplyTransformIsAugmentedProduct`). */
  function ApplyTransform(pointset: PointSet, transform: Mat4): (transformed: PointSet)
    ensures Cols(transformed) == Cols(pointset)
  {
    var n := Cols(pointset);
    seq(3, r requires 0 <= r < 3 => seq(n, i requires 0 <= i < n =>
      transform[r][0] * pointset[0][i] + transform[r][1] * pointset[1][i]
      + transform[r][2] * pointset[2][i] + transform[r][3]))
  }

  /** The transformed set is the top three rows of transform * augmented. */
  lemma ApplyTransformIsAugmentedProduct(pointset: PointSet, transform: Mat4)
    ensures ApplyTransform(pointset, transform)
         == Mul(transform, Augment(pointset), 4, 4, Cols(pointset))[..3]
  {
    var product := Mul(transform, Augment(pointset), 4, 4, Cols(pointset));
    var transformed := ApplyTransform(pointset, transform);
    AugmentedProduct(transform, pointset);
    forall r | 0 <= r < 3 ensures transformed[r] == product[r] {
      forall i | 0 <= i < Cols(pointset) ensures transformed[r][i] == product[r][i] {
      }
    }
  }

  /** The bottom row of the transform plays no part. */
  lemma ApplyTransformIgnoresBottomRow(pointset: PointSet, t1: Mat4, t2: Mat4)
    requires t1[..3] == t2[..3]
    ensures ApplyTransform(pointset, t1) == ApplyTransform(pointset, t2)
  {
    var a, b := ApplyTransform(pointset, t1), ApplyTransform(pointset, t2);
    forall r | 0 <= r < 3 ensures t1[r] == t2[r] {
      assert t1[..3][r] == t2[..3][r];
    }
    forall i | 0 <= i < Cols(pointset) ensures Col(a, i) == Col(b, i) {
    }
    PointSetsEqual(a, b);
  }

  /** Applying the composition of `rotation` and `translation` maps each point p to rotation * p + translation. */
  lemma ApplyComposedTransform(pointset: PointSet, rotation: Mat3, translation: Vec3)
    ensures var transformed := ApplyTransform(pointset, ComposeFinalTransform(rotation, translation));
      forall i | 0 <= i < Cols(pointset) ::
        Col(transformed, i) == Add3(MatVec(rotation, Col(pointset, i)), translation)
  {
    var transform := ComposeFinalTransform(rotation, translation);
    var transformed := ApplyTransform(pointset, transform);
    forall i | 0 <= i < Cols(pointset)
      ensures Col(transformed, i) == Add3(MatVec(rotation, Col(pointset, i)), translation)
    {
      var p := Col(pointset, i);
      var expected := Add3(MatVec(rotation, p), translation);
      forall r | 0 <= r < 3 ensures transformed[r][i] == expected[r] {
        assert transformed[r][i] == transform[r][0] * p[0] + transform[r][1] * p[1]
                                  + transform[r][2] * p[2] + transform[r][3];
        assert transform[r][0] == rotation[r][0] && transform[r][1] == rotation[r][1];
        assert transform[r][2] == rotation[r][2] && transform[r][3] == translation[r];
      }
    }
  }

  /** The identity rotation with zero translation leaves every point where it is. */
  lemma ApplyIdentityTransform(pointset: PointSet)
    ensures ApplyTransform(pointset, ComposeFinalTransform(Identity3(), Zero3())) == pointset
  {
    var transformed := ApplyTransform(pointset, ComposeFinalTransform(Identity3(), Zero3()));
    ApplyComposedTransform(pointset, Identity3(), Zero3());
    forall i | 0 <= i < Cols(pointset) ensures Col(transformed, i) == Col(pointset, i) {
    }
    PointSetsEqual(transformed, pointset);
  }
}
