/** The closed-form rigid fit of Arun, Huang and Blostein (1987), up to the
    singular value decomposition: both centroids, both centred residual sets,
    the cross-covariance H = Q * Q'^T, and the translation that goes with a
    rotation. The rotation V * U^T that the SVD of H yields is taken as an
    abstract function of H. */
module PointMatching {
  import opened LinAlg
  import opened Util

  /** H = q * qDash^T: entry (r, c) is the sum over points of q[r][i] * qDash[c][i]. */
  function CrossCovariance(q: PointSet, qDash: PointSet): (h: Mat3)
    requires Cols(qDash) == Cols(q)
    ensures forall r, c | 0 <= r < 3 && 0 <= c < 3 :: h[r][c] == Dot(q[r], qDash[c])
  {
    var n := Cols(q);
    PointSetShape(q);
    PointSetShape(qDash);
    var qDashT := Transpose(qDash, 3, n);
    assert forall c | 0 <= c < 3 :: Column(qDashT, n, c) == qDash[c];
    Mul(q, qDashT, 3, n, 3)
  }

  /** Exchanging the two sets transposes H. */
  lemma CrossCovarianceSwap(q: PointSet, qDash: PointSet)
    requires Cols(qDash) == Cols(q)
    ensures CrossCovariance(qDash, q) == Transpose(CrossCovariance(q, qDash), 3, 3)
  {
    var h, hSwapped := CrossCovariance(q, qDash), CrossCovariance(qDash, q);
    var t := Transpose(h, 3, 3);
    forall r | 0 <= r < 3 ensures hSwapped[r] == t[r] {
      forall c | 0 <= c < 3 ensures hSwapped[r][c] == t[r][c] {
        DotSymmetric(qDash[r], q[c]);
      }
    }
  }

  /** What the estimator computes before the rotation is decided, and the
      rotation and translation that follow from it. */
  datatype RigidEstimate = RigidEstimate(
    centroid: Vec3,       // p, the centroid of the source set
    centroidDash: Vec3,   // p', the centroid of the target set
    h: Mat3,              // the cross-covariance of the centred sets
    rotation: Mat3,       // the rotation the SVD step proposes for h
    translation: Vec3)    // p' - rotation * p

  /** The body of `estimate_rigid_transform`, with `svdRotation` standing for
      the SVD of H followed by V * U^T. */
  function EstimateRigidTransform(pointset: PointSet, pointsetDash: PointSet,
                                  svdRotation: Mat3 -> Mat3): (e: RigidEstimate)
    requires Cols(pointset) > 0 && Cols(pointsetDash) == Cols(pointset)
    ensures e.centroid == FindPointsetAverage(pointset)
    ensures e.centroidDash == FindPointsetAverage(pointsetDash)
    ensures e.h == CrossCovariance(ResidualsFromPoint(pointset, e.centroid),
                                   ResidualsFromPoint(pointsetDash, e.centroidDash))
    ensures e.rotation == svdRotation(e.h)
    ensures Add3(MatVec(e.rotation, e.centroid), e.translation) == e.centroidDash
  {
    var p := FindPointsetAverage(pointset);
    var pDash := FindPointsetAverage(pointsetDash);
    var q := ResidualsFromPoint(pointset, p);
    var qDash := ResidualsFromPoint(pointsetDash, pDash);
    var h := CrossCovariance(q, qDash);
    var rotation := svdRotation(h);
    RigidEstimate(p, pDash, h, rotation, Sub3(pDash, MatVec(rotation, p)))
  }

  /** The estimate maps the source centroid exactly onto the target centroid,
      whatever rotation the SVD step proposes. */
  lemma EstimateMapsCentroidOntoCentroid(pointset: PointSet, pointsetDash: PointSet,
                                         svdRotation: Mat3 -> Mat3)
    requires Cols(pointset) > 0 && Cols(pointsetDash) == Cols(pointset)
    ensures var e := EstimateRigidTransform(pointset, pointsetDash, svdRotation);
      var moved := ApplyTransform([[e.centroid[0]], [e.centroid[1]], [e.centroid[2]]],
                                  ComposeFinalTransform(e.rotation, e.translation));
      Col(moved, 0) == e.centroidDash
  {
    var e := EstimateRigidTransform(pointset, pointsetDash, svdRotation);
    var single: PointSet := [[e.centroid[0]], [e.centroid[1]], [e.centroid[2]]];
    ApplyComposedTransform(single, e.rotation, e.translation);
    assert Col(single, 0) == e.centroid;
  }

  /** Moving the target set by c leaves H and the rotation alone and moves the translation by c. */
  lemma EstimateUnderTargetTranslation(pointset: PointSet, pointsetDash: PointSet, c: Vec3,
                                       svdRotation: Mat3 -> Mat3)
    requires Cols(pointset) > 0 && Cols(pointsetDash) == Cols(pointset)
    ensures var e := EstimateRigidTransform(pointset, pointsetDash, svdRotation);
      var moved := EstimateRigidTransform(pointset, Translate(pointsetDash, c), svdRotation);
      moved.h == e.h && moved.rotation == e.rotation &&
      moved.translation == Add3(e.translation, c)
  {
    CentredResidualsTranslationInvariant(pointsetDash, c);
    AverageOfTranslated(pointsetDash, c);
  }

  /** Moving the source set by c leaves H and the rotation alone and takes
      rotation * c off the translation. */
  lemma EstimateUnderSourceTranslation(pointset: PointSet, pointsetDash: PointSet, c: Vec3,
                                       svdRotation: Mat3 -> Mat3)
    requires Cols(pointset) > 0 && Cols(pointsetDash) == Cols(pointset)
    ensures var e := EstimateRigidTransform(pointset, pointsetDash, svdRotation);
      var moved := EstimateRigidTransform(Translate(pointset, c), pointsetDash, svdRotation);
      moved.h == e.h && moved.rotation == e.rotation &&
      moved.translation == Sub3(e.translation, MatVec(e.rotation, c))
  {
    var e := EstimateRigidTransform(pointset, pointsetDash, svdRotation);
    CentredResidualsTranslationInvariant(pointset, c);
    AverageOfTranslated(pointset, c);
    MatVecAdd(e.rotation, e.centroid, c);
  }

  /** Exchanging source and target transposes H. */
  lemma EstimateSwapTransposesH(pointset: PointSet, pointsetDash: PointSet,
                                svdRotation: Mat3 -> Mat3)
    requires Cols(pointset) > 0 && Cols(pointsetDash) == Cols(pointset)
    ensures EstimateRigidTransform(pointsetDash, pointset, svdRotation).h
         == Transpose(EstimateRigidTransform(pointset, pointsetDash, svdRotation).h, 3, 3)
  {
    var e := EstimateRigidTransform(pointset, pointsetDash, svdRotation);
    CrossCovarianceSwap(ResidualsFromPoint(pointset, e.centroid),
                        ResidualsFromPoint(pointsetDash, e.centroidDash));
  }
}
