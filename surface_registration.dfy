/** Surface registration by iterative closest points: a greedy closest-point
    matcher with a `used` flag per column, a column gather, and the loop that
    alternates matching and rigid re-estimation while the error keeps
    falling. Distances are compared squared; for non-negative values this
    orders them exactly as the Euclidean norms of the original do. */
module SurfaceBasedRegistration {
  import opened LinAlg
  import opened Util

  /** The initial `distance_old` (1E10): a column must be closer than this to be taken. */
  const DistanceSentinel: real := 10000000000.0

  /** The sentinel in the squared domain. */
  function SquaredSentinel(): real {
    DistanceSentinel * DistanceSentinel
  }

  /** Squared distance from column j of `surface1` to column k of `surface2`. */
  function SquaredDistance(surface1: PointSet, j: nat, surface2: PointSet, k: nat): (d: real)
    requires j < Cols(surface1) && k < Cols(surface2)
    ensures d >= 0.0
  {
    SquaredNorm(Sub3(Col(surface2, k), Col(surface1, j)))
  }

  // ---------------------------------------------------------------------------
  // find_closest_points, as functions on the two arrays it updates
  // ---------------------------------------------------------------------------

  /** The contents of the `lookup_table` and `used` arrays. */
  datatype Matching = Matching(lookup: seq<nat>, used: seq<bool>)

  /** Both arrays have one slot per column of surface 1 (n1), and every
      entry is 0 or a column of surface 2 (n2 columns, at most n1). */
  predicate WellFormed(m: Matching, n1: nat, n2: nat) {
    && |m.lookup| == n1 && |m.used| == n1 && n2 <= n1
    && forall j | 0 <= j < n1 :: m.lookup[j] == 0 || m.lookup[j] < n2
  }

  /** Both arrays as the initialisation loop leaves them. */
  function Initial(n: nat): (m: Matching)
    ensures |m.lookup| == n && |m.used| == n
    ensures forall j | 0 <= j < n :: m.lookup[j] == 0 && !m.used[j]
  {
    Matching(seq(n, j => 0), seq(n, j => false))
  }

  /** The inner loop for point j from candidate k on, with `best` the squared
      `distance_old`. An improvement releases the column held so far, takes k
      and flags it. */
  function Scan(surface1: PointSet, surface2: PointSet, j: nat, k: nat, m: Matching, best: real): (r: Matching)
    requires j < Cols(surface1) && k <= Cols(surface2)
    requires WellFormed(m, Cols(surface1), Cols(surface2))
    ensures WellFormed(r, Cols(surface1), Cols(surface2))
    ensures r.lookup == m.lookup[j := r.lookup[j]]
    decreases Cols(surface2) - k
  {
    if k == Cols(surface2) then m
    else if !m.used[k] && SquaredDistance(surface1, j, surface2, k) < best then
      Scan(surface1, surface2, j, k + 1,
           Matching(m.lookup[j := k], m.used[m.lookup[j] := false][k := true]),
           SquaredDistance(surface1, j, surface2, k))
    else
      Scan(surface1, surface2, j, k + 1, m, best)
  }

  /** One pass of the outer loop: the scan for point j. */
  function MatchPoint(surface1: PointSet, surface2: PointSet, j: nat, m: Matching): (r: Matching)
    requires j < Cols(surface1)
    requires WellFormed(m, Cols(surface1), Cols(surface2))
    ensures WellFormed(r, Cols(surface1), Cols(surface2))
    ensures r.lookup == m.lookup[j := r.lookup[j]]
  {
    Scan(surface1, surface2, j, 0, m, SquaredSentinel())
  }

  /** Both arrays after the scans for points 0 .. j-1. */
  function MatchFirst(surface1: PointSet, surface2: PointSet, j: nat): (m: Matching)
    requires j <= Cols(surface1) && Cols(surface2) <= Cols(surface1)
    ensures WellFormed(m, Cols(surface1), Cols(surface2))
  {
    if j == 0 then Initial(Cols(surface1))
    else MatchPoint(surface1, surface2, j - 1, MatchFirst(surface1, surface2, j - 1))
  }

  /** The table `find_closest_points` returns. */
  function ClosestPoints(surface1: PointSet, surface2: PointSet): (lookup: seq<nat>)
    requires Cols(surface2) <= Cols(surface1)
    ensures |lookup| == Cols(surface1)
    ensures forall j | 0 <= j < |lookup| :: lookup[j] == 0 || lookup[j] < Cols(surface2)
  {
    MatchFirst(surface1, surface2, Cols(surface1)).lookup
  }

  // ---------------------------------------------------------------------------
  // What one scan does
  // ---------------------------------------------------------------------------

  /** Column k of surface 2 can be taken by point j: unused when the scan
      starts and closer than the sentinel. */
  predicate Candidate(surface1: PointSet, surface2: PointSet, j: nat, used: seq<bool>, k: nat)
    requires j < Cols(surface1) && Cols(surface2) <= |used|
  {
    k < Cols(surface2) && !used[k] && SquaredDistance(surface1, j, surface2, k) < SquaredSentinel()
  }

  predicate HasCandidate(surface1: PointSet, surface2: PointSet, j: nat, used: seq<bool>)
    requires j < Cols(surface1) && Cols(surface2) <= |used|
  {
    exists k | 0 <= k < Cols(surface2) :: Candidate(surface1, surface2, j, used, k)
  }

  /** k is a candidate, no unused column is closer, and every unused column
      before k is strictly farther (ties go to the lowest index). */
  predicate IsFirstClosest(surface1: PointSet, surface2: PointSet, j: nat, used: seq<bool>, k: nat)
    requires j < Cols(surface1) && Cols(surface2) <= |used|
  {
    && Candidate(surface1, surface2, j, used, k)
    && (forall k' | 0 <= k' < Cols(surface2) && !used[k'] ::
          SquaredDistance(surface1, j, surface2, k) <= SquaredDistance(surface1, j, surface2, k'))
    && (forall k' | 0 <= k' < k && !used[k'] ::
          SquaredDistance(surface1, j, surface2, k) < SquaredDistance(surface1, j, surface2, k'))
  }

  /** At most one column is the first closest. */
  lemma FirstClosestUnique(surface1: PointSet, surface2: PointSet, j: nat, used: seq<bool>, k1: nat, k2: nat)
    requires j < Cols(surface1) && Cols(surface2) <= |used|
    requires IsFirstClosest(surface1, surface2, j, used, k1)
    requires IsFirstClosest(surface1, surface2, j, used, k2)
    ensures k1 == k2
  {
  }

  /** What holds of the scan for point j before candidate k, given the state
      `start` in which it began: either nothing has been taken yet and no
      column before k was a candidate, or the column held is the first
      closest among the columns before k, with `start.used` changed only
      by releasing column 0 and flagging the column held. */
  predicate ScanInvariant(surface1: PointSet, surface2: PointSet, j: nat, start: Matching,
                          k: nat, m: Matching, best: real)
    requires j < Cols(surface1) && k <= Cols(surface2)
    requires WellFormed(start, Cols(surface1), Cols(surface2))
    requires WellFormed(m, Cols(surface1), Cols(surface2))
  {
    if m == start then
      best == SquaredSentinel() &&
      forall k' | 0 <= k' < k :: !Candidate(surface1, surface2, j, start.used, k')
    else
      var held := m.lookup[j];
      && held < k
      && m == Matching(start.lookup[j := held], start.used[0 := false][held := true])
      && Candidate(surface1, surface2, j, start.used, held)
      && best == SquaredDistance(surface1, j, surface2, held)
      && (forall k' | 0 <= k' < k && !start.used[k'] :: best <= SquaredDistance(surface1, j, surface2, k'))
      && (forall k' | 0 <= k' < held && !start.used[k'] :: best < SquaredDistance(surface1, j, surface2, k'))
  }

  /** Taking column k keeps the invariant. */
  lemma ScanTakeStep(surface1: PointSet, surface2: PointSet, j: nat, start: Matching,
                     k: nat, m: Matching, best: real)
    requires j < Cols(surface1) && k < Cols(surface2)
    requires WellFormed(start, Cols(surface1), Cols(surface2)) && start.lookup[j] == 0
    requires WellFormed(m, Cols(surface1), Cols(surface2))
    requires ScanInvariant(surface1, surface2, j, start, k, m, best)
    requires !m.used[k] && SquaredDistance(surface1, j, surface2, k) < best
    ensures ScanInvariant(surface1, surface2, j, start, k + 1,
                          Matching(m.lookup[j := k], m.used[m.lookup[j] := false][k := true]),
                          SquaredDistance(surface1, j, surface2, k))
  {
    var d := SquaredDistance(surface1, j, surface2, k);
    var next := Matching(m.lookup[j := k], m.used[m.lookup[j] := false][k := true]);
    assert m.used[k] == start.used[k];
    if m != start {
      var held := m.lookup[j];
      assert m.used[held := false] == start.used[0 := false];
    }
    assert next == Matching(start.lookup[j := k], start.used[0 := false][k := true]);
    assert next.used[k] != start.used[k];
    assert d < SquaredSentinel();
    forall k' | 0 <= k' < k + 1 && !start.used[k']
      ensures d <= SquaredDistance(surface1, j, surface2, k')
      ensures k' < k ==> d < SquaredDistance(surface1, j, surface2, k')
    {
      if k' < k && m == start {
        assert !Candidate(surface1, surface2, j, start.used, k');
      }
    }
  }

  /** Passing over column k keeps the invariant. */
  lemma ScanSkipStep(surface1: PointSet, surface2: PointSet, j: nat, start: Matching,
                     k: nat, m: Matching, best: real)
    requires j < Cols(surface1) && k < Cols(surface2)
    requires WellFormed(start, Cols(surface1), Cols(surface2)) && start.lookup[j] == 0
    requires WellFormed(m, Cols(surface1), Cols(surface2))
    requires ScanInvariant(surface1, surface2, j, start, k, m, best)
    requires !(!m.used[k] && SquaredDistance(surface1, j, surface2, k) < best)
    ensures ScanInvariant(surface1, surface2, j, start, k + 1, m, best)
  {
    assert m.used[k] == start.used[k];
  }

  /** Run to the end from a state that satisfies the invariant, the scan
      either takes nothing (and no column was a candidate) or holds the
      first closest candidate, with only column 0 released besides. */
  lemma {:induction false} ScanFromInvariant(surface1: PointSet, surface2: PointSet, j: nat, start: Matching,
                                             k: nat, m: Matching, best: real)
    requires j < Cols(surface1) && k <= Cols(surface2)
    requires WellFormed(start, Cols(surface1), Cols(surface2)) && start.lookup[j] == 0
    requires WellFormed(m, Cols(surface1), Cols(surface2))
    requires ScanInvariant(surface1, surface2, j, start, k, m, best)
    ensures ScanOutcome(surface1, surface2, j, start, Scan(surface1, surface2, j, k, m, best))
    decreases Cols(surface2) - k
  {
    if k == Cols(surface2) {
      ScanEnd(surface1, surface2, j, start, m, best);
    } else {
      var d := SquaredDistance(surface1, j, surface2, k);
      if !m.used[k] && d < best {
        var next := Matching(m.lookup[j := k], m.used[m.lookup[j] := false][k := true]);
        assert Scan(surface1, surface2, j, k, m, best) == Scan(surface1, surface2, j, k + 1, next, d);
        ScanTakeStep(surface1, surface2, j, start, k, m, best);
        ScanFromInvariant(surface1, surface2, j, start, k + 1, next, d);
      } else {
        assert Scan(surface1, surface2, j, k, m, best) == Scan(surface1, surface2, j, k + 1, m, best);
        ScanSkipStep(surface1, surface2, j, start, k, m, best);
        ScanFromInvariant(surface1, surface2, j, start, k + 1, m, best);
      }
    }
  }

  /** At the end of the scan the invariant is the promised outcome. */
  lemma ScanEnd(surface1: PointSet, surface2: PointSet, j: nat, start: Matching, m: Matching, best: real)
    requires j < Cols(surface1)
    requires WellFormed(start, Cols(surface1), Cols(surface2)) && start.lookup[j] == 0
    requires WellFormed(m, Cols(surface1), Cols(surface2))
    requires ScanInvariant(surface1, surface2, j, start, Cols(surface2), m, best)
    ensures ScanOutcome(surface1, surface2, j, start, m)
  {
  }

  /** How a scan for point j begun in `start` can end: having taken nothing,
      when no column was a candidate, or holding the first closest candidate,
      with only column 0 released besides. */
  predicate ScanOutcome(surface1: PointSet, surface2: PointSet, j: nat, start: Matching, r: Matching)
    requires j < Cols(surface1)
    requires WellFormed(start, Cols(surface1), Cols(surface2))
    requires WellFormed(r, Cols(surface1), Cols(surface2))
  {
    && (r == start ==> forall k' | 0 <= k' < Cols(surface2) :: !Candidate(surface1, surface2, j, start.used, k'))
    && (r != start ==>
          && IsFirstClosest(surface1, surface2, j, start.used, r.lookup[j])
          && r == Matching(start.lookup[j := r.lookup[j]], start.used[0 := false][r.lookup[j] := true]))
  }

  /** The scan for point j, begun with entry j still 0, leaves both arrays
      alone when no unused column is closer than the sentinel; otherwise
      entry j becomes the first closest column among those unused when the
      scan began, that column is flagged, column 0 is released, and no other
      flag changes. */
  lemma ScanFindsFirstClosest(surface1: PointSet, surface2: PointSet, j: nat, m: Matching)
    requires j < Cols(surface1)
    requires WellFormed(m, Cols(surface1), Cols(surface2)) && m.lookup[j] == 0
    ensures var r := MatchPoint(surface1, surface2, j, m);
      && (!HasCandidate(surface1, surface2, j, m.used) ==> r == m)
      && (HasCandidate(surface1, surface2, j, m.used) ==>
            && IsFirstClosest(surface1, surface2, j, m.used, r.lookup[j])
            && r.lookup == m.lookup[j := r.lookup[j]]
            && r.used == m.used[0 := false][r.lookup[j] := true])
  {
    ScanFromInvariant(surface1, surface2, j, m, 0, m, SquaredSentinel());
  }

  /** After the scans for points 0 .. j-1: entries from j on are still 0,
      every non-zero entry is flagged, and no non-zero entry is shared. */
  lemma {:induction false} MatchFirstFacts(surface1: PointSet, surface2: PointSet, j: nat)
    requires j <= Cols(surface1) && Cols(surface2) <= Cols(surface1)
    ensures forall i | j <= i < Cols(surface1) :: MatchFirst(surface1, surface2, j).lookup[i] == 0
    ensures forall i | 0 <= i < j && MatchFirst(surface1, surface2, j).lookup[i] != 0 ::
      MatchFirst(surface1, surface2, j).used[MatchFirst(surface1, surface2, j).lookup[i]]
    ensures forall a, b | 0 <= a < b < j && MatchFirst(surface1, surface2, j).lookup[a] == MatchFirst(surface1, surface2, j).lookup[b] ::
      MatchFirst(surface1, surface2, j).lookup[a] == 0
  {
    if j > 0 {
      var n1 := Cols(surface1);
      MatchFirstFacts(surface1, surface2, j - 1);
      var m := MatchFirst(surface1, surface2, j - 1);
      var r := MatchPoint(surface1, surface2, j - 1, m);
      assert r == MatchFirst(surface1, surface2, j);
      assert m.lookup[j - 1] == 0;
      ScanFindsFirstClosest(surface1, surface2, j - 1, m);
      if HasCandidate(surface1, surface2, j - 1, m.used) {
        var taken := r.lookup[j - 1];
        assert !m.used[taken];
        forall i | 0 <= i < j && r.lookup[i] != 0 ensures r.used[r.lookup[i]] {
          if i < j - 1 {
            assert m.used[m.lookup[i]];
          }
        }
        forall a, b | 0 <= a < b < j && r.lookup[a] == r.lookup[b] ensures r.lookup[a] == 0 {
          if b < j - 1 {
            assert m.lookup[a] == m.lookup[b];
          }
        }
      }
    }
  }

  /** No column other than 0 is assigned to two points. */
  lemma ClosestPointsInjectiveOffZero(surface1: PointSet, surface2: PointSet)
    requires Cols(surface2) <= Cols(surface1)
    ensures var lookup := ClosestPoints(surface1, surface2);
      forall a, b | 0 <= a < |lookup| && 0 <= b < |lookup| && a != b && lookup[a] == lookup[b] :: lookup[a] == 0
  {
    MatchFirstFacts(surface1, surface2, Cols(surface1));
  }

  /** The inner loop of `find_closest_points` for point j: `distance_old`
      starts at the sentinel and every unused column closer than it is taken,
      releasing the column entry j held. */
  method ScanPoint(surface1: PointSet, surface2: PointSet, j: nat, lookupTable: array<nat>, used: array<bool>)
    requires j < Cols(surface1)
    requires WellFormed(Matching(lookupTable[..], used[..]), Cols(surface1), Cols(surface2))
    modifies lookupTable, used
    ensures Matching(lookupTable[..], used[..])
         == MatchPoint(surface1, surface2, j, old(Matching(lookupTable[..], used[..])))
  {
    ghost var start := Matching(lookupTable[..], used[..]);
    var n1, n2 := Cols(surface1), Cols(surface2);
    var best := SquaredSentinel();
    for k := 0 to n2
      invariant WellFormed(Matching(lookupTable[..], used[..]), n1, n2)
      invariant Scan(surface1, surface2, j, k, Matching(lookupTable[..], used[..]), best)
             == MatchPoint(surface1, surface2, j, start)
    {
      ghost var before := Matching(lookupTable[..], used[..]);
      if !used[k] {
        var d := SquaredDistance(surface1, j, surface2, k);
        if d < best {
          used[lookupTable[j]] := false;
          lookupTable[j] := k;
          used[k] := true;
          best := d;
          assert Matching(lookupTable[..], used[..])
              == Matching(before.lookup[j := k], before.used[before.lookup[j] := false][k := true]);
        }
      }
    }
  }

  /** `find_closest_points` itself: the two arrays are filled with 0 and
      false, then each point of surface 1 scans the columns of surface 2 in
      order, taking any unused column closer than the best so far. The
      result is the table the scans specified above produce. */
  method FindClosestPoints(surface1: PointSet, surface2: PointSet) returns (lookup: seq<nat>)
    requires Cols(surface2) <= Cols(surface1)
    ensures lookup == ClosestPoints(surface1, surface2)
    ensures |lookup| == Cols(surface1)
    ensures forall j | 0 <= j < |lookup| :: lookup[j] == 0 || lookup[j] < Cols(surface2)
    ensures forall a, b | 0 <= a < |lookup| && 0 <= b < |lookup| && a != b && lookup[a] == lookup[b] ::
      lookup[a] == 0
  {
    var n1, n2 := Cols(surface1), Cols(surface2);
    var lookupTable := new nat[n1];
    var used := new bool[n1];
    for i := 0 to n1
      invariant forall c | 0 <= c < i :: lookupTable[c] == 0 && !used[c]
    {
      lookupTable[i] := 0;
      used[i] := false;
    }
    assert Matching(lookupTable[..], used[..]) == MatchFirst(surface1, surface2, 0);
    for j := 0 to n1
      invariant Matching(lookupTable[..], used[..]) == MatchFirst(surface1, surface2, j)
    {
      ScanPoint(surface1, surface2, j, lookupTable, used);
    }
    lookup := lookupTable[..];
    MatchFirstFacts(surface1, surface2, n1);
  }

  // ---------------------------------------------------------------------------
  // reorder_points
  // ---------------------------------------------------------------------------

  /** The point set whose column i is column `lookupTable[i]` of `surface`. */
  function Gather(surface: PointSet, lookupTable: seq<nat>): (gathered: PointSet)
    requires |lookupTable| >= Cols(surface)
    requires forall i | 0 <= i < Cols(surface) :: lookupTable[i] < Cols(surface)
    ensures Cols(gathered) == Cols(surface)
    ensures forall i | 0 <= i < Cols(surface) :: Col(gathered, i) == Col(surface, lookupTable[i])
  {
    var n := Cols(surface);
    PointSetShape(surface);
    seq(3, r requires 0 <= r < 3 => seq(n, i requires 0 <= i < n => surface[r][lookupTable[i]]))
  }

  /** The identity table gathers the surface unchanged. */
  lemma GatherIdentity(surface: PointSet, lookupTable: seq<nat>)
    requires |lookupTable| >= Cols(surface)
    requires forall i | 0 <= i < Cols(surface) :: lookupTable[i] == i
    ensures Gather(surface, lookupTable) == surface
  {
    PointSetsEqual(Gather(surface, lookupTable), surface);
  }

  /** Gathering twice is gathering once through the composed table. */
  lemma GatherTwice(surface: PointSet, first: seq<nat>, second: seq<nat>, composed: seq<nat>)
    requires |first| >= Cols(surface) && |second| >= Cols(surface) && |composed| >= Cols(surface)
    requires forall i | 0 <= i < Cols(surface) :: first[i] < Cols(surface) && second[i] < Cols(surface)
    requires forall i | 0 <= i < Cols(surface) :: composed[i] == first[second[i]]
    ensures Gather(Gather(surface, first), second) == Gather(surface, composed)
  {
    PointSetsEqual(Gather(Gather(surface, first), second), Gather(surface, composed));
  }

  /** `reorder_points`: a copy of `surface` whose columns are overwritten one
      by one, always reading from the untouched original. */
  method ReorderPoints(surface: PointSet, lookupTable: seq<nat>) returns (reordered: PointSet)
    requires |lookupTable| >= Cols(surface)
    requires forall i | 0 <= i < Cols(surface) :: lookupTable[i] < Cols(surface)
    ensures reordered == Gather(surface, lookupTable)
  {
    reordered := surface;
    for i := 0 to Cols(surface)
      invariant Cols(reordered) == Cols(surface)
      invariant forall c | 0 <= c < i :: Col(reordered, c) == Col(surface, lookupTable[c])
    {
      reordered := SetCol(reordered, i, Col(surface, lookupTable[i]));
    }
    PointSetsEqual(reordered, Gather(surface, lookupTable));
  }

  // ---------------------------------------------------------------------------
  // register_surfaces
  // ---------------------------------------------------------------------------

  /** The inputs of the registration loop: the two surfaces, the rigid
      estimator and the registration-error measure, the last two taken as
      given functions. */
  datatype Icp = Icp(
    surface1: PointSet,
    surface2: PointSet,
    estimate: (PointSet, PointSet) -> Mat4,
    registrationError: (PointSet, PointSet, Mat4) -> real)

  /** The matcher can index its `used` array: surface 2 has at most as many
      columns as surface 1. */
  predicate Ready(icp: Icp) {
    Cols(icp.surface2) <= Cols(icp.surface1)
  }

  /** The loop variables at the head of the do-while: `transform`,
      `closest_points` and `error_new`. */
  datatype IcpState = IcpState(transform: Mat4, closest: PointSet, error: real)

  predicate Fits(icp: Icp, st: IcpState) {
    Cols(st.closest) == Cols(icp.surface2)
  }

  /** The state before the first pass: the closest points of surface 2 to
      surface 1, the initial transform, and the error of surface 2 itself. */
  function Start(icp: Icp, transformInit: Mat4): (st: IcpState)
    requires Ready(icp)
    ensures Fits(icp, st)
    ensures st.transform == transformInit
    ensures st.error == icp.registrationError(icp.surface1, icp.surface2, transformInit)
    ensures forall i | 0 <= i < Cols(icp.surface2) ::
      Col(st.closest, i) == Col(icp.surface2, ClosestPoints(icp.surface1, icp.surface2)[i])
  {
    IcpState(transformInit,
             Gather(icp.surface2, ClosestPoints(icp.surface1, icp.surface2)),
             icp.registrationError(icp.surface1, icp.surface2, transformInit))
  }

  /** One pass of the loop body: re-estimate from the current closest points,
      move them, re-match against surface 1, gather from the untransformed
      surface 2 and measure the error. */
  function Advance(icp: Icp, closestPoints: PointSet): (next: IcpState)
    requires Ready(icp) && Cols(closestPoints) == Cols(icp.surface2)
    ensures Fits(icp, next)
    ensures next.transform == icp.estimate(icp.surface1, closestPoints)
    ensures next.error == icp.registrationError(icp.surface1, next.closest, next.transform)
  {
    var transform := icp.estimate(icp.surface1, closestPoints);
    var transformed := ApplyTransform(closestPoints, transform);
    var closest := Gather(icp.surface2, ClosestPoints(icp.surface1, transformed));
    IcpState(transform, closest, icp.registrationError(icp.surface1, closest, transform))
  }

  /** A loop body: defined on every state whose closest set has `width`
      columns, and keeping that width. */
  ghost predicate Closed(body: IcpState --> IcpState, width: nat) {
    forall st: IcpState | Cols(st.closest) == width :: body.requires(st) && Cols(body(st).closest) == width
  }

  /** The body of the do-while of `register_surfaces`. */
  function LoopBody(icp: Icp): (body: IcpState --> IcpState)
    requires Ready(icp)
    ensures Closed(body, Cols(icp.surface2))
  {
    st requires Ready(icp) && Fits(icp, st) => Advance(icp, st.closest)
  }

  /** On a state that fits, the loop body is one pass. */
  lemma LoopBodyAdvances(icp: Icp, st: IcpState)
    requires Ready(icp) && Fits(icp, st)
    ensures LoopBody(icp).requires(st) && LoopBody(icp)(st) == Advance(icp, st.closest)
  {
  }

  /** The state at the head of pass n. */
  function Iterate(body: IcpState --> IcpState, width: nat, st: IcpState, n: nat): (r: IcpState)
    requires Closed(body, width) && Cols(st.closest) == width
    ensures Cols(r.closest) == width
  {
    if n == 0 then st else body(Iterate(body, width, st, n - 1))
  }

  /** The pass from `st` lowers the error, so the loop goes on. */
  predicate Improves(body: IcpState --> IcpState, width: nat, st: IcpState)
    requires Closed(body, width) && Cols(st.closest) == width
  {
    body(st).error < st.error
  }

  /** The outcome of the loop when at most `fuel` passes are allowed. */
  datatype Registration = Converged(transform: Mat4) | OutOfFuel

  /** The do-while: a pass that does not lower the error ends the loop, and
      the transform from before that pass is returned. */
  function Run(body: IcpState --> IcpState, width: nat, st: IcpState, fuel: nat): Registration
    requires Closed(body, width) && Cols(st.closest) == width
    decreases fuel
  {
    if fuel == 0 then OutOfFuel
    else if Improves(body, width, st) then Run(body, width, body(st), fuel - 1)
    else Converged(st.transform)
  }

  lemma {:induction false} IterateShift(body: IcpState --> IcpState, width: nat, st: IcpState, n: nat)
    requires Closed(body, width) && Cols(st.closest) == width
    ensures Iterate(body, width, body(st), n) == Iterate(body, width, st, n + 1)
  {
    if n > 0 {
      IterateShift(body, width, st, n - 1);
    }
  }

  /** Each of passes 0 .. n-1 from `st` lowers the error. */
  predicate ImprovesThrough(body: IcpState --> IcpState, width: nat, st: IcpState, n: nat)
    requires Closed(body, width) && Cols(st.closest) == width
  {
    forall m | 0 <= m < n :: Improves(body, width, Iterate(body, width, st, m))
  }

  /** Passes 0 .. n-1 lower the error and pass n does not. */
  predicate FirstFailure(body: IcpState --> IcpState, width: nat, st: IcpState, n: nat)
    requires Closed(body, width) && Cols(st.closest) == width
  {
    ImprovesThrough(body, width, st, n) && !Improves(body, width, Iterate(body, width, st, n))
  }

  /** Passes 0 .. n from `st` lower the error exactly when the first does
      and passes 0 .. n-1 from `body(st)` do. */
  lemma ImprovesThroughShift(body: IcpState --> IcpState, width: nat, st: IcpState, n: nat)
    requires Closed(body, width) && Cols(st.closest) == width
    ensures ImprovesThrough(body, width, st, n + 1)
        <==> Improves(body, width, st) && ImprovesThrough(body, width, body(st), n)
  {
    forall m | 0 <= m < n ensures Iterate(body, width, body(st), m) == Iterate(body, width, st, m + 1) {
      IterateShift(body, width, st, m);
    }
    assert Iterate(body, width, st, 0) == st;
    if ImprovesThrough(body, width, st, n + 1) {
      forall m | 0 <= m < n ensures Improves(body, width, Iterate(body, width, body(st), m)) {
        assert Improves(body, width, Iterate(body, width, st, m + 1));
      }
    }
    if Improves(body, width, st) && ImprovesThrough(body, width, body(st), n) {
      forall m | 0 <= m < n + 1 ensures Improves(body, width, Iterate(body, width, st, m)) {
        if m > 0 {
          assert Improves(body, width, Iterate(body, width, body(st), m - 1));
        }
      }
    }
  }

  /** If pass n is the first that fails to lower the error, and n is within
      the fuel, the loop returns the transform held at the head of pass n. */
  lemma {:induction false} RunStopsAtFirstFailure(body: IcpState --> IcpState, width: nat, st: IcpState,
                                                  fuel: nat, n: nat)
    requires Closed(body, width) && Cols(st.closest) == width
    requires n < fuel && FirstFailure(body, width, st, n)
    ensures Run(body, width, st, fuel) == Converged(Iterate(body, width, st, n).transform)
    decreases n
  {
    if n > 0 {
      ImprovesThroughShift(body, width, st, n - 1);
      IterateShift(body, width, st, n - 1);
      RunStopsAtFirstFailure(body, width, body(st), fuel - 1, n - 1);
    }
  }

  /** The loop runs out of fuel exactly when each of the first `fuel`
      passes lowers the error. */
  lemma {:induction false} RunOutOfFuel(body: IcpState --> IcpState, width: nat, st: IcpState, fuel: nat)
    requires Closed(body, width) && Cols(st.closest) == width
    ensures Run(body, width, st, fuel) == OutOfFuel <==> ImprovesThrough(body, width, st, fuel)
    decreases fuel
  {
    if fuel > 0 {
      ImprovesThroughShift(body, width, st, fuel - 1);
      if Improves(body, width, st) {
        RunOutOfFuel(body, width, body(st), fuel - 1);
      }
    }
  }

  /** A loop that converges stopped at the first pass that failed to lower
      the error, within the fuel, and returns the transform held before it. */
  lemma {:induction false} RunConverged(body: IcpState --> IcpState, width: nat, st: IcpState, fuel: nat)
    requires Closed(body, width) && Cols(st.closest) == width
    requires Run(body, width, st, fuel).Converged?
    ensures exists n | 0 <= n < fuel ::
      && FirstFailure(body, width, st, n)
      && Run(body, width, st, fuel).transform == Iterate(body, width, st, n).transform
    decreases fuel
  {
    if Improves(body, width, st) {
      var next := body(st);
      RunConverged(body, width, next, fuel - 1);
      var n :| 0 <= n < fuel - 1 && FirstFailure(body, width, next, n) &&
        Run(body, width, next, fuel - 1).transform == Iterate(body, width, next, n).transform;
      ImprovesThroughShift(body, width, st, n);
      IterateShift(body, width, st, n);
      assert FirstFailure(body, width, st, n + 1);
    } else {
      assert FirstFailure(body, width, st, 0);
    }
  }

  /** Along a converged run the errors seen at successive loop heads
      strictly decrease, the pass that ends the loop does not lower the
      error, and the transform returned is the one from before that pass. */
  lemma ConvergedErrorsDecrease(body: IcpState --> IcpState, width: nat, st: IcpState, fuel: nat)
    requires Closed(body, width) && Cols(st.closest) == width
    requires Run(body, width, st, fuel).Converged?
    ensures exists n | 0 <= n < fuel ::
      && (forall m | 0 <= m < n ::
            Iterate(body, width, st, m + 1).error < Iterate(body, width, st, m).error)
      && Iterate(body, width, st, n + 1).error >= Iterate(body, width, st, n).error
      && Run(body, width, st, fuel).transform == Iterate(body, width, st, n).transform
  {
    RunConverged(body, width, st, fuel);
    var n :| 0 <= n < fuel && FirstFailure(body, width, st, n) &&
      Run(body, width, st, fuel).transform == Iterate(body, width, st, n).transform;
    assert Iterate(body, width, st, n + 1).error >= Iterate(body, width, st, n).error;
  }

  /** Matching surface 1 against `moved` and gathering the matched columns
      of the untransformed surface 2: lines 44-45 before the loop and 59-60
      in it. */
  method MatchAndReorder(surface1: PointSet, surface2: PointSet, moved: PointSet) returns (closestPoints: PointSet)
    requires Cols(surface2) <= Cols(surface1) && Cols(moved) == Cols(surface2)
    ensures closestPoints == Gather(surface2, ClosestPoints(surface1, moved))
  {
    var lookupClosest := FindClosestPoints(surface1, moved);
    closestPoints := ReorderPoints(surface2, lookupClosest);
  }

  /** Lines 57-62: re-estimate from the closest points, move them, re-match
      and measure the error. */
  method Pass(surface1: PointSet, surface2: PointSet,
              estimate: (PointSet, PointSet) -> Mat4,
              registrationError: (PointSet, PointSet, Mat4) -> real,
              closestPoints: PointSet)
    returns (transform: Mat4, closestPointsNew: PointSet, errorNew: real)
    requires Cols(surface2) <= Cols(surface1) && Cols(closestPoints) == Cols(surface2)
    ensures IcpState(transform, closestPointsNew, errorNew)
         == Advance(Icp(surface1, surface2, estimate, registrationError), closestPoints)
  {
    transform := estimate(surface1, closestPoints);
    var transformedPointcloud := ApplyTransform(closestPoints, transform);
    closestPointsNew := MatchAndReorder(surface1, surface2, transformedPointcloud);
    errorNew := registrationError(surface1, closestPointsNew, transform);
  }

  /** `register_surfaces` with the initial transform made explicit and at
      most `fuel` passes of the do-while. */
  method RegisterSurfaces(surface1: PointSet, surface2: PointSet, transformInit: Mat4,
                          estimate: (PointSet, PointSet) -> Mat4,
                          registrationError: (PointSet, PointSet, Mat4) -> real,
                          fuel: nat)
    returns (result: Registration)
    requires Cols(surface2) <= Cols(surface1)
    ensures var icp := Icp(surface1, surface2, estimate, registrationError);
      result == Run(LoopBody(icp), Cols(surface2), Start(icp, transformInit), fuel)
  {
    var closestPoints := MatchAndReorder(surface1, surface2, surface2);
    var transform := transformInit;
    var transformedPointcloud := surface2;
    var errorNew := registrationError(surface1, transformedPointcloud, transform);
    result := RepeatWhileImproving(surface1, surface2, estimate, registrationError,
                                   transform, closestPoints, errorNew, fuel);
  }

  /** The do-while of `register_surfaces` (lines 52-65), entered with the
      loop variables `transform`, `closest_points` and `error_new`. */
  method RepeatWhileImproving(surface1: PointSet, surface2: PointSet,
                              estimate: (PointSet, PointSet) -> Mat4,
                              registrationError: (PointSet, PointSet, Mat4) -> real,
                              transform0: Mat4, closestPoints0: PointSet, errorNew0: real,
                              fuel: nat)
    returns (result: Registration)
    requires Cols(surface2) <= Cols(surface1) && Cols(closestPoints0) == Cols(surface2)
    ensures result == Run(LoopBody(Icp(surface1, surface2, estimate, registrationError)), Cols(surface2),
                          IcpState(transform0, closestPoints0, errorNew0), fuel)
  {
    ghost var icp := Icp(surface1, surface2, estimate, registrationError);
    ghost var body, width := LoopBody(icp), Cols(surface2);
    var transform, closestPoints, errorNew := transform0, closestPoints0, errorNew0;
    var transformOld := transform;
    var error := 0.0;
    var remaining := fuel;
    while remaining > 0
      invariant Cols(closestPoints) == width
      invariant Run(body, width, IcpState(transform0, closestPoints0, errorNew0), fuel)
             == Run(body, width, IcpState(transform, closestPoints, errorNew), remaining)
      decreases remaining
    {
      ghost var st := IcpState(transform, closestPoints, errorNew);
      transformOld := transform;
      error := errorNew;
      transform, closestPoints, errorNew := Pass(surface1, surface2, estimate, registrationError, closestPoints);
      PassOutcome(icp, st, IcpState(transform, closestPoints, errorNew), remaining);
      if !(errorNew < error) {
        return Converged(transformOld);
      }
      remaining := remaining - 1;
    }
    return OutOfFuel;
  }

  /** After one pass from `st` the loop either goes on from the new state,
      when the error fell, or ends with the transform from before the pass. */
  lemma PassOutcome(icp: Icp, st: IcpState, next: IcpState, fuel: nat)
    requires Ready(icp) && Fits(icp, st) && fuel > 0
    requires next == Advance(icp, st.closest)
    ensures Fits(icp, next)
    ensures Run(LoopBody(icp), Cols(icp.surface2), st, fuel)
         == if next.error < st.error then Run(LoopBody(icp), Cols(icp.surface2), next, fuel - 1)
            else Converged(st.transform)
  {
    LoopBodyAdvances(icp, st);
  }

  // ---------------------------------------------------------------------------
  // Column 0 can be handed out twice
  // ---------------------------------------------------------------------------

  /** Three points on a line and three candidates: point 0 sits on column 0,
      point 1 on column 1, point 2 next to column 0. */
  function ReuseSurface1(): PointSet {
    [[0.0, 100.0, 1.0], [0.0, 0.0, 0.0], [0.0, 0.0, 0.0]]
  }

  function ReuseSurface2(): PointSet {
    [[0.0, 100.0, 200.0], [0.0, 0.0, 0.0], [0.0, 0.0, 0.0]]
  }

  /** For two points on the x-axis the squared distance is the squared
      difference of their x coordinates. */
  lemma DistanceOnXAxis(surface1: PointSet, j: nat, surface2: PointSet, k: nat)
    requires j < Cols(surface1) && k < Cols(surface2)
    requires surface1[1][j] == 0.0 && surface1[2][j] == 0.0
    requires surface2[1][k] == 0.0 && surface2[2][k] == 0.0
    ensures SquaredDistance(surface1, j, surface2, k)
         == (surface2[0][k] - surface1[0][j]) * (surface2[0][k] - surface1[0][j])
  {
    assert Sub3(Col(surface2, k), Col(surface1, j)) == [surface2[0][k] - surface1[0][j], 0.0, 0.0];
  }

  lemma ReuseDistances()
    ensures SquaredDistance(ReuseSurface1(), 0, ReuseSurface2(), 0) == 0.0
    ensures SquaredDistance(ReuseSurface1(), 0, ReuseSurface2(), 1) == 10000.0
    ensures SquaredDistance(ReuseSurface1(), 0, ReuseSurface2(), 2) == 40000.0
    ensures SquaredDistance(ReuseSurface1(), 1, ReuseSurface2(), 0) == 10000.0
    ensures SquaredDistance(ReuseSurface1(), 1, ReuseSurface2(), 1) == 0.0
    ensures SquaredDistance(ReuseSurface1(), 1, ReuseSurface2(), 2) == 10000.0
    ensures SquaredDistance(ReuseSurface1(), 2, ReuseSurface2(), 0) == 1.0
    ensures SquaredDistance(ReuseSurface1(), 2, ReuseSurface2(), 1) == 9801.0
    ensures SquaredDistance(ReuseSurface1(), 2, ReuseSurface2(), 2) == 39601.0
  {
    var s1, s2 := ReuseSurface1(), ReuseSurface2();
    DistanceOnXAxis(s1, 0, s2, 0);
    DistanceOnXAxis(s1, 0, s2, 1);
    DistanceOnXAxis(s1, 0, s2, 2);
    DistanceOnXAxis(s1, 1, s2, 0);
    DistanceOnXAxis(s1, 1, s2, 1);
    DistanceOnXAxis(s1, 1, s2, 2);
    DistanceOnXAxis(s1, 2, s2, 0);
    DistanceOnXAxis(s1, 2, s2, 1);
    DistanceOnXAxis(s1, 2, s2, 2);
  }

  /** The scan for one point of the example, from the arrays `before`. */
  lemma ReuseStep(j: nat, before: Matching, taken: nat)
    requires j < 3 && taken < 3
    requires WellFormed(before, 3, 3) && before.lookup[j] == 0
    requires IsFirstClosest(ReuseSurface1(), ReuseSurface2(), j, before.used, taken)
    ensures MatchPoint(ReuseSurface1(), ReuseSurface2(), j, before)
         == Matching(before.lookup[j := taken], before.used[0 := false][taken := true])
  {
    var s1, s2 := ReuseSurface1(), ReuseSurface2();
    var r := MatchPoint(s1, s2, j, before);
    ScanFindsFirstClosest(s1, s2, j, before);
    FirstClosestUnique(s1, s2, j, before.used, r.lookup[j], taken);
  }

  /** Point 0 takes column 0. */
  lemma ReuseAfterPoint0()
    ensures MatchFirst(ReuseSurface1(), ReuseSurface2(), 1) == Matching([0, 0, 0], [true, false, false])
  {
    ReuseDistances();
    var m0 := Initial(3);
    assert m0 == Matching([0, 0, 0], [false, false, false]);
    ReuseStep(0, m0, 0);
  }

  /** Point 1 takes column 1 and releases column 0, which point 0 holds. */
  lemma ReuseAfterPoint1()
    ensures MatchFirst(ReuseSurface1(), ReuseSurface2(), 2) == Matching([0, 1, 0], [false, true, false])
  {
    ReuseAfterPoint0();
    ReuseDistances();
    ReuseStep(1, Matching([0, 0, 0], [true, false, false]), 1);
  }

  /** Point 1's scan releases column 0 (its entry still holds the initial 0)
      although point 0 holds it, so point 2 takes column 0 again and
      column 2 is never matched. */
  lemma ColumnZeroReused()
    ensures ClosestPoints(ReuseSurface1(), ReuseSurface2()) == [0, 1, 0]
  {
    var s1, s2 := ReuseSurface1(), ReuseSurface2();
    ReuseAfterPoint1();
    ReuseDistances();
    ReuseStep(2, Matching([0, 1, 0], [false, true, false]), 0);
    assert MatchFirst(s1, s2, 3) == Matching([0, 1, 0], [true, true, false]);
  }
}
