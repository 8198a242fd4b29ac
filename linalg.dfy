/** Dense real matrices in row-major form: the small part of Eigen's algebra
    that the registration code relies on. A matrix is a sequence of rows;
    its dimensions are passed explicitly where Eigen would store them. */
module LinAlg {

  type Matrix = seq<seq<real>>
  type Vector = seq<real>

  /** `m` has `rows` rows of `cols` entries each. */
  predicate Shape(m: Matrix, rows: nat, cols: nat) {
    |m| == rows && forall r | 0 <= r < rows :: |m[r]| == cols
  }

  type Vec3 = v: Vector | |v| == 3 witness [0.0, 0.0, 0.0]

  type Mat3 = m: Matrix | Shape(m, 3, 3)
    witness [[0.0, 0.0, 0.0], [0.0, 0.0, 0.0], [0.0, 0.0, 0.0]]

  type Mat4 = m: Matrix | Shape(m, 4, 4)
    witness [[0.0, 0.0, 0.0, 0.0], [0.0, 0.0, 0.0, 0.0], [0.0, 0.0, 0.0, 0.0], [0.0, 0.0, 0.0, 0.0]]

  /** A 3xN point set (Eigen's `MatrixXd` with three rows): one point per column. */
  type PointSet = m: Matrix | |m| == 3 && |m[1]| == |m[0]| && |m[2]| == |m[0]| witness [[], [], []]

  function Cols(p: PointSet): nat {
    |p[0]|
  }

  lemma PointSetShape(p: PointSet)
    ensures Shape(p, 3, Cols(p))
  {
    forall r | 0 <= r < 3 ensures |p[r]| == Cols(p) {
      assert r == 0 || r == 1 || r == 2;
    }
  }

  /** Column `i` of a point set, as a 3-vector. */
  function Col(p: PointSet, i: nat): Vec3
    requires i < Cols(p)
  {
    [p[0][i], p[1][i], p[2][i]]
  }

  /** Two point sets with the same columns are equal. */
  lemma PointSetsEqual(p: PointSet, q: PointSet)
    requires Cols(p) == Cols(q)
    requires forall i | 0 <= i < Cols(p) :: Col(p, i) == Col(q, i)
    ensures p == q
  {
    forall r | 0 <= r < 3 ensures p[r] == q[r] {
      forall i | 0 <= i < Cols(p) ensures p[r][i] == q[r][i] {
        assert Col(p, i)[r] == Col(q, i)[r];
      }
    }
  }

  /** The point set with column `i` replaced by `v`. */
  function SetCol(p: PointSet, i: nat, v: Vec3): (q: PointSet)
    requires i < Cols(p)
    ensures Cols(q) == Cols(p)
    ensures Col(q, i) == v
    ensures forall c | 0 <= c < Cols(p) && c != i :: Col(q, c) == Col(p, c)
  {
    [p[0][i := v[0]], p[1][i := v[1]], p[2][i := v[2]]]
  }

  /** Every column of `p` moved by `c`. */
  function Translate(p: PointSet, c: Vec3): (q: PointSet)
    ensures Cols(q) == Cols(p)
    ensures forall i | 0 <= i < Cols(p) :: Col(q, i) == Add3(Col(p, i), c)
  {
    var n := Cols(p);
    seq(3, r requires 0 <= r < 3 => seq(n, i requires 0 <= i < n => p[r][i] + c[r]))
  }

  function Add3(a: Vec3, b: Vec3): Vec3 {
    [a[0] + b[0], a[1] + b[1], a[2] + b[2]]
  }

  function Sub3(a: Vec3, b: Vec3): Vec3 {
    [a[0] - b[0], a[1] - b[1], a[2] - b[2]]
  }

  /** The squared Euclidean norm. */
  function SquaredNorm(v: Vec3): (s: real)
    ensures s >= 0.0
  {
    Square(v[0]);
    Square(v[1]);
    Square(v[2]);
    v[0] * v[0] + v[1] * v[1] + v[2] * v[2]
  }

  lemma Square(x: real)
    ensures x * x >= 0.0
  {
    if x < 0.0 {
      var y := -x;
      MulPositive(y, y);
      assert x * x == y * y;
    } else if x > 0.0 {
      MulPositive(x, x);
    }
  }

  lemma MulPositive(a: real, b: real)
    requires a > 0.0 && b > 0.0
    ensures a * b > 0.0
  {
  }

  /** The product of a 3x3 matrix and a 3-vector. */
  function MatVec(m: Mat3, v: Vec3): Vec3 {
    [m[0][0] * v[0] + m[0][1] * v[1] + m[0][2] * v[2],
     m[1][0] * v[0] + m[1][1] * v[1] + m[1][2] * v[2],
     m[2][0] * v[0] + m[2][1] * v[1] + m[2][2] * v[2]]
  }

  lemma MatVecAdd(m: Mat3, a: Vec3, b: Vec3)
    ensures MatVec(m, Add3(a, b)) == Add3(MatVec(m, a), MatVec(m, b))
  {
    var l, r := MatVec(m, Add3(a, b)), Add3(MatVec(m, a), MatVec(m, b));
    forall i | 0 <= i < 3 ensures l[i] == r[i] {
      RowDistributes(m[i][0], m[i][1], m[i][2], a, b);
    }
  }

  /** One row of `MatVecAdd`. */
  lemma RowDistributes(x: real, y: real, z: real, a: Vec3, b: Vec3)
    ensures x * (a[0] + b[0]) + y * (a[1] + b[1]) + z * (a[2] + b[2])
         == (x * a[0] + y * a[1] + z * a[2]) + (x * b[0] + y * b[1] + z * b[2])
  {
    Distributes(x, a[0], b[0]);
    Distributes(y, a[1], b[1]);
    Distributes(z, a[2], b[2]);
  }

  lemma Distributes(x: real, a: real, b: real)
    ensures x * (a + b) == x * a + x * b
  {
  }

  function Identity3(): Mat3 {
    [[1.0, 0.0, 0.0], [0.0, 1.0, 0.0], [0.0, 0.0, 1.0]]
  }

  function Zero3(): Vec3 {
    [0.0, 0.0, 0.0]
  }

  function Sum(s: Vector): real {
    if |s| == 0 then 0.0 else s[0] + Sum(s[1..])
  }

  function Mean(s: Vector): real
    requires |s| > 0
  {
    Sum(s) / (|s| as real)
  }

  /** Adding `c` to every element adds `|s| * c` to the sum. */
  lemma {:induction false} SumShift(s: Vector, t: Vector, c: real)
    requires |t| == |s|
    requires forall i | 0 <= i < |s| :: t[i] == s[i] + c
    ensures Sum(t) == Sum(s) + (|s| as real) * c
  {
    if |s| > 0 {
      SumShift(s[1..], t[1..], c);
    }
  }

  /** Taking `c` off every element takes `c * |s|` off the sum. */
  lemma {:induction false} SumLessConstant(s: Vector, t: Vector, c: real)
    requires |t| == |s|
    requires forall i | 0 <= i < |s| :: t[i] == s[i] - c
    ensures Sum(t) == Sum(s) - c * (|s| as real)
  {
    if |s| > 0 {
      SumLessConstant(s[1..], t[1..], c);
    }
  }

  lemma MeanShift(s: Vector, t: Vector, c: real)
    requires |s| > 0 && |t| == |s|
    requires forall i | 0 <= i < |s| :: t[i] == s[i] + c
    ensures Mean(t) == Mean(s) + c
  {
    SumShift(s, t, c);
    var n := |s| as real;
    var m := Mean(s);
    assert Sum(s) == m * n;
    assert Sum(t) == (m + c) * n;
  }

  function Dot(a: Vector, b: Vector): real
    requires |a| == |b|
  {
    if |a| == 0 then 0.0 else a[0] * b[0] + Dot(a[1..], b[1..])
  }

  lemma {:induction false} DotSymmetric(a: Vector, b: Vector)
    requires |a| == |b|
    ensures Dot(a, b) == Dot(b, a)
  {
    if |a| > 0 {
      DotSymmetric(a[1..], b[1..]);
    }
  }

  lemma Dot4(a: Vector, b: Vector)
    requires |a| == 4 && |b| == 4
    ensures Dot(a, b) == a[0] * b[0] + a[1] * b[1] + a[2] * b[2] + a[3] * b[3]
  {
    var a1, b1 := a[1..], b[1..];
    var a2, b2 := a1[1..], b1[1..];
    var a3, b3 := a2[1..], b2[1..];
    assert Dot(a3[1..], b3[1..]) == 0.0;
    assert Dot(a3, b3) == a[3] * b[3];
    assert Dot(a2, b2) == a[2] * b[2] + a[3] * b[3];
    assert Dot(a1, b1) == a[1] * b[1] + a[2] * b[2] + a[3] * b[3];
  }

  function Transpose(m: Matrix, rows: nat, cols: nat): (t: Matrix)
    requires Shape(m, rows, cols)
    ensures Shape(t, cols, rows)
    ensures forall c, r | 0 <= c < cols && 0 <= r < rows :: t[c][r] == m[r][c]
  {
    seq(cols, c requires 0 <= c < cols => seq(rows, r requires 0 <= r < rows => m[r][c]))
  }

  /** Column `c` of a matrix with `rows` rows. */
  function Column(m: Matrix, rows: nat, c: nat): (v: Vector)
    requires |m| == rows && forall r | 0 <= r < rows :: c < |m[r]|
    ensures |v| == rows && forall r | 0 <= r < rows :: v[r] == m[r][c]
  {
    seq(rows, r requires 0 <= r < rows => m[r][c])
  }

  /** The product of an n-by-k and a k-by-m matrix. */
  function Mul(a: Matrix, b: Matrix, n: nat, k: nat, m: nat): (p: Matrix)
    requires Shape(a, n, k) && Shape(b, k, m)
    ensures Shape(p, n, m)
    ensures forall r, c | 0 <= r < n && 0 <= c < m :: p[r][c] == Dot(a[r], Column(b, k, c))
  {
    seq(n, r requires 0 <= r < n => seq(m, c requires 0 <= c < m => Dot(a[r], Column(b, k, c))))
  }
}
