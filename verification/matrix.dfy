/** 4×4 homogeneous matrices over the reals, stored row by row, and the
    column-major 16-number form the tileset and manifest documents use. */
module Matrix {

  type Mat4 = m: seq<seq<real>> | |m| == 4 && forall i :: 0 <= i < 4 ==> |m[i]| == 4
    witness [[0.0, 0.0, 0.0, 0.0], [0.0, 0.0, 0.0, 0.0], [0.0, 0.0, 0.0, 0.0], [0.0, 0.0, 0.0, 0.0]]

  datatype Vec3 = Vec3(x: real, y: real, z: real)

  function Identity(): (m: Mat4)
    ensures forall i, j :: 0 <= i < 4 && 0 <= j < 4 ==> m[i][j] == if i == j then 1.0 else 0.0
  {
    [[1.0, 0.0, 0.0, 0.0], [0.0, 1.0, 0.0, 0.0], [0.0, 0.0, 1.0, 0.0], [0.0, 0.0, 0.0, 1.0]]
  }

  /** Row `i` of `a` times column `j` of `b`. */
  function Dot(a: Mat4, b: Mat4, i: nat, j: nat): real
    requires i < 4 && j < 4
  {
    a[i][0] * b[0][j] + a[i][1] * b[1][j] + a[i][2] * b[2][j] + a[i][3] * b[3][j]
  }

  /** The matrix product `a @ b`. */
  function Mul(a: Mat4, b: Mat4): (m: Mat4)
    ensures forall i, j :: 0 <= i < 4 && 0 <= j < 4 ==> m[i][j] == Dot(a, b, i, j)
  {
    seq(4, i requires 0 <= i < 4 => seq(4, j requires 0 <= j < 4 => Dot(a, b, i, j)))
  }

  /** Reading 16 numbers in column-major (Fortran) order: entry (i, j) is `v[4j + i]`. */
  function FromColumnMajor(v: seq<real>): (m: Mat4)
    requires |v| == 16
  {
    seq(4, i requires 0 <= i < 4 => seq(4, j requires 0 <= j < 4 => v[4 * j + i]))
  }

  /** Writing a matrix as 16 numbers in column-major order. */
  function ToColumnMajor(m: Mat4): (v: seq<real>)
    ensures |v| == 16
  {
    seq(16, k requires 0 <= k < 16 => m[k % 4][k / 4])
  }

  /** Entry (i, j) of the matrix read from `v` is `v[4j + i]`: the columns come first. */
  lemma FromColumnMajorEntries(v: seq<real>)
    requires |v| == 16
    ensures forall i, j :: 0 <= i < 4 && 0 <= j < 4 ==> FromColumnMajor(v)[i][j] == v[4 * j + i]
  {
  }

  /** Writing a matrix out and reading it back gives the same matrix. */
  lemma FromToColumnMajor(m: Mat4)
    ensures FromColumnMajor(ToColumnMajor(m)) == m
  {
    var v := ToColumnMajor(m);
    var r := FromColumnMajor(v);
    forall i | 0 <= i < 4
      ensures r[i] == m[i]
    {
      assert v[4 * 0 + i] == m[i][0] && v[4 * 1 + i] == m[i][1];
      assert v[4 * 2 + i] == m[i][2] && v[4 * 3 + i] == m[i][3];
    }
  }

  /** Reading 16 numbers and writing them back gives the same 16 numbers. */
  lemma ToFromColumnMajor(v: seq<real>)
    requires |v| == 16
    ensures ToColumnMajor(FromColumnMajor(v)) == v
  {
    var r := ToColumnMajor(FromColumnMajor(v));
    forall k | 0 <= k < 16
      ensures r[k] == v[k]
    {
      assert 4 * (k / 4) + k % 4 == k;
    }
  }

  /** `matrix[:3, 3]`: the translation column. */
  function Translation(m: Mat4): Vec3 {
    Vec3(m[0][3], m[1][3], m[2][3])
  }

  /** `m @ (x, y, z, 1)`, keeping the first three components. */
  function ApplyPoint(m: Mat4, p: Vec3): (q: Vec3)
    ensures q.x == m[0][0] * p.x + m[0][1] * p.y + m[0][2] * p.z + m[0][3]
    ensures q.y == m[1][0] * p.x + m[1][1] * p.y + m[1][2] * p.z + m[1][3]
    ensures q.z == m[2][0] * p.x + m[2][1] * p.y + m[2][2] * p.z + m[2][3]
  {
    Vec3(
      m[0][0] * p.x + m[0][1] * p.y + m[0][2] * p.z + m[0][3] * 1.0,
      m[1][0] * p.x + m[1][1] * p.y + m[1][2] * p.z + m[1][3] * 1.0,
      m[2][0] * p.x + m[2][1] * p.y + m[2][2] * p.z + m[2][3] * 1.0)
  }

  /** The point at the local origin lands exactly on the translation column. */
  lemma ApplyOriginIsTranslation(m: Mat4)
    ensures ApplyPoint(m, Vec3(0.0, 0.0, 0.0)) == Translation(m)
  {
  }

  /** The identity matrix is neutral on both sides of the product. */
  lemma MulIdentity(m: Mat4)
    ensures Mul(Identity(), m) == m
    ensures Mul(m, Identity()) == m
  {
    var l := Mul(Identity(), m);
    var r := Mul(m, Identity());
    forall i | 0 <= i < 4
      ensures l[i] == m[i] && r[i] == m[i]
    {
      assert l[i][0] == m[i][0] && l[i][1] == m[i][1] && l[i][2] == m[i][2] && l[i][3] == m[i][3];
      assert r[i][0] == m[i][0] && r[i][1] == m[i][1] && r[i][2] == m[i][2] && r[i][3] == m[i][3];
    }
  }

  /** The bottom row of an affine transform is (0, 0, 0, 1). */
  predicate IsAffine(m: Mat4) {
    m[3][0] == 0.0 && m[3][1] == 0.0 && m[3][2] == 0.0 && m[3][3] == 1.0
  }

  /** One row of the product applied to a point, expanded: the scalar identity
      behind `ApplyMul`, with `qx, qy, qz` the point after the right factor. */
  lemma RowExpand(a0: real, a1: real, a2: real, a3: real,
                  b00: real, b01: real, b02: real, b03: real,
                  b10: real, b11: real, b12: real, b13: real,
                  b20: real, b21: real, b22: real, b23: real,
                  x: real, y: real, z: real, qx: real, qy: real, qz: real)
    requires qx == b00 * x + b01 * y + b02 * z + b03
    requires qy == b10 * x + b11 * y + b12 * z + b13
    requires qz == b20 * x + b21 * y + b22 * z + b23
    ensures (a0 * b00 + a1 * b10 + a2 * b20 + a3 * 0.0) * x
          + (a0 * b01 + a1 * b11 + a2 * b21 + a3 * 0.0) * y
          + (a0 * b02 + a1 * b12 + a2 * b22 + a3 * 0.0) * z
          + (a0 * b03 + a1 * b13 + a2 * b23 + a3 * 1.0)
         == a0 * qx + a1 * qy + a2 * qz + a3
  {
    calc {
      a0 * qx + a1 * qy + a2 * qz + a3;
      a0 * (b00 * x + b01 * y + b02 * z + b03) + a1 * (b10 * x + b11 * y + b12 * z + b13)
        + a2 * (b20 * x + b21 * y + b22 * z + b23) + a3;
    }
  }

  /** Row `i` of the product applied to `p` is row `i` of `a` applied to `b p`. */
  lemma ApplyMulRow(a: Mat4, b: Mat4, p: Vec3, i: nat)
    requires IsAffine(b) && i < 3
    ensures var q := ApplyPoint(b, p);
            Mul(a, b)[i][0] * p.x + Mul(a, b)[i][1] * p.y + Mul(a, b)[i][2] * p.z + Mul(a, b)[i][3]
              == a[i][0] * q.x + a[i][1] * q.y + a[i][2] * q.z + a[i][3]
  {
    var m := Mul(a, b);
    var q := ApplyPoint(b, p);
    assert m[i][0] == Dot(a, b, i, 0) && m[i][1] == Dot(a, b, i, 1);
    assert m[i][2] == Dot(a, b, i, 2) && m[i][3] == Dot(a, b, i, 3);
    RowExpand(a[i][0], a[i][1], a[i][2], a[i][3],
              b[0][0], b[0][1], b[0][2], b[0][3],
              b[1][0], b[1][1], b[1][2], b[1][3],
              b[2][0], b[2][1], b[2][2], b[2][3],
              p.x, p.y, p.z, q.x, q.y, q.z);
  }

  /** Transforming by a product is transforming by the right factor, then the
      left one, when the right factor is affine. */
  lemma ApplyMul(a: Mat4, b: Mat4, p: Vec3)
    requires IsAffine(b)
    ensures ApplyPoint(Mul(a, b), p) == ApplyPoint(a, ApplyPoint(b, p))
  {
    var l := ApplyPoint(Mul(a, b), p);
    var r := ApplyPoint(a, ApplyPoint(b, p));
    ApplyMulRow(a, b, p, 0);
    ApplyMulRow(a, b, p, 1);
    ApplyMulRow(a, b, p, 2);
    assert l.x == r.x && l.y == r.y && l.z == r.z;
  }
}
