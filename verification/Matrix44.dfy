/**
 * code/morgue/_matrix44.h over exact reals: multiplication, inversion, and the fast forms for affine
 * matrices. Row vectors are multiplied from the left; `mRC` is the element in row R, column C. The
 * object whose methods overwrite the elements in place is in module MatrixObjects.
 */
module Matrices {
  import opened Reals

  datatype M4 = M4(
    m11: real, m12: real, m13: real, m14: real,
    m21: real, m22: real, m23: real, m24: real,
    m31: real, m32: real, m33: real, m34: real,
    m41: real, m42: real, m43: real, m44: real)

  const IDENTITY: M4 :=
    M4(1.0, 0.0, 0.0, 0.0,
       0.0, 1.0, 0.0, 0.0,
       0.0, 0.0, 1.0, 0.0,
       0.0, 0.0, 0.0, 1.0)

  // ----- rows and columns -----

  datatype V4 = V4(x: real, y: real, z: real, w: real)

  function R1(a: M4): V4 { V4(a.m11, a.m12, a.m13, a.m14) }
  function R2(a: M4): V4 { V4(a.m21, a.m22, a.m23, a.m24) }
  function R3(a: M4): V4 { V4(a.m31, a.m32, a.m33, a.m34) }
  function R4(a: M4): V4 { V4(a.m41, a.m42, a.m43, a.m44) }
  function C1(a: M4): V4 { V4(a.m11, a.m21, a.m31, a.m41) }
  function C2(a: M4): V4 { V4(a.m12, a.m22, a.m32, a.m42) }
  function C3(a: M4): V4 { V4(a.m13, a.m23, a.m33, a.m43) }
  function C4(a: M4): V4 { V4(a.m14, a.m24, a.m34, a.m44) }

  function FromRows(p: V4, q: V4, r: V4, s: V4): M4 {
    M4(p.x, p.y, p.z, p.w, q.x, q.y, q.z, q.w, r.x, r.y, r.z, r.w, s.x, s.y, s.z, s.w)
  }

  function Transpose(a: M4): M4 {
    FromRows(C1(a), C2(a), C3(a), C4(a))
  }

  function Dot(p: V4, q: V4): real {
    p.x * q.x + p.y * q.y + p.z * q.z + p.w * q.w
  }

  function Times(s: real, p: V4): V4 {
    V4(Product(s, p.x), Product(s, p.y), Product(s, p.z), Product(s, p.w))
  }

  // ----- multiplication -----

  /** A row vector times a matrix: one row of the product. */
  function RowMul(p: V4, b: M4): V4 {
    V4(Dot(p, C1(b)), Dot(p, C2(b)), Dot(p, C3(b)), Dot(p, C4(b)))
  }

  function Mul(a: M4, b: M4): M4 {
    FromRows(RowMul(R1(a), b), RowMul(R2(a), b), RowMul(R3(a), b), RowMul(R4(a), b))
  }

  function Row(a: M4, i: nat): V4
    requires i < 4
  {
    match i case 0 => R1(a) case 1 => R2(a) case 2 => R3(a) case _ => R4(a)
  }

  function Element(p: V4, j: nat): real
    requires j < 4
  {
    match j case 0 => p.x case 1 => p.y case 2 => p.z case _ => p.w
  }

  /** Row i, column j of a product is row i of the left factor times column j of the right one. */
  lemma MulElement(a: M4, b: M4, i: nat, j: nat)
    requires i < 4 && j < 4
    ensures Element(Row(Mul(a, b), i), j)
         == Element(Row(a, i), 0) * Element(Row(b, 0), j) + Element(Row(a, i), 1) * Element(Row(b, 1), j)
          + Element(Row(a, i), 2) * Element(Row(b, 2), j) + Element(Row(a, i), 3) * Element(Row(b, 3), j)
  {
    hide Dot;
    RowMulElement(Row(a, i), b, j);
  }

  lemma RowMulElement(p: V4, b: M4, j: nat)
    requires j < 4
    ensures Element(RowMul(p, b), j)
         == p.x * Element(R1(b), j) + p.y * Element(R2(b), j) + p.z * Element(R3(b), j) + p.w * Element(R4(b), j)
  {
  }

  function Triple(x: real, y: real, z: real): real { x * y * z }

  lemma DotTriples(p: V4, q: V4, c: real)
    ensures Product(Dot(p, q), c) == Triple(p.x, q.x, c) + Triple(p.y, q.y, c) + Triple(p.z, q.z, c) + Triple(p.w, q.w, c)
  {
  }

  lemma TriplesDot(p: real, q: V4, c: V4)
    ensures Product(p, Dot(q, c)) == Triple(p, q.x, c.x) + Triple(p, q.y, c.y) + Triple(p, q.z, c.z) + Triple(p, q.w, c.w)
  {
  }

  lemma DotProducts(p: V4, q: V4)
    ensures Dot(p, q) == Product(p.x, q.x) + Product(p.y, q.y) + Product(p.z, q.z) + Product(p.w, q.w)
  {
  }

  function MulColumn(b: M4, c: V4): V4 {
    V4(Dot(R1(b), c), Dot(R2(b), c), Dot(R3(b), c), Dot(R4(b), c))
  }

  /** (pb)c == p(bc) for a row `p` and a column `c`. */
  lemma DotAssoc(p: V4, b: M4, c: V4)
    ensures Dot(RowMul(p, b), c) == Dot(p, MulColumn(b, c))
  {
    hide Dot, Product, Triple;
    DotProducts(RowMul(p, b), c);
    DotProducts(p, MulColumn(b, c));
    DotTriples(p, C1(b), c.x);
    DotTriples(p, C2(b), c.y);
    DotTriples(p, C3(b), c.z);
    DotTriples(p, C4(b), c.w);
    TriplesDot(p.x, R1(b), c);
    TriplesDot(p.y, R2(b), c);
    TriplesDot(p.z, R3(b), c);
    TriplesDot(p.w, R4(b), c);
  }

  lemma RowMulAssoc(p: V4, b: M4, c: M4)
    ensures RowMul(RowMul(p, b), c) == RowMul(p, Mul(b, c))
  {
    hide Dot;
    DotAssoc(p, b, C1(c));
    DotAssoc(p, b, C2(c));
    DotAssoc(p, b, C3(c));
    DotAssoc(p, b, C4(c));
  }

  lemma MulAssoc(a: M4, b: M4, c: M4)
    ensures Mul(Mul(a, b), c) == Mul(a, Mul(b, c))
  {
    hide Dot, RowMul;
    RowMulAssoc(R1(a), b, c);
    RowMulAssoc(R2(a), b, c);
    RowMulAssoc(R3(a), b, c);
    RowMulAssoc(R4(a), b, c);
  }

  lemma MulIdentity(a: M4)
    ensures Mul(a, IDENTITY) == a == Mul(IDENTITY, a)
  {
  }

  lemma DotCommutes(p: V4, q: V4)
    ensures Dot(p, q) == Dot(q, p)
  {
  }

  lemma TransposeMul(a: M4, b: M4)
    ensures Transpose(Mul(a, b)) == Mul(Transpose(b), Transpose(a))
  {
    hide Dot;
    forall p, q ensures Dot(p, q) == Dot(q, p) {
      DotCommutes(p, q);
    }
  }

  // ----- inversion -----

  function Det(a: M4): real {
    Volume(R1(a), R2(a), R3(a), R4(a))
  }

  /** The determinant of four rows. */
  function Volume(p: V4, q: V4, r: V4, s: V4): real {
    (p.x * q.y - p.y * q.x) * (r.z * s.w - r.w * s.z)
    - (p.x * q.z - p.z * q.x) * (r.y * s.w - r.w * s.y)
    + (p.x * q.w - p.w * q.x) * (r.y * s.z - r.z * s.y)
    + (p.y * q.z - p.z * q.y) * (r.x * s.w - r.w * s.x)
    - (p.y * q.w - p.w * q.y) * (r.x * s.z - r.z * s.x)
    + (p.z * q.w - p.w * q.z) * (r.x * s.y - r.y * s.x)
  }

  /** The vector of cofactors of the row missing before `q`, `r`, `s`. */
  function Cofactors(q: V4, r: V4, s: V4): V4 {
    V4(q.y * (r.z * s.w - r.w * s.z) + q.z * (r.w * s.y - r.y * s.w) + q.w * (r.y * s.z - r.z * s.y),
       q.z * (r.x * s.w - r.w * s.x) + q.w * (r.z * s.x - r.x * s.z) + q.x * (r.w * s.z - r.z * s.w),
       q.w * (r.x * s.y - r.y * s.x) + q.x * (r.y * s.w - r.w * s.y) + q.y * (r.w * s.x - r.x * s.w),
       q.x * (r.z * s.y - r.y * s.z) + q.y * (r.x * s.z - r.z * s.x) + q.z * (r.y * s.x - r.x * s.y))
  }

  /** The sixteen factors `invert` multiplies by 1/det. */
  function Adjugate(a: M4): M4 {
    M4(a.m22*(a.m33*a.m44 - a.m34*a.m43) + a.m23*(a.m34*a.m42 - a.m32*a.m44) + a.m24*(a.m32*a.m43 - a.m33*a.m42),
       a.m32*(a.m13*a.m44 - a.m14*a.m43) + a.m33*(a.m14*a.m42 - a.m12*a.m44) + a.m34*(a.m12*a.m43 - a.m13*a.m42),
       a.m42*(a.m13*a.m24 - a.m14*a.m23) + a.m43*(a.m14*a.m22 - a.m12*a.m24) + a.m44*(a.m12*a.m23 - a.m13*a.m22),
       a.m12*(a.m24*a.m33 - a.m23*a.m34) + a.m13*(a.m22*a.m34 - a.m24*a.m32) + a.m14*(a.m23*a.m32 - a.m22*a.m33),
       a.m23*(a.m31*a.m44 - a.m34*a.m41) + a.m24*(a.m33*a.m41 - a.m31*a.m43) + a.m21*(a.m34*a.m43 - a.m33*a.m44),
       a.m33*(a.m11*a.m44 - a.m14*a.m41) + a.m34*(a.m13*a.m41 - a.m11*a.m43) + a.m31*(a.m14*a.m43 - a.m13*a.m44),
       a.m43*(a.m11*a.m24 - a.m14*a.m21) + a.m44*(a.m13*a.m21 - a.m11*a.m23) + a.m41*(a.m14*a.m23 - a.m13*a.m24),
       a.m13*(a.m24*a.m31 - a.m21*a.m34) + a.m14*(a.m21*a.m33 - a.m23*a.m31) + a.m11*(a.m23*a.m34 - a.m24*a.m33),
       a.m24*(a.m31*a.m42 - a.m32*a.m41) + a.m21*(a.m32*a.m44 - a.m34*a.m42) + a.m22*(a.m34*a.m41 - a.m31*a.m44),
       a.m34*(a.m11*a.m42 - a.m12*a.m41) + a.m31*(a.m12*a.m44 - a.m14*a.m42) + a.m32*(a.m14*a.m41 - a.m11*a.m44),
       a.m44*(a.m11*a.m22 - a.m12*a.m21) + a.m41*(a.m12*a.m24 - a.m14*a.m22) + a.m42*(a.m14*a.m21 - a.m11*a.m24),
       a.m14*(a.m22*a.m31 - a.m21*a.m32) + a.m11*(a.m24*a.m32 - a.m22*a.m34) + a.m12*(a.m21*a.m34 - a.m24*a.m31),
       a.m21*(a.m33*a.m42 - a.m32*a.m43) + a.m22*(a.m31*a.m43 - a.m33*a.m41) + a.m23*(a.m32*a.m41 - a.m31*a.m42),
       a.m31*(a.m13*a.m42 - a.m12*a.m43) + a.m32*(a.m11*a.m43 - a.m13*a.m41) + a.m33*(a.m12*a.m41 - a.m11*a.m42),
       a.m41*(a.m13*a.m22 - a.m12*a.m23) + a.m42*(a.m11*a.m23 - a.m13*a.m21) + a.m43*(a.m12*a.m21 - a.m11*a.m22),
       a.m11*(a.m22*a.m33 - a.m23*a.m32) + a.m12*(a.m23*a.m31 - a.m21*a.m33) + a.m13*(a.m21*a.m32 - a.m22*a.m31))
  }

  function Scale(s: real, a: M4): M4 {
    FromRows(Times(s, R1(a)), Times(s, R2(a)), Times(s, R3(a)), Times(s, R4(a)))
  }

  /** What `invert` leaves in the matrix. */
  function Inverse(a: M4): M4 {
    if Det(a) == 0.0 then a else Scale(1.0 / Det(a), Adjugate(a))
  }

  lemma DotCofactors(p: V4, q: V4, r: V4, s: V4)
    ensures Dot(p, Cofactors(q, r, s)) == Volume(p, q, r, s)
  {
    var c := Cofactors(q, r, s);
    assert p.x * c.x == p.x * (q.y * (r.z * s.w - r.w * s.z) + q.z * (r.w * s.y - r.y * s.w) + q.w * (r.y * s.z - r.z * s.y));
    assert p.y * c.y == p.y * (q.z * (r.x * s.w - r.w * s.x) + q.w * (r.z * s.x - r.x * s.z) + q.x * (r.w * s.z - r.z * s.w));
    assert p.z * c.z == p.z * (q.w * (r.x * s.y - r.y * s.x) + q.x * (r.y * s.w - r.w * s.y) + q.y * (r.w * s.x - r.x * s.w));
    assert p.w * c.w == p.w * (q.x * (r.z * s.y - r.y * s.z) + q.y * (r.x * s.z - r.z * s.x) + q.z * (r.y * s.x - r.x * s.y));
  }

  /** Exchanging neighbouring rows changes the sign; equal neighbours give zero. */
  lemma VolumeAlternates(p: V4, q: V4, r: V4, s: V4)
    ensures Volume(q, p, r, s) == -Volume(p, q, r, s)
    ensures Volume(p, r, q, s) == -Volume(p, q, r, s)
    ensures Volume(p, q, s, r) == -Volume(p, q, r, s)
  {
  }

  lemma VolumeRepeats(p: V4, q: V4, r: V4)
    ensures Volume(p, p, q, r) == 0.0 && Volume(p, q, p, r) == 0.0 && Volume(p, q, r, p) == 0.0
  {
  }

  lemma DotTimes(s: real, p: V4, q: V4)
    ensures Dot(p, Times(s, q)) == s * Dot(p, q)
  {
    var t := Times(s, q);
    assert p.x * t.x == p.x * (s * q.x);
    assert p.y * t.y == p.y * (s * q.y);
    assert p.z * t.z == p.z * (s * q.z);
    assert p.w * t.w == p.w * (s * q.w);
    assert s * Dot(p, q) == s * (p.x * q.x + p.y * q.y + p.z * q.z + p.w * q.w);
  }

  lemma ScaledColumns(s: real, a: M4)
    ensures C1(Scale(s, a)) == Times(s, C1(a)) && C2(Scale(s, a)) == Times(s, C2(a))
    ensures C3(Scale(s, a)) == Times(s, C3(a)) && C4(Scale(s, a)) == Times(s, C4(a))
  {
    hide Product;
  }

  /** Column by column, the factors are cofactor vectors. */
  lemma AdjugateColumn1(a: M4)
    ensures C1(Adjugate(a)) == Cofactors(R2(a), R3(a), R4(a))
  {
  }

  lemma AdjugateColumn2(a: M4)
    ensures C2(Adjugate(a)) == Cofactors(R3(a), R1(a), R4(a))
  {
  }

  lemma AdjugateColumn3(a: M4)
    ensures C3(Adjugate(a)) == Cofactors(R4(a), R1(a), R2(a))
  {
  }

  lemma AdjugateColumn4(a: M4)
    ensures C4(Adjugate(a)) == Cofactors(R1(a), R3(a), R2(a))
  {
  }

  /** One row of a times its inverse: row `p` against the four scaled columns. */
  lemma RowTimesInverse(p: V4, a: M4)
    requires Det(a) != 0.0
    ensures RowMul(p, Inverse(a)) == Times(1.0 / Det(a), V4(
      Volume(p, R2(a), R3(a), R4(a)), Volume(p, R3(a), R1(a), R4(a)),
      Volume(p, R4(a), R1(a), R2(a)), Volume(p, R1(a), R3(a), R2(a))))
  {
    hide Dot, Cofactors, Volume, Det, Adjugate, Scale, C1, C2, C3, C4, R1, R2, R3, R4;
    var s, adj := 1.0 / Det(a), Adjugate(a);
    ScaledColumns(s, adj);
    AdjugateColumn1(a);
    AdjugateColumn2(a);
    AdjugateColumn3(a);
    AdjugateColumn4(a);
    DotTimes(s, p, C1(adj));
    DotTimes(s, p, C2(adj));
    DotTimes(s, p, C3(adj));
    DotTimes(s, p, C4(adj));
    DotCofactors(p, R2(a), R3(a), R4(a));
    DotCofactors(p, R3(a), R1(a), R4(a));
    DotCofactors(p, R4(a), R1(a), R2(a));
    DotCofactors(p, R1(a), R3(a), R2(a));
  }

  lemma RightInverse(a: M4)
    requires Det(a) != 0.0
    ensures Mul(a, Inverse(a)) == IDENTITY
  {
    hide Dot, Cofactors, Volume, RowMul, Inverse;
    var p, q, r, s := R1(a), R2(a), R3(a), R4(a);
    RowTimesInverse(p, a);
    RowTimesInverse(q, a);
    RowTimesInverse(r, a);
    RowTimesInverse(s, a);
    assert Volume(q, r, p, s) == Det(a) by {
      VolumeAlternates(p, q, r, s);
      VolumeAlternates(q, p, r, s);
    }
    assert Volume(r, s, p, q) == Det(a) by {
      VolumeAlternates(p, q, r, s);
      VolumeAlternates(p, r, q, s);
      VolumeAlternates(r, p, q, s);
      VolumeAlternates(r, p, s, q);
    }
    assert Volume(s, p, r, q) == Det(a) by {
      VolumeAlternates(p, q, r, s);
      VolumeAlternates(p, r, q, s);
      VolumeAlternates(p, r, s, q);
      VolumeAlternates(p, s, r, q);
    }
    VolumeRepeats(p, r, s);
    VolumeRepeats(p, s, q);
    VolumeRepeats(p, r, q);
    VolumeRepeats(q, r, s);
    VolumeRepeats(q, s, p);
    VolumeRepeats(q, p, r);
    VolumeRepeats(r, q, s);
    VolumeRepeats(r, p, s);
    VolumeRepeats(r, p, q);
    VolumeRepeats(s, q, r);
    VolumeRepeats(s, r, p);
    VolumeRepeats(s, p, q);
  }

  lemma DetTranspose(a: M4)
    ensures Det(Transpose(a)) == Det(a)
  {
  }

  /** A left inverse and a right inverse are equal, so the right inverse is two-sided. */
  lemma TwoSidedInverse(a: M4)
    requires Det(a) != 0.0
    ensures Mul(a, Inverse(a)) == IDENTITY && Mul(Inverse(a), a) == IDENTITY
  {
    hide Dot, Det, RowMul, Inverse, Mul;
    RightInverse(a);
    DetTranspose(a);
    var t := Transpose(a);
    RightInverse(t);
    TransposeMul(t, Inverse(t));
    var left := Transpose(Inverse(t));
    assert Transpose(t) == a && Transpose(IDENTITY) == IDENTITY;
    MulAssoc(left, a, Inverse(a));
    MulIdentity(left);
    MulIdentity(Inverse(a));
  }

  /** The determinant is linear in its first row. */
  lemma VolumeLinear(l: V4, b: M4, q: V4, r: V4, s: V4)
    ensures Volume(RowMul(l, b), q, r, s) == l.x * Volume(R1(b), q, r, s) + l.y * Volume(R2(b), q, r, s)
                                           + l.z * Volume(R3(b), q, r, s) + l.w * Volume(R4(b), q, r, s)
  {
    hide Volume, Dot;
    var c := Cofactors(q, r, s);
    DotCofactors(RowMul(l, b), q, r, s);
    DotAssoc(l, b, c);
    DotCofactors(R1(b), q, r, s);
    DotCofactors(R2(b), q, r, s);
    DotCofactors(R3(b), q, r, s);
    DotCofactors(R4(b), q, r, s);
    UnfoldDot(l, MulColumn(b, c));
  }

  lemma UnfoldDot(p: V4, q: V4)
    ensures Dot(p, q) == p.x * q.x + p.y * q.y + p.z * q.z + p.w * q.w
  {
  }

  ghost predicate IsRow(p: V4, b: M4) {
    p == R1(b) || p == R2(b) || p == R3(b) || p == R4(b)
  }

  lemma SingularRows(b: M4, p: V4, q: V4, r: V4, s: V4)
    requires Det(b) == 0.0 && IsRow(p, b) && IsRow(q, b) && IsRow(r, b) && IsRow(s, b)
    ensures Volume(p, q, r, s) == 0.0
  {
    hide Volume, R1, R2, R3, R4;
    forall p, q, r, s
      ensures Volume(q, p, r, s) == -Volume(p, q, r, s)
      ensures Volume(p, r, q, s) == -Volume(p, q, r, s)
      ensures Volume(p, q, s, r) == -Volume(p, q, r, s)
    {
      VolumeAlternates(p, q, r, s);
    }
  }

  /** Rows of lb are combinations of rows of b; one after the other, they can be expanded by linearity. */
  lemma SingularCombination1(b: M4, k: V4, q: V4, r: V4, s: V4)
    requires Det(b) == 0.0 && IsRow(q, b) && IsRow(r, b) && IsRow(s, b)
    ensures Volume(RowMul(k, b), q, r, s) == 0.0
  {
    hide Volume, RowMul, Det, R1, R2, R3, R4;
    VolumeLinear(k, b, q, r, s);
    SingularRows(b, R1(b), q, r, s);
    SingularRows(b, R2(b), q, r, s);
    SingularRows(b, R3(b), q, r, s);
    SingularRows(b, R4(b), q, r, s);
  }

  lemma SingularCombination2(b: M4, k: V4, l: V4, r: V4, s: V4)
    requires Det(b) == 0.0 && IsRow(r, b) && IsRow(s, b)
    ensures Volume(RowMul(k, b), RowMul(l, b), r, s) == 0.0
  {
    hide Volume, RowMul, Det, R1, R2, R3, R4;
    VolumeLinear(k, b, RowMul(l, b), r, s);
    forall p | IsRow(p, b) ensures Volume(p, RowMul(l, b), r, s) == 0.0 {
      SingularCombination1(b, l, p, r, s);
      VolumeAlternates(p, RowMul(l, b), r, s);
    }
    assert IsRow(R1(b), b) && IsRow(R2(b), b) && IsRow(R3(b), b) && IsRow(R4(b), b);
  }

  lemma SingularCombination3(b: M4, k: V4, l: V4, m: V4, s: V4)
    requires Det(b) == 0.0 && IsRow(s, b)
    ensures Volume(RowMul(k, b), RowMul(l, b), RowMul(m, b), s) == 0.0
  {
    hide Volume, RowMul, Det, R1, R2, R3, R4;
    var q, r := RowMul(l, b), RowMul(m, b);
    VolumeLinear(k, b, q, r, s);
    forall p | IsRow(p, b) ensures Volume(p, q, r, s) == 0.0 {
      SingularCombination2(b, l, m, p, s);
      VolumeAlternates(q, p, r, s);
      VolumeAlternates(p, q, r, s);
    }
    assert IsRow(R1(b), b) && IsRow(R2(b), b) && IsRow(R3(b), b) && IsRow(R4(b), b);
  }

  /** A product with a singular right factor is singular. */
  lemma SingularProduct(a: M4, b: M4)
    requires Det(b) == 0.0
    ensures Det(Mul(a, b)) == 0.0
  {
    hide Volume, RowMul, Det, R1, R2, R3, R4;
    var q, r, s := RowMul(R2(a), b), RowMul(R3(a), b), RowMul(R4(a), b);
    VolumeLinear(R1(a), b, q, r, s);
    forall p | IsRow(p, b) ensures Volume(p, q, r, s) == 0.0 {
      SingularCombination3(b, R2(a), R3(a), R4(a), p);
      VolumeAlternates(q, r, p, s);
      VolumeAlternates(q, p, r, s);
      VolumeAlternates(p, q, r, s);
    }
    assert IsRow(R1(b), b) && IsRow(R2(b), b) && IsRow(R3(b), b) && IsRow(R4(b), b);
    assert Volume(RowMul(R1(a), b), q, r, s) == 0.0;
    DetOfRows(RowMul(R1(a), b), q, r, s);
  }

  lemma DetOfRows(p: V4, q: V4, r: V4, s: V4)
    ensures Det(FromRows(p, q, r, s)) == Volume(p, q, r, s)
  {
    hide Volume;
  }

  /** `invert` yields a two-sided inverse exactly when one exists on the right at all; otherwise it changes nothing. */
  lemma InverseIff(a: M4)
    ensures Det(a) != 0.0 ==> Mul(a, Inverse(a)) == IDENTITY && Mul(Inverse(a), a) == IDENTITY
    ensures Det(a) == 0.0 ==> Inverse(a) == a && forall b :: Mul(a, b) != IDENTITY
  {
    hide Dot, Det, RowMul, Mul, Volume;
    if Det(a) != 0.0 {
      TwoSidedInverse(a);
    } else {
      forall b ensures Mul(a, b) != IDENTITY {
        TransposeMul(a, b);
        DetTranspose(a);
        SingularProduct(Transpose(b), Transpose(a));
        assert Transpose(IDENTITY) == IDENTITY;
        DetOfIdentity();
      }
    }
  }

  lemma DetOfIdentity()
    ensures Det(IDENTITY) == 1.0
  {
  }

  // ----- affine matrices: fourth column 0, 0, 0, 1 -----

  predicate Affine(a: M4) {
    C4(a) == V4(0.0, 0.0, 0.0, 1.0)
  }

  /** The first three elements of a row after `mult_simple`'s loop; the last one is untouched there. */
  function Mul3(p: V4, b: M4): (r: V4)
    ensures r.w == p.w
  {
    V4(p.x * b.m11 + p.y * b.m21 + p.z * b.m31,
       p.x * b.m12 + p.y * b.m22 + p.z * b.m32,
       p.x * b.m13 + p.y * b.m23 + p.z * b.m33, p.w)
  }

  /** The end of `mult_simple`: a translation added and the last column set. */
  function WithTranslation(a: M4, t: V4): M4 {
    FromRows(R1(a).(w := 0.0), R2(a).(w := 0.0), R3(a).(w := 0.0), V4(a.m41 + t.x, a.m42 + t.y, a.m43 + t.z, 1.0))
  }

  lemma EndsAffine(a: M4, t: V4)
    ensures Affine(WithTranslation(a, t))
  {
  }

  /** What `mult_simple` computes, for any two matrices. */
  function MulSimple(a: M4, b: M4): M4 {
    WithTranslation(FromRows(Mul3(R1(a), b), Mul3(R2(a), b), Mul3(R3(a), b), Mul3(R4(a), b)), R4(b))
  }

  /** One row of the product: the translation row of `b` enters exactly when the row's last element is 1. */
  lemma AffineRow(p: V4, b: M4)
    requires Affine(b) && (p.w == 0.0 || p.w == 1.0)
    ensures var r := Mul3(p, b);
      RowMul(p, b) == if p.w == 0.0 then r else V4(r.x + b.m41, r.y + b.m42, r.z + b.m43, 1.0)
  {
    assert b.m14 == 0.0 && b.m24 == 0.0 && b.m34 == 0.0 && b.m44 == 1.0;
  }

  lemma AffineProduct(a: M4, b: M4)
    requires Affine(a) && Affine(b)
    ensures MulSimple(a, b) == Mul(a, b) && Affine(Mul(a, b))
  {
    hide Dot, RowMul, Mul3;
    AffineRow(R1(a), b);
    AffineRow(R2(a), b);
    AffineRow(R3(a), b);
    AffineRow(R4(a), b);
  }

  /** The twelve factors `invert_simple` multiplies by 1/det, and the last column it sets. */
  function AdjugateSimple(a: M4): M4 {
    M4(a.m22*a.m33 - a.m23*a.m32, a.m32*a.m13 - a.m33*a.m12, a.m12*a.m23 - a.m13*a.m22, 0.0,
       a.m23*a.m31 - a.m21*a.m33, a.m33*a.m11 - a.m31*a.m13, a.m13*a.m21 - a.m11*a.m23, 0.0,
       a.m21*a.m32 - a.m22*a.m31, a.m31*a.m12 - a.m32*a.m11, a.m11*a.m22 - a.m12*a.m21, 0.0,
       a.m21*(a.m33*a.m42 - a.m32*a.m43) + a.m22*(a.m31*a.m43 - a.m33*a.m41) + a.m23*(a.m32*a.m41 - a.m31*a.m42),
       a.m31*(a.m13*a.m42 - a.m12*a.m43) + a.m32*(a.m11*a.m43 - a.m13*a.m41) + a.m33*(a.m12*a.m41 - a.m11*a.m42),
       a.m41*(a.m13*a.m22 - a.m12*a.m23) + a.m42*(a.m11*a.m23 - a.m13*a.m21) + a.m43*(a.m12*a.m21 - a.m11*a.m22),
       1.0)
  }

  /** What `invert_simple` leaves in the matrix. */
  function InverseSimple(a: M4): M4 {
    if Det(a) == 0.0 then a else Scale(1.0 / Det(a), AdjugateSimple(a)).(m44 := 1.0)
  }

  /** Whatever the matrix was, what `invert_simple` puts in its place is affine. */
  lemma InverseSimpleEndsAffine(a: M4)
    requires Det(a) != 0.0
    ensures Affine(InverseSimple(a))
  {
    hide Det;
    assert (1.0 / Det(a)) * 0.0 == 0.0;
  }

  lemma AffineInverse(a: M4)
    requires Affine(a)
    ensures InverseSimple(a) == Inverse(a) && Affine(Inverse(a))
  {
    AffineAdjugate(a);
    hide Det, Adjugate, AdjugateSimple;
    if Det(a) != 0.0 {
      var s, adj := 1.0 / Det(a), Adjugate(a);
      assert s * Det(a) == 1.0;
      assert s * adj.m14 == 0.0 && s * adj.m24 == 0.0 && s * adj.m34 == 0.0 && s * adj.m44 == 1.0;
    }
  }

  lemma AffineAdjugate(a: M4)
    requires Affine(a)
    ensures Adjugate(a) == AdjugateSimple(a).(m44 := Det(a))
    ensures C4(Adjugate(a)) == V4(0.0, 0.0, 0.0, Det(a))
  {
    assert a.m14 == 0.0 && a.m24 == 0.0 && a.m34 == 0.0 && a.m44 == 1.0;
  }

  // ----- multiplying a matrix by itself in place -----

  function WithRow(a: M4, i: nat, r: V4): M4
    requires i < 4
  {
    match i
    case 0 => FromRows(r, R2(a), R3(a), R4(a))
    case 1 => FromRows(R1(a), r, R3(a), R4(a))
    case 2 => FromRows(R1(a), R2(a), r, R4(a))
    case _ => FromRows(R1(a), R2(a), R3(a), r)
  }

  /** What the loop of `operator *=` leaves after `n` rows when both operands are one object: later rows read earlier ones. */
  function SelfRows(a: M4, n: nat): M4
    requires n <= 4
  {
    if n == 0 then a
    else
      var before := SelfRows(a, n - 1);
      WithRow(before, n - 1, RowMul(Row(before, n - 1), before))
  }

  function SelfRows3(a: M4, n: nat): M4
    requires n <= 4
  {
    if n == 0 then a
    else
      var before := SelfRows3(a, n - 1);
      WithRow(before, n - 1, Mul3(Row(before, n - 1), before))
  }

  /** `mult_simple` of a matrix by itself: its translation row is added to itself. */
  function MulSimpleSelf(a: M4): M4 {
    var r := SelfRows3(a, 4);
    WithTranslation(r, R4(r))
  }

  const ZERO_ROW := V4(0.0, 0.0, 0.0, 0.0)

  /** The elements below the diagonal. */
  function Lower(a: M4): M4 {
    FromRows(ZERO_ROW, V4(a.m21, 0.0, 0.0, 0.0), V4(a.m31, a.m32, 0.0, 0.0), V4(a.m41, a.m42, a.m43, 0.0))
  }

  function MinusRow(p: V4, q: V4): V4 {
    V4(p.x - q.x, p.y - q.y, p.z - q.z, p.w - q.w)
  }

  function Minus(a: M4, b: M4): M4 {
    FromRows(MinusRow(R1(a), R1(b)), MinusRow(R2(a), R2(b)), MinusRow(R3(a), R3(b)), MinusRow(R4(a), R4(b)))
  }

  const ZERO_MATRIX := FromRows(ZERO_ROW, ZERO_ROW, ZERO_ROW, ZERO_ROW)

  /** x p + y q + z r */
  function Combine(x: real, p: V4, y: real, q: V4, z: real, r: V4): V4 {
    V4(x * p.x + y * q.x + z * r.x, x * p.y + y * q.y + z * r.y, x * p.z + y * q.z + z * r.z, x * p.w + y * q.w + z * r.w)
  }

  /** What replacing the first three rows of the right factor changes in a row of the product. */
  lemma ReplacedRows(p: V4, a: M4, q1: V4, q2: V4, q3: V4)
    ensures MinusRow(RowMul(p, FromRows(q1, q2, q3, R4(a))), RowMul(p, a))
         == Combine(p.x, MinusRow(q1, R1(a)), p.y, MinusRow(q2, R2(a)), p.z, MinusRow(q3, R3(a)))
  {
    hide Dot;
    var b := FromRows(q1, q2, q3, R4(a));
    ReplacedDot(p, C1(b), C1(a));
    ReplacedDot(p, C2(b), C2(a));
    ReplacedDot(p, C3(b), C3(a));
    ReplacedDot(p, C4(b), C4(a));
  }

  lemma ReplacedDot(p: V4, c: V4, c': V4)
    requires c.w == c'.w
    ensures Dot(p, c) - Dot(p, c') == p.x * (c.x - c'.x) + p.y * (c.y - c'.y) + p.z * (c.z - c'.z)
  {
  }

  lemma LowerRow(l: V4, d: M4)
    requires l.w == 0.0
    ensures RowMul(l, d) == Combine(l.x, R1(d), l.y, R2(d), l.z, R3(d))
  {
  }

  lemma MinusIsZero(p: V4, q: V4)
    ensures MinusRow(p, q) == ZERO_ROW <==> p == q
  {
  }

  lemma CombineZero(x: real, p: V4, y: real, q: V4, z: real, q': V4, r: V4)
    ensures Combine(x, p, y, ZERO_ROW, z, ZERO_ROW) == Combine(x, p, 0.0, q', 0.0, r)
    ensures Combine(x, p, y, q, z, ZERO_ROW) == Combine(x, p, y, q, 0.0, r)
  {
  }

  /** The rows that must be changed in nothing by the rows of the square before them. */
  lemma SelfRowsIff(a: M4, q1: V4, q2: V4, q3: V4, d: M4)
    requires R1(d) == MinusRow(q1, R1(a)) && R2(d) == MinusRow(q2, R2(a)) && R3(d) == MinusRow(q3, R3(a))
    ensures RowMul(R2(a), FromRows(q1, R2(a), R3(a), R4(a))) == RowMul(R2(a), a) <==> RowMul(R2(Lower(a)), d) == ZERO_ROW
    ensures RowMul(R3(a), FromRows(q1, q2, R3(a), R4(a))) == RowMul(R3(a), a) <==> RowMul(R3(Lower(a)), d) == ZERO_ROW
    ensures RowMul(R4(a), FromRows(q1, q2, q3, R4(a))) == RowMul(R4(a), a) <==> RowMul(R4(Lower(a)), d) == ZERO_ROW
  {
    hide RowMul, Combine, MinusRow;
    MinusIsZero(R2(a), R2(a));
    MinusIsZero(R3(a), R3(a));
    ReplacedRows(R2(a), a, q1, R2(a), R3(a));
    ReplacedRows(R3(a), a, q1, q2, R3(a));
    ReplacedRows(R4(a), a, q1, q2, q3);
    LowerRow(R2(Lower(a)), d);
    LowerRow(R3(Lower(a)), d);
    LowerRow(R4(Lower(a)), d);
    CombineZero(a.m21, R1(d), a.m22, R2(d), a.m23, R2(d), R3(d));
    CombineZero(a.m31, R1(d), a.m32, R2(d), a.m33, R2(d), R3(d));
    MinusIsZero(RowMul(R2(a), FromRows(q1, R2(a), R3(a), R4(a))), RowMul(R2(a), a));
    MinusIsZero(RowMul(R3(a), FromRows(q1, q2, R3(a), R4(a))), RowMul(R3(a), a));
    MinusIsZero(RowMul(R4(a), FromRows(q1, q2, q3, R4(a))), RowMul(R4(a), a));
  }

  lemma SelfRowsUnrolled(a: M4)
    ensures var q1 := RowMul(R1(a), a);
      var q2 := RowMul(R2(a), FromRows(q1, R2(a), R3(a), R4(a)));
      var q3 := RowMul(R3(a), FromRows(q1, q2, R3(a), R4(a)));
      SelfRows(a, 4) == FromRows(q1, q2, q3, RowMul(R4(a), FromRows(q1, q2, q3, R4(a))))
  {
    hide RowMul;
    var q1 := RowMul(R1(a), a);
    assert SelfRows(a, 0) == a;
    assert SelfRows(a, 1) == FromRows(q1, R2(a), R3(a), R4(a));
    var q2 := RowMul(R2(a), SelfRows(a, 1));
    assert SelfRows(a, 2) == FromRows(q1, q2, R3(a), R4(a));
    var q3 := RowMul(R3(a), SelfRows(a, 2));
    assert SelfRows(a, 3) == FromRows(q1, q2, q3, R4(a));
  }

  /**
   * `m *= m` is the square of a matrix exactly if the part of it below the diagonal maps the difference
   * between the square and the matrix to zero: for upper triangular and for idempotent ones, say.
   */
  lemma SelfProductIff(a: M4)
    ensures SelfRows(a, 4) == Mul(a, a) <==> Mul(Lower(a), Minus(Mul(a, a), a)) == ZERO_MATRIX
  {
    hide RowMul, MinusRow, SelfRows;
    var s := Mul(a, a);
    var d := Minus(s, a);
    SelfRowsUnrolled(a);
    SelfRowsIff(a, R1(s), R2(s), R3(s), d);
    ZeroRowMul(d);
  }

  lemma ZeroRowMul(d: M4)
    ensures RowMul(ZERO_ROW, d) == ZERO_ROW
  {
  }

  lemma SelfRows3Unrolled(a: M4)
    requires Affine(a)
    ensures var q1 := RowMul(R1(a), a);
      var q2 := RowMul(R2(a), FromRows(q1, R2(a), R3(a), R4(a)));
      var q3 := RowMul(R3(a), FromRows(q1, q2, R3(a), R4(a)));
      && SelfRows3(a, 4) == FromRows(q1, q2, q3, Mul3(R4(a), FromRows(q1, q2, q3, R4(a))))
      && q1.w == q2.w == q3.w == 0.0
  {
    hide RowMul, Mul3;
    AffineRow(R1(a), a);
    assert SelfRows3(a, 0) == a;
    assert SelfRows3(a, 1) == FromRows(RowMul(R1(a), a), R2(a), R3(a), R4(a));
    AffineRow(R2(a), SelfRows3(a, 1));
    var q2 := RowMul(R2(a), SelfRows3(a, 1));
    assert SelfRows3(a, 2) == FromRows(RowMul(R1(a), a), q2, R3(a), R4(a));
    AffineRow(R3(a), SelfRows3(a, 2));
    var q3 := RowMul(R3(a), SelfRows3(a, 2));
    assert SelfRows3(a, 3) == FromRows(RowMul(R1(a), a), q2, q3, R4(a));
  }

  /** The translation row times the three rows above it, added to itself. */
  lemma TwiceMoved(a: M4, q1: V4, q2: V4, q3: V4)
    requires Affine(a)
    ensures var r := Mul3(R4(a), FromRows(q1, q2, q3, R4(a)));
      V4(r.x + r.x, r.y + r.y, r.z + r.z, 0.0) == Combine(2.0 * a.m41, q1, 2.0 * a.m42, q2, 2.0 * a.m43, q3).(w := 0.0)
  {
  }

  /**
   * `m.mult_simple(m)` is the square of an affine matrix exactly if what is below the diagonal in its second
   * and third row maps the difference between the square and the matrix to zero, and its translation, moved
   * by the three rows of the square and doubled, is the translation of the square.
   */
  lemma SimpleSelfProductIff(a: M4)
    requires Affine(a)
    ensures var s := Mul(a, a);
      var d := Minus(s, a);
      MulSimpleSelf(a) == s <==>
      && RowMul(R2(Lower(a)), d) == ZERO_ROW && RowMul(R3(Lower(a)), d) == ZERO_ROW
      && Combine(2.0 * a.m41, R1(s), 2.0 * a.m42, R2(s), 2.0 * a.m43, R3(s)).(w := 0.0) == R4(s).(w := 0.0)
  {
    AffineProduct(a, a);
    hide RowMul, Mul3, MinusRow, Combine, Lower, SelfRows3, MulSimple;
    var s := Mul(a, a);
    SelfRows3Unrolled(a);
    SelfRowsIff(a, R1(s), R2(s), R3(s), Minus(s, a));
    TwiceMoved(a, R1(s), R2(s), R3(s));
  }

  /** A matrix that doubles and moves by 1 along the x axis: done twice it moves by 3, the doubled sum says 8. */
  lemma SimpleSelfProductFails(a: M4)
    requires Affine(a) && R1(a) == V4(2.0, 0.0, 0.0, 0.0) && R4(a) == V4(1.0, 0.0, 0.0, 1.0)
    ensures Mul(a, a).m41 == 3.0 && MulSimpleSelf(a).m41 == 8.0
  {
    hide RowMul, Mul3, Combine, SelfRows3;
    SelfRows3Unrolled(a);
    var q1 := RowMul(R1(a), a);
    var q2 := RowMul(R2(a), FromRows(q1, R2(a), R3(a), R4(a)));
    var q3 := RowMul(R3(a), FromRows(q1, q2, R3(a), R4(a)));
    TwiceMoved(a, q1, q2, q3);
    UnitSums(a, q1, q2, q3);
  }

  lemma UnitSums(a: M4, q1: V4, q2: V4, q3: V4)
    requires Affine(a) && R1(a) == V4(2.0, 0.0, 0.0, 0.0) && R4(a) == V4(1.0, 0.0, 0.0, 1.0)
    ensures RowMul(R1(a), a).x == 4.0 && RowMul(R4(a), a).x == 3.0
    ensures Combine(2.0, q1, 0.0, q2, 0.0, q3).x == 2.0 * q1.x
  {
  }

  /** A matrix that exchanges the x and the y axis: its square leaves both alone, but in place one is lost. */
  lemma SelfProductFails(a: M4)
    requires R1(a) == V4(0.0, 1.0, 0.0, 0.0) && R2(a) == V4(1.0, 0.0, 0.0, 0.0)
    ensures R1(Mul(a, a)) == V4(1.0, 0.0, 0.0, 0.0) && R2(Mul(a, a)) == V4(0.0, 1.0, 0.0, 0.0)
    ensures R1(SelfRows(a, 4)) == V4(1.0, 0.0, 0.0, 0.0) == R2(SelfRows(a, 4))
  {
    hide SelfRows, RowMul;
    UnitRows(a);
    UnitRows(FromRows(RowMul(R1(a), a), R2(a), R3(a), R4(a)));
    SelfRowsUnrolled(a);
  }

  lemma UnitRows(b: M4)
    ensures RowMul(V4(1.0, 0.0, 0.0, 0.0), b) == R1(b) && RowMul(V4(0.0, 1.0, 0.0, 0.0), b) == R2(b)
    ensures RowMul(V4(0.0, 0.0, 1.0, 0.0), b) == R3(b) && RowMul(V4(0.0, 0.0, 0.0, 1.0), b) == R4(b)
  {
  }
}
