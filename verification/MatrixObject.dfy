/**
 * The matrix object of code/morgue/_matrix44.h: a 4x4 array whose elements the methods overwrite. Each
 * method leaves the value that module Matrices or Quaternions gives for the old elements.
 */
module MatrixObjects {
  import opened Matrices
  import opened Quaternions

  class Matrix44 {
    const m: array2<real>

    predicate Valid() {
      m.Length0 == 4 && m.Length1 == 4
    }

    function RowAt(i: nat): V4
      requires Valid() && i < 4
      reads m
    {
      V4(m[i, 0], m[i, 1], m[i, 2], m[i, 3])
    }

    function Value(): M4
      requires Valid()
      reads m
    {
      FromRows(RowAt(0), RowAt(1), RowAt(2), RowAt(3))
    }

    constructor ()
      ensures Valid() && fresh(m) && Value() == IDENTITY
    {
      m := new real[4, 4]((i, j) => if i == j then 1.0 else 0.0);
    }

    method Set(a: M4)
      requires Valid()
      modifies m
      ensures Value() == a
    {
      m[0, 0], m[0, 1], m[0, 2], m[0, 3] := a.m11, a.m12, a.m13, a.m14;
      m[1, 0], m[1, 1], m[1, 2], m[1, 3] := a.m21, a.m22, a.m23, a.m24;
      m[2, 0], m[2, 1], m[2, 2], m[2, 3] := a.m31, a.m32, a.m33, a.m34;
      m[3, 0], m[3, 1], m[3, 2], m[3, 3] := a.m41, a.m42, a.m43, a.m44;
    }

    method SetRow(i: nat, r: V4)
      requires Valid() && i < 4
      modifies m
      ensures RowAt(i) == r && forall k | 0 <= k < 4 && k != i :: RowAt(k) == old(RowAt(k))
    {
      m[i, 0], m[i, 1], m[i, 2], m[i, 3] := r.x, r.y, r.z, r.w;
    }

    /** `operator *=`; when the operand is the matrix itself, later rows read the new ones (see SelfProductIff). */
    method MulAssign(b: Matrix44)
      requires Valid() && b.Valid()
      modifies m
      ensures b.m != m ==> Value() == Mul(old(Value()), b.Value())
      ensures b.m == m ==> Value() == SelfRows(old(Value()), 4)
    {
      hide Dot, RowMul;
      ghost var (a, bv) := (Value(), b.Value());
      for i := 0 to 4
        invariant b.m != m ==> b.Value() == bv
        invariant b.m != m ==> forall k | 0 <= k < i :: RowAt(k) == RowMul(Row(a, k), bv)
        invariant b.m != m ==> forall k | i <= k < 4 :: RowAt(k) == Row(a, k)
        invariant b.m == m ==> Value() == SelfRows(a, i)
      {
        var r := MulRow(RowAt(i), b);
        SetRow(i, r);
      }
    }

    /** The four sums of one row of a product. */
    method MulRow(mi: V4, b: Matrix44) returns (r: V4)
      requires b.Valid()
      ensures r == RowMul(mi, b.Value())
    {
      r := V4(
        mi.x * b.m[0, 0] + mi.y * b.m[1, 0] + mi.z * b.m[2, 0] + mi.w * b.m[3, 0],
        mi.x * b.m[0, 1] + mi.y * b.m[1, 1] + mi.z * b.m[2, 1] + mi.w * b.m[3, 1],
        mi.x * b.m[0, 2] + mi.y * b.m[1, 2] + mi.z * b.m[2, 2] + mi.w * b.m[3, 2],
        mi.x * b.m[0, 3] + mi.y * b.m[1, 3] + mi.z * b.m[2, 3] + mi.w * b.m[3, 3]);
    }

    /** `mult_simple`: three products a row, then the translation row added and the last column set. */
    method MultSimple(b: Matrix44)
      requires Valid() && b.Valid()
      modifies m
      ensures b.m != m ==> Value() == MulSimple(old(Value()), b.Value())
      ensures b.m == m ==> Value() == MulSimpleSelf(old(Value()))
      ensures Affine(Value())
    {
      hide Mul3, SelfRows3, WithTranslation, Affine;
      MultRows3(b);
      EndsAffine(Value(), R4(b.Value()));
      AddTranslation(b);
    }

    method AddTranslation(b: Matrix44)
      requires Valid() && b.Valid()
      modifies m
      ensures Value() == WithTranslation(old(Value()), R4(old(b.Value())))
    {
      m[3, 0] := m[3, 0] + b.m[3, 0];
      m[3, 1] := m[3, 1] + b.m[3, 1];
      m[3, 2] := m[3, 2] + b.m[3, 2];
      m[0, 3], m[1, 3], m[2, 3], m[3, 3] := 0.0, 0.0, 0.0, 1.0;
    }

    method MultRows3(b: Matrix44)
      requires Valid() && b.Valid()
      modifies m
      ensures b.m != m ==> forall k | 0 <= k < 4 :: RowAt(k) == Mul3(Row(old(Value()), k), b.Value())
      ensures b.m == m ==> Value() == SelfRows3(old(Value()), 4)
    {
      hide Mul3;
      ghost var (a, bv) := (Value(), b.Value());
      for i := 0 to 4
        invariant b.m != m ==> b.Value() == bv
        invariant b.m != m ==> forall k | 0 <= k < i :: RowAt(k) == Mul3(Row(a, k), bv)
        invariant b.m != m ==> forall k | i <= k < 4 :: RowAt(k) == Row(a, k)
        invariant b.m == m ==> Value() == SelfRows3(a, i)
      {
        var r := MulRow3(RowAt(i), b);
        SetRow(i, r);
      }
    }

    /** The three sums of one row in `mult_simple`. */
    method MulRow3(mi: V4, b: Matrix44) returns (r: V4)
      requires b.Valid()
      ensures r == Mul3(mi, b.Value())
    {
      r := V4(
        mi.x * b.m[0, 0] + mi.y * b.m[1, 0] + mi.z * b.m[2, 0],
        mi.x * b.m[0, 1] + mi.y * b.m[1, 1] + mi.z * b.m[2, 1],
        mi.x * b.m[0, 2] + mi.y * b.m[1, 2] + mi.z * b.m[2, 2],
        mi.w);
    }

    method Invert()
      requires Valid()
      modifies m
      ensures Value() == Inverse(old(Value()))
      ensures Det(old(Value())) != 0.0 ==> Mul(old(Value()), Value()) == IDENTITY && Mul(Value(), old(Value())) == IDENTITY
    {
      hide Adjugate, Volume, Mul;
      var a := Value();
      InverseIff(a);
      var s := Det(a);
      if s == 0.0 {
        return;
      }
      s := 1.0 / s;
      Set(Scale(s, Adjugate(a)));
    }

    method InvertSimple()
      requires Valid()
      modifies m
      ensures Value() == InverseSimple(old(Value()))
      ensures Affine(old(Value())) ==> Value() == Inverse(old(Value()))
      ensures if Det(old(Value())) == 0.0 then Value() == old(Value()) else Affine(Value())
    {
      hide Volume, AdjugateSimple, Inverse;
      var a := Value();
      if Affine(a) {
        AffineInverse(a);
      }
      var s := Det(a);
      if s == 0.0 {
        return;
      }
      InverseSimpleEndsAffine(a);
      s := 1.0 / s;
      Set(Scale(s, AdjugateSimple(a)).(m44 := 1.0));
    }

    /** `get_quaternion`, with its index arithmetic; `sqrt` is n_sqrt. */
    method GetQuaternion(sqrt: real -> real) returns (q: Quaternion)
      requires Valid() && NonNegativeRoot(sqrt)
      ensures q == ToQuaternion(Value(), sqrt)
    {
      hide Pivot, Over;
      ghost var a := Value();
      RootIsPositive(a, sqrt);
      var qa := new real[4];
      var tr := m[0, 0] + m[1, 1] + m[2, 2];
      if tr > 0.0 {
        var s := sqrt(tr + 1.0);
        assert s == sqrt(Pivot(a)) by { PivotOf(a); }
        qa[3] := s * 0.5;
        qa[0] := Over(m[1, 2] - m[2, 1], s);
        qa[1] := Over(m[2, 0] - m[0, 2], s);
        qa[2] := Over(m[0, 1] - m[1, 0], s);
        q := Quaternion(qa[0], qa[1], qa[2], qa[3]);
      } else {
        q := QuaternionByDiagonal(sqrt);
      }
    }

    /** The branch for a non-positive trace: the largest diagonal element selects the component to divide by. */
    method QuaternionByDiagonal(sqrt: real -> real) returns (q: Quaternion)
      requires Valid() && NonNegativeRoot(sqrt) && Trace(Value()) <= 0.0
      ensures q == ToQuaternion(Value(), sqrt)
    {
      hide Pivot, Over, NonNegativeRoot;
      ghost var a := Value();
      RootIsPositive(a, sqrt);
      var nxt := [1, 2, 0];
      var i := 0;
      if m[1, 1] > m[0, 0] { i := 1; }
      if m[2, 2] > m[i, i] { i := 2; }
      assert i == Choice(a);
      var j := nxt[i];
      var k := nxt[j];
      var s := sqrt((m[i, i] - (m[j, j] + m[k, k])) + 1.0);
      assert s == sqrt(Pivot(a)) by { PivotOf(a); }
      var qa := new real[4];
      qa[i] := s * 0.5;
      qa[3] := Over(m[j, k] - m[k, j], s);
      qa[j] := Over(m[i, j] + m[j, i], s);
      qa[k] := Over(m[i, k] + m[k, i], s);
      q := Quaternion(qa[0], qa[1], qa[2], qa[3]);
      assert q == Normalise(a, s);
    }

    static lemma PivotOf(a: M4)
      ensures Pivot(a) == match Choice(a)
        case 0 => a.m11 - (a.m22 + a.m33) + 1.0
        case 1 => a.m22 - (a.m33 + a.m11) + 1.0
        case 2 => a.m33 - (a.m11 + a.m22) + 1.0
        case _ => a.m11 + a.m22 + a.m33 + 1.0
    {
    }
  }
}
