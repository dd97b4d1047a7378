/** Three-component vectors over exact reals: the operators of code/morgue/_vector3.h and their algebra. */
module Vectors {
  import opened Reals

  datatype V3 = V3(x: real, y: real, z: real)

  function Plus(a: V3, b: V3): V3 { V3(a.x + b.x, a.y + b.y, a.z + b.z) }

  function Minus(a: V3, b: V3): V3 { V3(a.x - b.x, a.y - b.y, a.z - b.z) }

  function Scaled(a: V3, s: real): V3 { V3(a.x * s, a.y * s, a.z * s) }

  /** operator % */
  function Dot(a: V3, b: V3): real { a.x * b.x + a.y * b.y + a.z * b.z }

  /** operator * of two vectors */
  function Cross(a: V3, b: V3): V3 {
    V3(a.y * b.z - a.z * b.y, a.z * b.x - a.x * b.z, a.x * b.y - a.y * b.x)
  }

  const ZERO := V3(0.0, 0.0, 0.0)

  const X_AXIS := V3(1.0, 0.0, 0.0)
  const Y_AXIS := V3(0.0, 1.0, 0.0)
  const Z_AXIS := V3(0.0, 0.0, 1.0)

  /** The cross product is the right-handed one. */
  lemma CrossOfAxes(b: V3)
    ensures Cross(X_AXIS, b) == V3(0.0, -b.z, b.y)
    ensures Cross(Y_AXIS, b) == V3(b.z, 0.0, -b.x)
    ensures Cross(Z_AXIS, b) == V3(-b.y, b.x, 0.0)
  {
  }

  lemma DotPlus(u: V3, a: V3, b: V3)
    ensures Dot(u, Plus(a, b)) == Dot(u, a) + Dot(u, b)
    ensures Dot(u, Minus(a, b)) == Dot(u, a) - Dot(u, b)
  {
  }

  lemma DotScaled(u: V3, a: V3, s: real)
    ensures Dot(u, Scaled(a, s)) == Dot(u, a) * s
  {
    assert u.x * (a.x * s) == u.x * a.x * s;
    assert u.y * (a.y * s) == u.y * a.y * s;
    assert u.z * (a.z * s) == u.z * a.z * s;
  }

  lemma DotCommutes(a: V3, b: V3)
    ensures Dot(a, b) == Dot(b, a)
  {
  }

  lemma CrossMinus(u: V3, a: V3, b: V3)
    ensures Cross(u, Minus(a, b)) == Minus(Cross(u, a), Cross(u, b))
  {
  }

  lemma CrossScaled(u: V3, a: V3, s: real)
    ensures Cross(u, Scaled(a, s)) == Scaled(Cross(u, a), s)
  {
    var (left, right) := (Cross(u, Scaled(a, s)), Scaled(Cross(u, a), s));
    assert left.x == right.x by { ScaledDifference(u.y, a.z, u.z, a.y, s); }
    assert left.y == right.y by { ScaledDifference(u.z, a.x, u.x, a.z, s); }
    assert left.z == right.z by { ScaledDifference(u.x, a.y, u.y, a.x, s); }
  }

  lemma ScaledDifference(a: real, b: real, c: real, d: real, s: real)
    ensures a * (b * s) - c * (d * s) == (a * b - c * d) * s
  {
  }

  lemma CrossFlips(a: V3, b: V3)
    ensures Cross(a, b) == Minus(ZERO, Cross(b, a))
  {
  }

  /** The product of three: a x (b x c) = b (a . c) - c (a . b) */
  lemma CrossCross(a: V3, b: V3, c: V3)
    ensures Cross(a, Cross(b, c)) == Minus(Scaled(b, Dot(a, c)), Scaled(c, Dot(a, b)))
  {
    hide Cross, Dot;
    CrossCrossFirst(a, b, c);
    CrossCrossFirst(Turned(a), Turned(b), Turned(c));
    CrossCrossFirst(Turned(Turned(a)), Turned(Turned(b)), Turned(Turned(c)));
    TurnedTogether(a, b, c);
    TurnedTogether(Turned(a), Turned(b), Turned(c));
  }

  /** The axes renamed. */
  function Turned(a: V3): V3 { V3(a.y, a.z, a.x) }

  lemma TurnedTogether(a: V3, b: V3, c: V3)
    ensures Cross(Turned(a), Cross(Turned(b), Turned(c))) == Turned(Cross(a, Cross(b, c)))
    ensures Dot(Turned(a), Turned(b)) == Dot(a, b) && Dot(Turned(a), Turned(c)) == Dot(a, c)
  {
  }

  lemma CrossCrossFirst(a: V3, b: V3, c: V3)
    ensures Cross(a, Cross(b, c)).x == b.x * Dot(a, c) - c.x * Dot(a, b)
  {
  }

  /** The volume spanned by three vectors. */
  lemma DotCross(a: V3, b: V3, c: V3)
    ensures Dot(Cross(a, b), c) == Dot(a, Cross(b, c))
  {
  }

  lemma CrossIsNormal(a: V3, b: V3)
    ensures Dot(Cross(a, b), a) == 0.0 && Dot(Cross(a, b), b) == 0.0
  {
  }

  lemma SquarePositive(a: V3)
    ensures Dot(a, a) >= 0.0 && (Dot(a, a) == 0.0 <==> a == ZERO)
  {
    hide Product;
    DotOfProducts(a);
    SquareSign(a.x);
    SquareSign(a.y);
    SquareSign(a.z);
  }

  lemma DotOfProducts(a: V3)
    ensures Dot(a, a) == Product(a.x, a.x) + Product(a.y, a.y) + Product(a.z, a.z)
  {
  }
}
