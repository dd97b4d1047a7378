/**
 * Matrices from quaternions and back (code/morgue/_matrix44.h, the quaternion constructor and
 * `get_quaternion`). The square root is a parameter of which only the defining property is used.
 *
 * Both directions go through the symmetric form K of a matrix: for the matrix of a unit quaternion q,
 * K[a][b] is 4 q[a] q[b]; for any rotation matrix, K has rank one. `get_quaternion` normalises one
 * column of K, picking one whose diagonal element cannot be small.
 */
module Quaternions {
  import opened Matrices
  import opened Reals

  datatype Quaternion = Quaternion(x: real, y: real, z: real, w: real)

  predicate Unit(q: Quaternion) {
    q.x * q.x + q.y * q.y + q.z * q.z + q.w * q.w == 1.0
  }

  function Negated(q: Quaternion): Quaternion {
    Quaternion(-q.x, -q.y, -q.z, -q.w)
  }

  ghost predicate NonNegativeRoot(sqrt: real -> real) {
    forall x :: x >= 0.0 ==> sqrt(x) >= 0.0 && sqrt(x) * sqrt(x) == x
  }

  /** The matrix constructed from a quaternion. */
  function FromQuaternion(q: Quaternion): M4 {
    var x2, y2, z2 := q.x + q.x, q.y + q.y, q.z + q.z;
    var xx, xy, xz := q.x * x2, q.x * y2, q.x * z2;
    var yy, yz, zz := q.y * y2, q.y * z2, q.z * z2;
    var wx, wy, wz := q.w * x2, q.w * y2, q.w * z2;
    M4(1.0 - (yy + zz), xy + wz, xz - wy, 0.0,
       xy - wz, 1.0 - (xx + zz), yz + wx, 0.0,
       xz + wy, yz - wx, 1.0 - (xx + yy), 0.0,
       0.0, 0.0, 0.0, 1.0)
  }

  // ----- the matrix turns as the quaternion does -----

  /** Hamilton's product. */
  function Hamilton(p: Quaternion, q: Quaternion): Quaternion {
    Quaternion(p.w * q.x + p.x * q.w + p.y * q.z - p.z * q.y,
               p.w * q.y - p.x * q.z + p.y * q.w + p.z * q.x,
               p.w * q.z + p.x * q.y - p.y * q.x + p.z * q.w,
               p.w * q.w - p.x * q.x - p.y * q.y - p.z * q.z)
  }

  function Conjugate(q: Quaternion): Quaternion {
    Quaternion(-q.x, -q.y, -q.z, q.w)
  }

  /** For a unit quaternion q, multiplying a row vector v by the matrix gives q v q*. */
  lemma MatrixTurnsVectors(q: Quaternion, v: Quaternion)
    requires Unit(q) && v.w == 0.0
    ensures var r := RowMul(V4(v.x, v.y, v.z, 0.0), FromQuaternion(q));
      Hamilton(Hamilton(q, v), Conjugate(q)) == Quaternion(r.x, r.y, r.z, r.w)
  {
    hide Hamilton, FromQuaternion, Unit, Dot, Product;
    TurnedMatrix(q);
    TurnedMatrix(Turned(q));
    TurnedSandwich(q, v);
    TurnedSandwich(Turned(q), Turned(v));
    SandwichFirst(q, v);
    SandwichFirst(Turned(q), Turned(v));
    SandwichFirst(Turned(Turned(q)), Turned(Turned(v)));
    SandwichLast(q, v);
    RowTimes(v, FromQuaternion(q));
  }

  lemma RowTimes(v: Quaternion, a: M4)
    requires a.m14 == a.m24 == a.m34 == 0.0
    ensures RowMul(V4(v.x, v.y, v.z, 0.0), a) == V4(
      Product(v.x, a.m11) + Product(v.y, a.m21) + Product(v.z, a.m31),
      Product(v.x, a.m12) + Product(v.y, a.m22) + Product(v.z, a.m32),
      Product(v.x, a.m13) + Product(v.y, a.m23) + Product(v.z, a.m33), 0.0)
  {
  }

  /** The axes renamed. */
  function Turned(q: Quaternion): Quaternion {
    Quaternion(q.y, q.z, q.x, q.w)
  }

  lemma TurnedHamilton(p: Quaternion, q: Quaternion)
    ensures Hamilton(Turned(p), Turned(q)) == Turned(Hamilton(p, q))
  {
    hide Hamilton, Product;
    HamiltonProducts(p, q);
    HamiltonProducts(Turned(p), Turned(q));
  }

  lemma HamiltonProducts(p: Quaternion, q: Quaternion)
    ensures Hamilton(p, q) == Quaternion(
      Product(p.w, q.x) + Product(p.x, q.w) + Product(p.y, q.z) - Product(p.z, q.y),
      Product(p.w, q.y) - Product(p.x, q.z) + Product(p.y, q.w) + Product(p.z, q.x),
      Product(p.w, q.z) + Product(p.x, q.y) - Product(p.y, q.x) + Product(p.z, q.w),
      Product(p.w, q.w) - Product(p.x, q.x) - Product(p.y, q.y) - Product(p.z, q.z))
  {
  }

  lemma TurnedSandwich(q: Quaternion, v: Quaternion)
    ensures Hamilton(Hamilton(Turned(q), Turned(v)), Conjugate(Turned(q))) == Turned(Hamilton(Hamilton(q, v), Conjugate(q)))
  {
    hide Hamilton;
    TurnedHamilton(q, v);
    TurnedHamilton(Hamilton(q, v), Conjugate(q));
    assert Conjugate(Turned(q)) == Turned(Conjugate(q));
  }

  lemma TurnedMatrix(q: Quaternion)
    ensures var (a, b) := (FromQuaternion(q), FromQuaternion(Turned(q)));
      && b.m11 == a.m22 && b.m12 == a.m23 && b.m13 == a.m21
      && b.m21 == a.m32 && b.m22 == a.m33 && b.m23 == a.m31
      && b.m31 == a.m12 && b.m32 == a.m13 && b.m33 == a.m11
    ensures Unit(q) <==> Unit(Turned(q))
  {
    hide FromQuaternion, Product, Unit;
    FromQuaternionProducts(q);
    FromQuaternionProducts(Turned(q));
    ProductCommutes(q.x, q.y);
    ProductCommutes(q.x, q.z);
  }

  lemma SandwichFirst(q: Quaternion, v: Quaternion)
    requires Unit(q) && v.w == 0.0
    ensures var a := FromQuaternion(q);
      Hamilton(Hamilton(q, v), Conjugate(q)).x == Product(v.x, a.m11) + Product(v.y, a.m21) + Product(v.z, a.m31)
  {
    hide FromQuaternion, Product, Triple, Unit, Hamilton;
    var (a, t) := (FromQuaternion(q), Hamilton(q, v));
    FromQuaternionProducts(q);
    InnerProduct(q, v);
    OuterProduct(t, q);
    SumsTimes(q, v, t);
    MatrixTimes(q, v, a);
    UnitTimes(q, v.x);
  }

  /** The inner product, with nothing for the missing last component of v. */
  lemma InnerProduct(q: Quaternion, v: Quaternion)
    requires v.w == 0.0
    ensures var t := Hamilton(q, v);
      && t.x == Product(q.w, v.x) + Product(q.y, v.z) - Product(q.z, v.y)
      && t.y == Product(q.w, v.y) + Product(q.z, v.x) - Product(q.x, v.z)
      && t.z == Product(q.w, v.z) + Product(q.x, v.y) - Product(q.y, v.x)
      && t.w == -(Product(q.x, v.x) + Product(q.y, v.y) + Product(q.z, v.z))
  {
  }

  lemma OuterProduct(t: Quaternion, q: Quaternion)
    ensures Hamilton(t, Conjugate(q)).x == Product(t.x, q.w) - Product(t.y, q.z) + Product(t.z, q.y) - Product(t.w, q.x)
  {
  }

  lemma SumsTimes(q: Quaternion, v: Quaternion, t: Quaternion)
    requires t.x == Product(q.w, v.x) + Product(q.y, v.z) - Product(q.z, v.y)
    requires t.y == Product(q.w, v.y) + Product(q.z, v.x) - Product(q.x, v.z)
    requires t.z == Product(q.w, v.z) + Product(q.x, v.y) - Product(q.y, v.x)
    requires t.w == -(Product(q.x, v.x) + Product(q.y, v.y) + Product(q.z, v.z))
    ensures Product(t.x, q.w) == Triple(q.w, q.w, v.x) + Triple(q.y, q.w, v.z) - Triple(q.z, q.w, v.y)
    ensures Product(t.y, q.z) == Triple(q.z, q.w, v.y) + Triple(q.z, q.z, v.x) - Triple(q.x, q.z, v.z)
    ensures Product(t.z, q.y) == Triple(q.y, q.w, v.z) + Triple(q.x, q.y, v.y) - Triple(q.y, q.y, v.x)
    ensures Product(t.w, q.x) == -(Triple(q.x, q.x, v.x) + Triple(q.x, q.y, v.y) + Triple(q.x, q.z, v.z))
  {
    hide Product, Triple;
    SumTimes(t.x, q.w, v.x, q.y, v.z, q.z, v.y, q.w);
    SumTimes(t.y, q.w, v.y, q.z, v.x, q.x, v.z, q.z);
    SumTimes(t.z, q.w, v.z, q.x, v.y, q.y, v.x, q.y);
    NegatedSumTimes(t.w, q.x, v.x, q.y, v.y, q.z, v.z, q.x);
    TripleSwaps(q.z, q.w, v.y);
    TripleSwaps(q.y, q.w, v.z);
    TripleSwaps(q.x, q.y, v.y);
    TripleSwaps(q.x, q.z, v.z);
  }

  lemma SumTimes(t: real, a: real, x: real, b: real, y: real, c: real, z: real, s: real)
    requires t == Product(a, x) + Product(b, y) - Product(c, z)
    ensures Product(t, s) == Triple(a, s, x) + Triple(b, s, y) - Triple(c, s, z)
  {
  }

  lemma NegatedSumTimes(t: real, a: real, x: real, b: real, y: real, c: real, z: real, s: real)
    requires t == -(Product(a, x) + Product(b, y) + Product(c, z))
    ensures Product(t, s) == -(Triple(a, s, x) + Triple(b, s, y) + Triple(c, s, z))
  {
  }

  lemma TripleSwaps(a: real, b: real, c: real)
    ensures Triple(a, b, c) == Triple(b, a, c)
  {
  }

  lemma MatrixTimes(q: Quaternion, v: Quaternion, a: M4)
    requires a.m11 == 1.0 - 2.0 * Product(q.y, q.y) - 2.0 * Product(q.z, q.z)
    requires a.m21 == 2.0 * Product(q.x, q.y) - 2.0 * Product(q.w, q.z)
    requires a.m31 == 2.0 * Product(q.x, q.z) + 2.0 * Product(q.w, q.y)
    ensures Product(v.x, a.m11) == v.x - 2.0 * Triple(q.y, q.y, v.x) - 2.0 * Triple(q.z, q.z, v.x)
    ensures Product(v.y, a.m21) == 2.0 * Triple(q.x, q.y, v.y) - 2.0 * Triple(q.z, q.w, v.y)
    ensures Product(v.z, a.m31) == 2.0 * Triple(q.x, q.z, v.z) + 2.0 * Triple(q.y, q.w, v.z)
  {
    hide Product, Triple;
    ProductCommutes(q.w, q.z);
    ProductCommutes(q.w, q.y);
    TimesSum(v.x, a.m11, 1.0, -2.0, q.y, q.y, -2.0, q.z, q.z);
    TimesSum(v.y, a.m21, 0.0, 2.0, q.x, q.y, -2.0, q.z, q.w);
    TimesSum(v.z, a.m31, 0.0, 2.0, q.x, q.z, 2.0, q.y, q.w);
  }

  lemma TimesSum(v: real, m: real, o: real, k: real, a: real, b: real, l: real, c: real, d: real)
    requires m == o + k * Product(a, b) + l * Product(c, d)
    ensures Product(v, m) == v * o + k * Triple(a, b, v) + l * Triple(c, d, v)
  {
    assert v * (k * (a * b)) == k * (a * b * v);
    assert v * (l * (c * d)) == l * (c * d * v);
  }

  lemma UnitTimes(q: Quaternion, x: real)
    requires Unit(q)
    ensures Triple(q.x, q.x, x) + Triple(q.y, q.y, x) + Triple(q.z, q.z, x) + Triple(q.w, q.w, x) == x
  {
    assert x * (q.x * q.x + q.y * q.y + q.z * q.z + q.w * q.w) == x;
  }

  lemma SandwichLast(q: Quaternion, v: Quaternion)
    requires v.w == 0.0
    ensures Hamilton(Hamilton(q, v), Conjugate(q)).w == 0.0
    ensures FromQuaternion(q).m14 == FromQuaternion(q).m24 == FromQuaternion(q).m34 == 0.0
  {
  }

  function Trace(a: M4): real {
    a.m11 + a.m22 + a.m33
  }

  /** The components of K in column `c`: 0, 1, 2 for x, y, z and 3 for w. */
  function KColumn(a: M4, c: nat): Quaternion
    requires c < 4
  {
    match c
    case 0 => Quaternion(a.m11 - (a.m22 + a.m33) + 1.0, a.m12 + a.m21, a.m13 + a.m31, a.m23 - a.m32)
    case 1 => Quaternion(a.m21 + a.m12, a.m22 - (a.m33 + a.m11) + 1.0, a.m23 + a.m32, a.m31 - a.m13)
    case 2 => Quaternion(a.m31 + a.m13, a.m32 + a.m23, a.m33 - (a.m11 + a.m22) + 1.0, a.m12 - a.m21)
    case _ => Quaternion(a.m23 - a.m32, a.m31 - a.m13, a.m12 - a.m21, Trace(a) + 1.0)
  }

  function Component(q: Quaternion, c: nat): real
    requires c < 4
  {
    match c case 0 => q.x case 1 => q.y case 2 => q.z case _ => q.w
  }

  /** The column `get_quaternion` normalises: w if the trace is positive, else the largest diagonal element. */
  function Choice(a: M4): (c: nat)
    ensures c < 4
  {
    if Trace(a) > 0.0 then 3
    else
      var i := if a.m22 > a.m11 then 1 else 0;
      if a.m33 > (if i == 1 then a.m22 else a.m11) then 2 else i
  }

  function Pivot(a: M4): real {
    Component(KColumn(a, Choice(a)), Choice(a))
  }

  /** The element under the square root is at least 1, whatever the matrix: no branch divides by zero. */
  lemma PivotAtLeastOne(a: M4)
    ensures Pivot(a) >= 1.0
  {
  }

  function Over(u: real, s: real): real
    requires s != 0.0
  {
    u * (0.5 / s)
  }

  /** The chosen column normalised by the root `s` of its pivot: s/2 in the chosen place, the rest over 2s. */
  function Normalise(a: M4, s: real): Quaternion
    requires s != 0.0
  {
    var k := KColumn(a, Choice(a));
    match Choice(a)
    case 0 => Quaternion(s * 0.5, Over(k.y, s), Over(k.z, s), Over(k.w, s))
    case 1 => Quaternion(Over(k.x, s), s * 0.5, Over(k.z, s), Over(k.w, s))
    case 2 => Quaternion(Over(k.x, s), Over(k.y, s), s * 0.5, Over(k.w, s))
    case _ => Quaternion(Over(k.x, s), Over(k.y, s), Over(k.z, s), s * 0.5)
  }

  /** The root is never zero. */
  lemma RootIsPositive(a: M4, sqrt: real -> real)
    requires NonNegativeRoot(sqrt)
    ensures var s := sqrt(Pivot(a)); s > 0.0 && s * s == Pivot(a)
  {
    PivotAtLeastOne(a);
    hide Pivot;
    assert sqrt(Pivot(a)) * sqrt(Pivot(a)) == Pivot(a);
  }

  /** What `get_quaternion` returns. */
  function ToQuaternion(a: M4, sqrt: real -> real): Quaternion
    requires NonNegativeRoot(sqrt)
  {
    RootIsPositive(a, sqrt);
    Normalise(a, sqrt(Pivot(a)))
  }

  lemma HalfRoot(s: real, p: real)
    requires s > 0.0 && s * s == p
    ensures Over(p, s) == s * 0.5
  {
    var f := 0.5 / s;
    assert s * f == 0.5;
    assert p * f == s * (s * f);
  }

  function Over2(k: Quaternion, s: real): Quaternion
    requires s != 0.0
  {
    Quaternion(Over(k.x, s), Over(k.y, s), Over(k.z, s), Over(k.w, s))
  }

  /** All four components are the chosen column over 2s. */
  lemma NormaliseIsColumn(a: M4, s: real)
    requires s > 0.0 && s * s == Pivot(a)
    ensures Normalise(a, s) == Over2(KColumn(a, Choice(a)), s)
  {
    hide KColumn, Choice, Over;
    HalfRoot(s, Pivot(a));
  }

  // ----- quaternion to matrix and back -----

  lemma FromQuaternionElements(q: Quaternion)
    ensures var a := FromQuaternion(q);
      && a.m11 == 1.0 - 2.0 * (q.y * q.y) - 2.0 * (q.z * q.z)
      && a.m22 == 1.0 - 2.0 * (q.x * q.x) - 2.0 * (q.z * q.z)
      && a.m33 == 1.0 - 2.0 * (q.x * q.x) - 2.0 * (q.y * q.y)
      && a.m12 == 2.0 * (q.x * q.y) + 2.0 * (q.w * q.z) && a.m21 == 2.0 * (q.x * q.y) - 2.0 * (q.w * q.z)
      && a.m31 == 2.0 * (q.x * q.z) + 2.0 * (q.w * q.y) && a.m13 == 2.0 * (q.x * q.z) - 2.0 * (q.w * q.y)
      && a.m23 == 2.0 * (q.y * q.z) + 2.0 * (q.w * q.x) && a.m32 == 2.0 * (q.y * q.z) - 2.0 * (q.w * q.x)
  {
  }

  /** 4pq, componentwise. */
  function Outer(p: real, q: Quaternion): Quaternion {
    Quaternion(4.0 * (p * q.x), 4.0 * (p * q.y), 4.0 * (p * q.z), 4.0 * (p * q.w))
  }

  lemma KProducts(q: Quaternion)
    requires Unit(q)
    ensures var a := FromQuaternion(q);
      && KColumn(a, 0) == Outer(q.x, q) && KColumn(a, 1) == Outer(q.y, q)
      && KColumn(a, 2) == Outer(q.z, q) && KColumn(a, 3) == Outer(q.w, q)
  {
    hide FromQuaternion, KColumn;
    FromQuaternionElements(q);
    KIsLinear(FromQuaternion(q), q.x * q.x, q.y * q.y, q.z * q.z, q.w * q.w,
              q.x * q.y, q.x * q.z, q.w * q.x, q.y * q.z, q.w * q.y, q.w * q.z);
  }

  lemma KOfUnit(q: Quaternion, c: nat)
    requires Unit(q) && c < 4
    ensures KColumn(FromQuaternion(q), c) == Outer(Component(q, c), q)
    ensures Component(Outer(Component(q, c), q), c) == 4.0 * (Component(q, c) * Component(q, c))
  {
    hide FromQuaternion, KColumn, Unit, Outer;
    KProducts(q);
    OuterDiagonal(q, c);
  }

  lemma OuterDiagonal(q: Quaternion, c: nat)
    requires c < 4
    ensures Component(Outer(Component(q, c), q), c) == 4.0 * (Component(q, c) * Component(q, c))
  {
  }

  /** K in terms of the ten products of a unit quaternion's components. */
  lemma KIsLinear(a: M4, xx: real, yy: real, zz: real, ww: real, xy: real, xz: real, wx: real, yz: real, wy: real, wz: real)
    requires xx + yy + zz + ww == 1.0
    requires a.m11 == 1.0 - 2.0 * yy - 2.0 * zz && a.m22 == 1.0 - 2.0 * xx - 2.0 * zz && a.m33 == 1.0 - 2.0 * xx - 2.0 * yy
    requires a.m12 == 2.0 * xy + 2.0 * wz && a.m21 == 2.0 * xy - 2.0 * wz
    requires a.m31 == 2.0 * xz + 2.0 * wy && a.m13 == 2.0 * xz - 2.0 * wy
    requires a.m23 == 2.0 * yz + 2.0 * wx && a.m32 == 2.0 * yz - 2.0 * wx
    ensures KColumn(a, 0) == Quaternion(4.0 * xx, 4.0 * xy, 4.0 * xz, 4.0 * wx)
    ensures KColumn(a, 1) == Quaternion(4.0 * xy, 4.0 * yy, 4.0 * yz, 4.0 * wy)
    ensures KColumn(a, 2) == Quaternion(4.0 * xz, 4.0 * yz, 4.0 * zz, 4.0 * wz)
    ensures KColumn(a, 3) == Quaternion(4.0 * wx, 4.0 * wy, 4.0 * wz, 4.0 * ww)
  {
  }

  lemma RootOfSquare(s: real, p: real)
    requires s >= 0.0 && s * s == 4.0 * (p * p)
    ensures s == 2.0 * p || s == -2.0 * p
  {
    assert (s - 2.0 * p) * (s + 2.0 * p) == 0.0;
  }

  /** k = 4pv over 2s is v or -v, one sign for all v. */
  lemma Normalised(p: real, s: real, f: real, v: real, k: real)
    requires s > 0.0 && f == 0.5 / s && (s == 2.0 * p || s == -2.0 * p) && k == 4.0 * (p * v)
    ensures k * f == if s == 2.0 * p then v else -v
  {
    assert s * f == 0.5;
    assert k * f == 2.0 * v * ((2.0 * p) * f);
    assert (2.0 * p) * f == if s == 2.0 * p then 0.5 else -0.5;
  }

  lemma ColumnRoundTrip(q: Quaternion, p: real, s: real)
    requires s > 0.0 && s * s == 4.0 * (p * p)
    ensures var r := Over2(Outer(p, q), s); r == q || r == Negated(q)
  {
    RootOfSquare(s, p);
    var k := Outer(p, q);
    Normalised(p, s, 0.5 / s, q.x, k.x);
    Normalised(p, s, 0.5 / s, q.y, k.y);
    Normalised(p, s, 0.5 / s, q.z, k.z);
    Normalised(p, s, 0.5 / s, q.w, k.w);
  }

  /** For every unit quaternion, converting to a matrix and back gives it or its negative. */
  lemma UnitRoundTrip(q: Quaternion, sqrt: real -> real)
    requires Unit(q) && NonNegativeRoot(sqrt)
    ensures var r := ToQuaternion(FromQuaternion(q), sqrt); r == q || r == Negated(q)
  {
    hide FromQuaternion, KColumn, Choice, Unit, Normalise, Outer, Over2, Component, Negated;
    var a := FromQuaternion(q);
    var c := Choice(a);
    KOfUnit(q, c);
    RootIsPositive(a, sqrt);
    NormaliseIsColumn(a, sqrt(Pivot(a)));
    ColumnRoundTrip(q, Component(q, c), sqrt(Pivot(a)));
  }

  // ----- matrix to quaternion and back -----

  /** Three orthonormal vectors (a, b, c), (d, e, f), (g, h, i). */
  predicate Orthonormal(a: real, b: real, c: real, d: real, e: real, f: real, g: real, h: real, i: real) {
    && a * a + b * b + c * c == 1.0 && d * d + e * e + f * f == 1.0 && g * g + h * h + i * i == 1.0
    && a * d + b * e + c * f == 0.0 && a * g + b * h + c * i == 0.0 && d * g + e * h + f * i == 0.0
  }

  function Det3(a: real, b: real, c: real, d: real, e: real, f: real, g: real, h: real, i: real): real {
    a * (e * i - f * h) + b * (f * g - d * i) + c * (d * h - e * g)
  }

  /** The upper left 3x3 block is a rotation, "not scaled". */
  predicate Rotation(a: M4) {
    && Orthonormal(a.m11, a.m12, a.m13, a.m21, a.m22, a.m23, a.m31, a.m32, a.m33)
    && Det3(a.m11, a.m12, a.m13, a.m21, a.m22, a.m23, a.m31, a.m32, a.m33) == 1.0
  }

  /** Two orthonormal vectors q, r and a unit vector p of volume 1 with them: then p is their cross product. */
  lemma UnitVolume(px: real, py: real, pz: real, qx: real, qy: real, qz: real, rx: real, ry: real, rz: real)
    requires px * px + py * py + pz * pz == 1.0 && qx * qx + qy * qy + qz * qz == 1.0 && rx * rx + ry * ry + rz * rz == 1.0
    requires qx * rx + qy * ry + qz * rz == 0.0
    requires px * (qy * rz - qz * ry) + py * (qz * rx - qx * rz) + pz * (qx * ry - qy * rx) == 1.0
    ensures px == qy * rz - qz * ry && py == qz * rx - qx * rz && pz == qx * ry - qy * rx
  {
    var cx, cy, cz := qy * rz - qz * ry, qz * rx - qx * rz, qx * ry - qy * rx;
    Lagrange(qx, qy, qz, rx, ry, rz);
    SquaredDistance(px, py, pz, cx, cy, cz);
    assert px * cx + py * cy + pz * cz == 1.0;
    assert (px - cx) * (px - cx) + (py - cy) * (py - cy) + (pz - cz) * (pz - cz) == 0.0;
    NoSquares(px - cx, py - cy, pz - cz);
  }

  lemma SquaredDistance(px: real, py: real, pz: real, cx: real, cy: real, cz: real)
    ensures (px - cx) * (px - cx) + (py - cy) * (py - cy) + (pz - cz) * (pz - cz)
         == (px * px + py * py + pz * pz) + (cx * cx + cy * cy + cz * cz) - 2.0 * (px * cx + py * cy + pz * cz)
  {
  }

  lemma Lagrange(qx: real, qy: real, qz: real, rx: real, ry: real, rz: real)
    requires qx * qx + qy * qy + qz * qz == 1.0 && rx * rx + ry * ry + rz * rz == 1.0
    requires qx * rx + qy * ry + qz * rz == 0.0
    ensures var cx, cy, cz := qy * rz - qz * ry, qz * rx - qx * rz, qx * ry - qy * rx;
      cx * cx + cy * cy + cz * cz == 1.0
  {
    var d := qx * rx + qy * ry + qz * rz;
    assert (qx * qx + qy * qy + qz * qz) * (rx * rx + ry * ry + rz * rz) == 1.0;
    assert (qx * rx + qy * ry + qz * rz) * (qx * rx + qy * ry + qz * rz) == d * d == 0.0;
  }

  /** Nine elements, row by row, that are each their own cofactor. */
  predicate OwnCofactors(a: real, b: real, c: real, d: real, e: real, f: real, g: real, h: real, i: real) {
    && a == e * i - f * h && b == f * g - d * i && c == d * h - e * g
    && d == h * c - i * b && e == i * a - g * c && f == g * b - h * a
    && g == b * f - c * e && h == c * d - a * f && i == a * e - b * d
  }

  predicate Orthogonal(a: real, b: real, c: real, d: real, e: real, f: real, g: real, h: real, i: real) {
    && OwnCofactors(a, b, c, d, e, f, g, h, i)
    && Orthonormal(a, b, c, d, e, f, g, h, i)
    && Orthonormal(a, d, g, b, e, h, c, f, i)
  }

  /** A column that is the cross product of two others, of volume 1 with them, is a unit vector orthogonal to both. */
  lemma ColumnProducts(px: real, py: real, pz: real, qx: real, qy: real, qz: real, rx: real, ry: real, rz: real)
    requires px == qy * rz - qz * ry && py == qz * rx - qx * rz && pz == qx * ry - qy * rx
    requires px * (qy * rz - ry * qz) + qx * (ry * pz - py * rz) + rx * (py * qz - qy * pz) == 1.0
    ensures px * px + py * py + pz * pz == 1.0
    ensures px * qx + py * qy + pz * qz == 0.0 && px * rx + py * ry + pz * rz == 0.0
  {
    assert px * px == px * (qy * rz - qz * ry) && py * py == py * (qz * rx - qx * rz) && pz * pz == pz * (qx * ry - qy * rx);
    assert px * qx == (qy * rz - qz * ry) * qx && py * qy == (qz * rx - qx * rz) * qy && pz * qz == (qx * ry - qy * rx) * qz;
    assert px * rx == (qy * rz - qz * ry) * rx && py * ry == (qz * rx - qx * rz) * ry && pz * rz == (qx * ry - qy * rx) * rz;
  }

  lemma RowsAreCrossProducts(a: real, b: real, c: real, d: real, e: real, f: real, g: real, h: real, i: real)
    requires Orthonormal(a, b, c, d, e, f, g, h, i) && Det3(a, b, c, d, e, f, g, h, i) == 1.0
    ensures OwnCofactors(a, b, c, d, e, f, g, h, i)
  {
    UnitVolume(a, b, c, d, e, f, g, h, i);
    UnitVolume(d, e, f, g, h, i, a, b, c);
    UnitVolume(g, h, i, a, b, c, d, e, f);
  }

  lemma OrthonormalColumns(a: real, b: real, c: real, d: real, e: real, f: real, g: real, h: real, i: real)
    requires OwnCofactors(a, b, c, d, e, f, g, h, i) && Det3(a, b, c, d, e, f, g, h, i) == 1.0
    ensures Orthonormal(a, d, g, b, e, h, c, f, i)
  {
    ColumnProducts(a, d, g, b, e, h, c, f, i);
    ColumnProducts(b, e, h, c, f, i, a, d, g);
    ColumnProducts(c, f, i, a, d, g, b, e, h);
  }

  lemma RotationIsOrthogonal(a: M4)
    requires Rotation(a)
    ensures Orthogonal(a.m11, a.m12, a.m13, a.m21, a.m22, a.m23, a.m31, a.m32, a.m33)
  {
    hide OwnCofactors, Orthonormal, Det3;
    RowsAreCrossProducts(a.m11, a.m12, a.m13, a.m21, a.m22, a.m23, a.m31, a.m32, a.m33);
    OrthonormalColumns(a.m11, a.m12, a.m13, a.m21, a.m22, a.m23, a.m31, a.m32, a.m33);
  }

  /** K has rank one: six products of its elements with the last element of the w column. */
  lemma RankOneW(a: real, b: real, c: real, d: real, e: real, f: real, g: real, h: real, i: real)
    requires Orthogonal(a, b, c, d, e, f, g, h, i)
    ensures Product(a - (e + i) + 1.0, a + e + i + 1.0) == Product(f - h, f - h)
    ensures Product(e - (i + a) + 1.0, a + e + i + 1.0) == Product(g - c, g - c)
    ensures Product(i - (a + e) + 1.0, a + e + i + 1.0) == Product(b - d, b - d)
    ensures Product(b + d, a + e + i + 1.0) == Product(f - h, g - c)
    ensures Product(c + g, a + e + i + 1.0) == Product(f - h, b - d)
    ensures Product(f + h, a + e + i + 1.0) == Product(g - c, b - d)
  {
  }

  /** The same for the first element of the x column. */
  lemma RankOneX(a: real, b: real, c: real, d: real, e: real, f: real, g: real, h: real, i: real)
    requires Orthogonal(a, b, c, d, e, f, g, h, i)
    ensures Product(e - (i + a) + 1.0, a - (e + i) + 1.0) == Product(b + d, b + d)
    ensures Product(i - (a + e) + 1.0, a - (e + i) + 1.0) == Product(c + g, c + g)
    ensures Product(a + e + i + 1.0, a - (e + i) + 1.0) == Product(f - h, f - h)
    ensures Product(f + h, a - (e + i) + 1.0) == Product(b + d, c + g)
    ensures Product(g - c, a - (e + i) + 1.0) == Product(b + d, f - h)
    ensures Product(b - d, a - (e + i) + 1.0) == Product(c + g, f - h)
  {
  }

  /** Renaming the axes cyclically. */
  lemma OrthogonalCycles(a: real, b: real, c: real, d: real, e: real, f: real, g: real, h: real, i: real)
    requires Orthogonal(a, b, c, d, e, f, g, h, i)
    ensures Orthogonal(e, f, d, h, i, g, b, c, a)
  {
  }

  /** Every element of K times the diagonal element of column `c` is the product of that column's elements. */
  ghost predicate RankOne(a: M4, c: nat)
    requires c < 4
  {
    var k := KColumn(a, c);
    var p := Component(k, c);
    var kx, ky, kz, kw := KColumn(a, 0), KColumn(a, 1), KColumn(a, 2), KColumn(a, 3);
    && Product(kx.x, p) == Product(k.x, k.x) && Product(ky.y, p) == Product(k.y, k.y)
    && Product(kz.z, p) == Product(k.z, k.z) && Product(kw.w, p) == Product(k.w, k.w)
    && Product(kx.y, p) == Product(k.x, k.y) && Product(kx.z, p) == Product(k.x, k.z) && Product(ky.z, p) == Product(k.y, k.z)
    && Product(kw.x, p) == Product(k.w, k.x) && Product(kw.y, p) == Product(k.w, k.y) && Product(kw.z, p) == Product(k.w, k.z)
  }

  lemma ProductCommutes(x: real, y: real)
    ensures Product(x, y) == Product(y, x)
  {
  }

  lemma RotationHasRankOne(a: M4, c: nat)
    requires Rotation(a) && c < 4
    ensures RankOne(a, c)
  {
    hide Orthogonal, Rotation, Product;
    RotationIsOrthogonal(a);
    forall x, y ensures Product(x, y) == Product(y, x) {
      ProductCommutes(x, y);
    }
    match c
    case 0 =>
      RankOneX(a.m11, a.m12, a.m13, a.m21, a.m22, a.m23, a.m31, a.m32, a.m33);
    case 1 =>
      OrthogonalCycles(a.m11, a.m12, a.m13, a.m21, a.m22, a.m23, a.m31, a.m32, a.m33);
      RankOneX(a.m22, a.m23, a.m21, a.m32, a.m33, a.m31, a.m12, a.m13, a.m11);
    case 2 =>
      OrthogonalCycles(a.m11, a.m12, a.m13, a.m21, a.m22, a.m23, a.m31, a.m32, a.m33);
      OrthogonalCycles(a.m22, a.m23, a.m21, a.m32, a.m33, a.m31, a.m12, a.m13, a.m11);
      RankOneX(a.m33, a.m31, a.m32, a.m13, a.m11, a.m12, a.m23, a.m21, a.m22);
    case _ =>
      RankOneW(a.m11, a.m12, a.m13, a.m21, a.m22, a.m23, a.m31, a.m32, a.m33);
  }

  lemma QuarterProduct(s: real, p: real, u: real, v: real, uv: real)
    requires s > 0.0 && s * s == p && Product(uv, p) == Product(u, v)
    ensures 4.0 * Product(Over(u, s), Over(v, s)) == uv
  {
    var f := 0.5 / s;
    assert s * f == 0.5;
    assert p * (f * f) == (s * f) * (s * f) == 0.25;
    assert (u * f) * (v * f) == (u * v) * (f * f);
    assert (uv * p) * (f * f) == uv * (p * (f * f));
  }

  /** Ten times four the products of a quaternion's components. */
  ghost predicate HasProducts(q: Quaternion, kx: Quaternion, ky: Quaternion, kz: Quaternion, kw: Quaternion) {
    && 4.0 * Product(q.x, q.x) == kx.x && 4.0 * Product(q.y, q.y) == ky.y
    && 4.0 * Product(q.z, q.z) == kz.z && 4.0 * Product(q.w, q.w) == kw.w
    && 4.0 * Product(q.x, q.y) == kx.y && 4.0 * Product(q.x, q.z) == kx.z && 4.0 * Product(q.y, q.z) == ky.z
    && 4.0 * Product(q.w, q.x) == kw.x && 4.0 * Product(q.w, q.y) == kw.y && 4.0 * Product(q.w, q.z) == kw.z
  }

  /** The products of the normalised column are a quarter of K. */
  lemma ProductsOfColumn(a: M4, c: nat, s: real)
    requires c < 4 && RankOne(a, c) && s > 0.0 && s * s == Component(KColumn(a, c), c)
    ensures HasProducts(Over2(KColumn(a, c), s), KColumn(a, 0), KColumn(a, 1), KColumn(a, 2), KColumn(a, 3))
  {
    hide KColumn, Product, Over, Component;
    var k, p := KColumn(a, c), Component(KColumn(a, c), c);
    var kx, ky, kz, kw := KColumn(a, 0), KColumn(a, 1), KColumn(a, 2), KColumn(a, 3);
    QuarterProduct(s, p, k.x, k.x, kx.x);
    QuarterProduct(s, p, k.y, k.y, ky.y);
    QuarterProduct(s, p, k.z, k.z, kz.z);
    QuarterProduct(s, p, k.w, k.w, kw.w);
    QuarterProduct(s, p, k.x, k.y, kx.y);
    QuarterProduct(s, p, k.x, k.z, kx.z);
    QuarterProduct(s, p, k.y, k.z, ky.z);
    QuarterProduct(s, p, k.w, k.x, kw.x);
    QuarterProduct(s, p, k.w, k.y, kw.y);
    QuarterProduct(s, p, k.w, k.z, kw.z);
  }

  /** The matrix without its translation and with the fourth column of an affine matrix. */
  function Orientation(a: M4): M4 {
    M4(a.m11, a.m12, a.m13, 0.0, a.m21, a.m22, a.m23, 0.0, a.m31, a.m32, a.m33, 0.0, 0.0, 0.0, 0.0, 1.0)
  }

  /** A quaternion whose products are a quarter of K(a) is a unit and has a's orientation as its matrix. */
  lemma ProductsDetermineMatrix(q: Quaternion, a: M4)
    requires HasProducts(q, KColumn(a, 0), KColumn(a, 1), KColumn(a, 2), KColumn(a, 3))
    ensures Unit(q) && FromQuaternion(q) == Orientation(a)
  {
    hide FromQuaternion, Unit, Product;
    FromQuaternionProducts(q);
  }

  lemma FromQuaternionProducts(q: Quaternion)
    ensures var a := FromQuaternion(q);
      && a == Orientation(a)
      && a.m11 == 1.0 - 2.0 * Product(q.y, q.y) - 2.0 * Product(q.z, q.z)
      && a.m22 == 1.0 - 2.0 * Product(q.x, q.x) - 2.0 * Product(q.z, q.z)
      && a.m33 == 1.0 - 2.0 * Product(q.x, q.x) - 2.0 * Product(q.y, q.y)
      && a.m12 == 2.0 * Product(q.x, q.y) + 2.0 * Product(q.w, q.z) && a.m21 == 2.0 * Product(q.x, q.y) - 2.0 * Product(q.w, q.z)
      && a.m31 == 2.0 * Product(q.x, q.z) + 2.0 * Product(q.w, q.y) && a.m13 == 2.0 * Product(q.x, q.z) - 2.0 * Product(q.w, q.y)
      && a.m23 == 2.0 * Product(q.y, q.z) + 2.0 * Product(q.w, q.x) && a.m32 == 2.0 * Product(q.y, q.z) - 2.0 * Product(q.w, q.x)
    ensures Unit(q) <==> Product(q.x, q.x) + Product(q.y, q.y) + Product(q.z, q.z) + Product(q.w, q.w) == 1.0
  {
    FromQuaternionElements(q);
  }

  /** For every rotation, `get_quaternion` yields a unit quaternion whose matrix is the orientation again. */
  lemma RotationRoundTrip(a: M4, sqrt: real -> real)
    requires Rotation(a) && NonNegativeRoot(sqrt)
    ensures var q := ToQuaternion(a, sqrt); Unit(q) && FromQuaternion(q) == Orientation(a)
  {
    hide Rotation, RankOne, Choice, Over2, Normalise, FromQuaternion, KColumn, HasProducts, Unit, Orientation;
    var s, c := sqrt(Pivot(a)), Choice(a);
    RootIsPositive(a, sqrt);
    NormaliseIsColumn(a, s);
    RotationHasRankOne(a, c);
    ProductsOfColumn(a, c, s);
    ProductsDetermineMatrix(ToQuaternion(a, sqrt), a);
  }
}