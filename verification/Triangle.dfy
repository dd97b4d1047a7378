/**
 * Intersecting a line with a triangle (code/morgue/triangle.h), over exact reals. The tolerances of the
 * code are kept; what they mean for the answer is what is proved.
 */
module Triangles {
  import opened Reals
  import opened Vectors

  datatype Option<T> = None | Some(value: T)

  /** Points b + s*e0 + t*e1. */
  datatype Triangle = Triangle(b: V3, e0: V3, e1: V3)

  /** Points b + t*m. */
  datatype Line = Line(b: V3, m: V3)

  const TOLERANCE := 0.0001

  function PointOn(line: Line, t: real): V3 {
    Plus(line.b, Scaled(line.m, t))
  }

  function PointOf(tri: Triangle, s: real, t: real): V3 {
    Plus(Plus(tri.b, Scaled(tri.e0, s)), Scaled(tri.e1, t))
  }

  function Normal(tri: Triangle): V3 {
    Cross(tri.e0, tri.e1)
  }

  function Abs(x: real): real { if x < 0.0 then -x else x }

  // ----- the code -----

  function Determinant(tri: Triangle): real {
    Abs(Dot(tri.e0, tri.e0) * Dot(tri.e1, tri.e1) - Dot(tri.e0, tri.e1) * Dot(tri.e0, tri.e1))
  }

  function S0(tri: Triangle, d: V3): real {
    Dot(tri.e1, tri.e1) * Dot(tri.e0, d) - Dot(tri.e0, tri.e1) * Dot(tri.e1, d)
  }

  function S1(tri: Triangle, d: V3): real {
    Dot(tri.e0, tri.e0) * Dot(tri.e1, d) - Dot(tri.e0, tri.e1) * Dot(tri.e0, d)
  }

  function Time(tri: Triangle, line: Line): real
    requires Dot(Normal(tri), line.m) != 0.0
  {
    -Dot(Normal(tri), Minus(line.b, tri.b)) / Dot(Normal(tri), line.m)
  }

  /** What both functions do once the denominator has passed their test. */
  function Hit(tri: Triangle, line: Line): Option<real>
    requires Dot(Normal(tri), line.m) != 0.0
  {
    var time := Time(tri, line);
    if time < -TOLERANCE || time > 1.0 + TOLERANCE then None
    else
      var d := Plus(Minus(line.b, tri.b), Scaled(line.m, time));
      var (s0, s1) := (S0(tri, d), S1(tri, d));
      if s0 >= -TOLERANCE && s1 >= -TOLERANCE && s0 + s1 <= Determinant(tri) + TOLERANCE then Some(time) else None
  }

  function Intersect(tri: Triangle, line: Line): Option<real> {
    if Dot(Normal(tri), line.m) >= -TOLERANCE then None else Hit(tri, line)
  }

  /** The line is not nearly parallel to the triangle, whatever side it comes from. */
  predicate Crossing(tri: Triangle, line: Line) {
    var n := Normal(tri);
    Dot(n, line.m) * Dot(n, line.m) > TOLERANCE * Dot(line.m, line.m) * Dot(n, n)
  }

  function IntersectBothSides(tri: Triangle, line: Line): Option<real> {
    if !Crossing(tri, line) then None
    else
      CrossingIsSound(tri, line);
      Hit(tri, line)
  }

  /** No division by zero. */
  lemma CrossingIsSound(tri: Triangle, line: Line)
    requires Crossing(tri, line)
    ensures Dot(Normal(tri), line.m) != 0.0
  {
    hide Dot, Normal;
    SquarePositive(line.m);
    SquarePositive(Normal(tri));
    ProductSign(TOLERANCE, Dot(line.m, line.m), Dot(Normal(tri), Normal(tri)));
  }

  lemma ProductSign(a: real, b: real, c: real)
    requires a >= 0.0 && b >= 0.0 && c >= 0.0
    ensures a * b * c >= 0.0
  {
    assert a * b >= 0.0;
  }

  // ----- the algebra -----

  /** The determinant is the squared length of the normal. */
  lemma DeterminantIsSquare(tri: Triangle)
    ensures Determinant(tri) == Dot(Normal(tri), Normal(tri))
    ensures Determinant(tri) == Dot(tri.e0, tri.e0) * Dot(tri.e1, tri.e1) - Dot(tri.e0, tri.e1) * Dot(tri.e0, tri.e1)
  {
    hide Dot, Cross, Scaled, Minus;
    var (e0, e1, n) := (tri.e0, tri.e1, Normal(tri));
    DotCross(e0, e1, n);
    CrossCross(e1, e0, e1);
    DotPlus(e0, Scaled(e0, Dot(e1, e1)), Scaled(e1, Dot(e1, e0)));
    DotScaled(e0, e0, Dot(e1, e1));
    DotScaled(e0, e1, Dot(e1, e0));
    DotCommutes(e0, e1);
    SquarePositive(n);
  }

  /** In the plane of the triangle, S0 and S1 are the coordinates, scaled by the determinant. */
  lemma Coordinates(tri: Triangle, d: V3)
    requires Dot(Normal(tri), d) == 0.0
    ensures Scaled(d, Determinant(tri)) == Plus(Scaled(tri.e0, S0(tri, d)), Scaled(tri.e1, S1(tri, d)))
  {
    hide Dot, Cross, Determinant, Scaled, Minus, Plus;
    var (e0, e1, n) := (tri.e0, tri.e1, Normal(tri));
    var (r0, r1) := (Dot(e0, d), Dot(e1, d));
    DeterminantIsSquare(tri);
    CrossCross(n, d, n);
    NothingLess(Scaled(d, Dot(n, n)), n);
    assert Scaled(d, Determinant(tri)) == Cross(n, Cross(d, n));
    CrossCross(d, e0, e1);
    DotCommutes(d, e0);
    DotCommutes(d, e1);
    assert Cross(d, n) == Minus(Scaled(e0, r1), Scaled(e1, r0));
    CrossMinus(n, Scaled(e0, r1), Scaled(e1, r0));
    CrossScaled(n, e0, r1);
    CrossScaled(n, e1, r0);
    NormalCrossEdges(tri);
    assert Cross(n, Cross(d, n)) == Minus(Scaled(Cross(n, e0), r1), Scaled(Cross(n, e1), r0));
    RegroupAll(e0, e1, r0, r1, Dot(e0, e0), Dot(e0, e1), Dot(e1, e1), S0(tri, d), S1(tri, d));
  }

  /** The normal turns the edges within the plane. */
  lemma NormalCrossEdges(tri: Triangle)
    ensures var (e0, e1, n) := (tri.e0, tri.e1, Normal(tri));
      && Cross(n, e0) == Minus(ZERO, Minus(Scaled(e0, Dot(e0, e1)), Scaled(e1, Dot(e0, e0))))
      && Cross(n, e1) == Minus(ZERO, Minus(Scaled(e0, Dot(e1, e1)), Scaled(e1, Dot(e0, e1))))
  {
    hide Dot, Cross, Scaled, Minus;
    var (e0, e1, n) := (tri.e0, tri.e1, Normal(tri));
    CrossFlips(n, e0);
    CrossFlips(n, e1);
    CrossCross(e0, e0, e1);
    CrossCross(e1, e0, e1);
    DotCommutes(e0, e1);
  }

  lemma RegroupAll(e0: V3, e1: V3, r0: real, r1: real, e00: real, e01: real, e11: real, s0: real, s1: real)
    requires s0 == e11 * r0 - e01 * r1 && s1 == e00 * r1 - e01 * r0
    ensures Minus(Scaled(Minus(ZERO, Minus(Scaled(e0, e01), Scaled(e1, e00))), r1),
                  Scaled(Minus(ZERO, Minus(Scaled(e0, e11), Scaled(e1, e01))), r0))
         == Plus(Scaled(e0, s0), Scaled(e1, s1))
  {
    hide Grouped, Summed, Minus, Scaled, Plus;
    Regroup(e0.x, e1.x, r0, r1, e00, e01, e11, s0, s1);
    Regroup(e0.y, e1.y, r0, r1, e00, e01, e11, s0, s1);
    Regroup(e0.z, e1.z, r0, r1, e00, e01, e11, s0, s1);
    GroupedAll(e0, e1, r0, r1, e00, e01, e11);
    SummedAll(e0, e1, s0, s1);
  }

  function Grouped(a: real, b: real, r0: real, r1: real, e00: real, e01: real, e11: real): real {
    (0.0 - (a * e01 - b * e00)) * r1 - (0.0 - (a * e11 - b * e01)) * r0
  }

  function Summed(a: real, b: real, s0: real, s1: real): real {
    a * s0 + b * s1
  }

  lemma GroupedAll(e0: V3, e1: V3, r0: real, r1: real, e00: real, e01: real, e11: real)
    ensures Minus(Scaled(Minus(ZERO, Minus(Scaled(e0, e01), Scaled(e1, e00))), r1),
                  Scaled(Minus(ZERO, Minus(Scaled(e0, e11), Scaled(e1, e01))), r0))
         == V3(Grouped(e0.x, e1.x, r0, r1, e00, e01, e11), Grouped(e0.y, e1.y, r0, r1, e00, e01, e11),
               Grouped(e0.z, e1.z, r0, r1, e00, e01, e11))
  {
  }

  lemma SummedAll(e0: V3, e1: V3, s0: real, s1: real)
    ensures Plus(Scaled(e0, s0), Scaled(e1, s1))
         == V3(Summed(e0.x, e1.x, s0, s1), Summed(e0.y, e1.y, s0, s1), Summed(e0.z, e1.z, s0, s1))
  {
  }

  lemma NothingLess(a: V3, n: V3)
    ensures Minus(a, Scaled(n, 0.0)) == a
  {
  }

  lemma Regroup(a: real, b: real, r0: real, r1: real, e00: real, e01: real, e11: real, s0: real, s1: real)
    requires s0 == e11 * r0 - e01 * r1 && s1 == e00 * r1 - e01 * r0
    ensures Grouped(a, b, r0, r1, e00, e01, e11) == Summed(a, b, s0, s1)
  {
    assert a * s0 == a * (e11 * r0) - a * (e01 * r1);
    assert b * s1 == b * (e00 * r1) - b * (e01 * r0);
  }

  /** And a point given by coordinates has them. */
  lemma CoordinatesOf(tri: Triangle, s: real, t: real)
    ensures var d := Plus(Scaled(tri.e0, s), Scaled(tri.e1, t));
      && Dot(Normal(tri), d) == 0.0
      && S0(tri, d) == s * Determinant(tri) && S1(tri, d) == t * Determinant(tri)
  {
    hide Dot, Cross, Determinant, Scaled, Plus;
    var (e0, e1) := (tri.e0, tri.e1);
    var d := Plus(Scaled(e0, s), Scaled(e1, t));
    CrossIsNormal(e0, e1);
    DotOfSum(Normal(tri), e0, e1, s, t);
    DotOfSum(e0, e0, e1, s, t);
    DotOfSum(e1, e0, e1, s, t);
    DotCommutes(e1, e0);
    DeterminantIsSquare(tri);
    Solve(Dot(e0, e0), Dot(e0, e1), Dot(e1, e1), s, t, Dot(e0, d), Dot(e1, d));
  }

  lemma DotOfSum(u: V3, a: V3, b: V3, s: real, t: real)
    ensures Dot(u, Plus(Scaled(a, s), Scaled(b, t))) == Dot(u, a) * s + Dot(u, b) * t
  {
    hide Dot, Scaled, Plus;
    DotPlus(u, Scaled(a, s), Scaled(b, t));
    DotScaled(u, a, s);
    DotScaled(u, b, t);
  }

  lemma Solve(e00: real, e01: real, e11: real, s: real, t: real, r0: real, r1: real)
    requires r0 == e00 * s + e01 * t && r1 == e01 * s + e11 * t
    ensures e11 * r0 - e01 * r1 == s * (e00 * e11 - e01 * e01)
    ensures e00 * r1 - e01 * r0 == t * (e00 * e11 - e01 * e01)
  {
    assert e11 * r0 == e11 * (e00 * s) + e11 * (e01 * t);
    assert e01 * r1 == e01 * (e01 * s) + e01 * (e11 * t);
    assert e00 * r1 == e00 * (e01 * s) + e00 * (e11 * t);
    assert e01 * r0 == e01 * (e00 * s) + e01 * (e01 * t);
  }

  /** The line meets the plane of the triangle at one time only, the one computed. */
  lemma TimeIff(tri: Triangle, line: Line, t: real)
    requires Dot(Normal(tri), line.m) != 0.0
    ensures Dot(Normal(tri), Plus(Minus(line.b, tri.b), Scaled(line.m, t))) == 0.0 <==> t == Time(tri, line)
  {
    hide Dot, Cross, Scaled, Plus, Minus;
    var n := Normal(tri);
    DotPlus(n, Minus(line.b, tri.b), Scaled(line.m, t));
    DotScaled(n, line.m, t);
    RootIff(Dot(n, Minus(line.b, tri.b)), Dot(n, line.m), t);
  }

  lemma RootIff(a: real, b: real, t: real)
    requires b != 0.0
    ensures a + b * t == 0.0 <==> t == -a / b
  {
    assert b * (-a / b) == -a;
    if a + b * t == 0.0 {
      assert b * t == -a;
    }
  }

  // ----- what the answers mean -----

  /**
   * The line is at time t where the triangle has coordinates s0, s1, and these are within the tolerances:
   * they are taken times the determinant, so they are looser the smaller the triangle is.
   */
  predicate Meets(tri: Triangle, line: Line, t: real, s0: real, s1: real) {
    && PointOn(line, t) == PointOf(tri, s0, s1)
    && -0.0001 <= t <= 1.0001
    && s0 * Determinant(tri) >= -0.0001
    && s1 * Determinant(tri) >= -0.0001
    && s0 * Determinant(tri) + s1 * Determinant(tri) <= Determinant(tri) + 0.0001
  }

  lemma NormalNotZero(tri: Triangle, m: V3)
    requires Dot(Normal(tri), m) != 0.0
    ensures Determinant(tri) > 0.0
  {
    hide Cross, Determinant;
    DeterminantIsSquare(tri);
    SquarePositive(Normal(tri));
    DotZero(m);
  }

  lemma DotZero(m: V3)
    ensures Dot(ZERO, m) == 0.0
  {
  }

  lemma SamePoint(line: Line, tri: Triangle, t: real, s0: real, s1: real)
    ensures PointOn(line, t) == PointOf(tri, s0, s1)
       <==> Plus(Minus(line.b, tri.b), Scaled(line.m, t)) == Plus(Scaled(tri.e0, s0), Scaled(tri.e1, s1))
  {
  }

  /** A reported hit is where the line meets the triangle, up to the tolerances. */
  lemma HitMeets(tri: Triangle, line: Line, t: real)
    requires Dot(Normal(tri), line.m) != 0.0 && Hit(tri, line) == Some(t)
    ensures Determinant(tri) > 0.0
    ensures var d := Plus(Minus(line.b, tri.b), Scaled(line.m, t));
      Meets(tri, line, t, S0(tri, d) / Determinant(tri), S1(tri, d) / Determinant(tri))
  {
    hide Dot, Cross, Determinant, Scaled, Plus, Minus, Time, S0, S1, PointOn, PointOf, Product;
    var d := Plus(Minus(line.b, tri.b), Scaled(line.m, t));
    var det := Determinant(tri);
    TimeIff(tri, line, t);
    NormalNotZero(tri, line.m);
    Coordinates(tri, d);
    DivideBack(S0(tri, d), det);
    DivideBack(S1(tri, d), det);
    Divide(d, tri.e0, tri.e1, S0(tri, d) / det, S1(tri, d) / det, S0(tri, d), S1(tri, d), det);
    SamePoint(line, tri, t, S0(tri, d) / det, S1(tri, d) / det);
  }

  lemma DivideBack(a: real, b: real)
    requires b > 0.0
    ensures a / b * b == a == Product(a / b, b)
  {
  }

  lemma Divide(d: V3, e0: V3, e1: V3, p: real, q: real, s0: real, s1: real, det: real)
    requires det > 0.0 && s0 == Product(p, det) && s1 == Product(q, det)
    requires Scaled(d, det) == Plus(Scaled(e0, s0), Scaled(e1, s1))
    ensures d == Plus(Scaled(e0, p), Scaled(e1, q))
  {
    hide Product, Summed, Plus;
    SummedAll(e0, e1, s0, s1);
    SummedAll(e0, e1, p, q);
    DivideOne(d.x, e0.x, e1.x, p, q, s0, s1, det);
    DivideOne(d.y, e0.y, e1.y, p, q, s0, s1, det);
    DivideOne(d.z, e0.z, e1.z, p, q, s0, s1, det);
  }

  lemma DivideOne(d: real, a: real, b: real, p: real, q: real, s0: real, s1: real, det: real)
    requires det > 0.0 && s0 == Product(p, det) && s1 == Product(q, det) && d * det == Summed(a, b, s0, s1)
    ensures d == Summed(a, b, p, q)
  {
    assert a * s0 == a * p * det && b * s1 == b * q * det;
    assert (d - (a * p + b * q)) * det == 0.0;
  }

  /** And whatever meets the triangle is reported. */
  lemma MeetsIsHit(tri: Triangle, line: Line, t: real, s0: real, s1: real)
    requires Dot(Normal(tri), line.m) != 0.0 && Meets(tri, line, t, s0, s1)
    ensures Hit(tri, line) == Some(t)
  {
    hide Dot, Cross, Determinant, Scaled, Plus, Minus, Time, S0, S1, PointOn, PointOf;
    SamePoint(line, tri, t, s0, s1);
    CoordinatesOf(tri, s0, s1);
    TimeIff(tri, line, t);
  }

  /**
   * intersect answers t if and only if the line runs against the normal, steeply enough, and meets the
   * triangle at t.
   */
  lemma IntersectIff(tri: Triangle, line: Line, t: real)
    ensures Intersect(tri, line) == Some(t)
       <==> Dot(Cross(tri.e0, tri.e1), line.m) < -0.0001 && exists s0, s1 :: Meets(tri, line, t, s0, s1)
  {
    hide Dot, Cross, Hit, Meets;
    if Dot(Normal(tri), line.m) < -TOLERANCE {
      HitIff(tri, line, t);
    }
  }

  /** So a line answered at a positive time begins on the side the normal points to. */
  lemma HitFromTheFront(tri: Triangle, line: Line, t: real)
    requires Intersect(tri, line) == Some(t)
    ensures Dot(Cross(tri.e0, tri.e1), Minus(line.b, tri.b)) == -(Dot(Cross(tri.e0, tri.e1), line.m) * t)
    ensures t > 0.0 ==> Dot(Cross(tri.e0, tri.e1), Minus(line.b, tri.b)) > 0.0
  {
    hide Dot, Cross, Minus, Plus, Scaled, S0, S1, Determinant;
    var (n, d) := (Dot(Normal(tri), line.m), Dot(Normal(tri), Minus(line.b, tri.b)));
    Quotient(d, n);
    if t > 0.0 {
      NegativeTimes(n, t);
    }
  }

  lemma Quotient(d: real, n: real)
    requires n != 0.0
    ensures d == -(n * (-d / n))
  {
  }

  lemma NegativeTimes(n: real, t: real)
    requires n < 0.0 && t > 0.0
    ensures n * t < 0.0
  {
  }

  /**
   * The triangle in the xy plane whose normal points up the z axis: a line down from a half above it is answered
   * one half, a line up from below not at all.
   */
  lemma HitFromAbove()
    ensures var tri := Triangle(ZERO, X_AXIS, Y_AXIS);
      && Cross(tri.e0, tri.e1) == Z_AXIS
      && Intersect(tri, Line(V3(0.25, 0.25, 0.5), V3(0.0, 0.0, -1.0))) == Some(0.5)
      && Intersect(tri, Line(V3(0.25, 0.25, -0.5), V3(0.0, 0.0, 1.0))) == None
  {
    hide Hit, Determinant, Dot, Cross, PointOn, PointOf;
    var tri := Triangle(ZERO, X_AXIS, Y_AXIS);
    var down := Line(V3(0.25, 0.25, 0.5), V3(0.0, 0.0, -1.0));
    CrossOfAxes(Y_AXIS);
    AlongZ(1.0);
    AlongZ(-1.0);
    PointAbove(tri, down);
    ExactHitIsReported(tri, down, 0.5, 0.25, 0.25);
  }

  lemma AlongZ(z: real)
    ensures Dot(V3(0.0, 0.0, 1.0), V3(0.0, 0.0, z)) == z
  {
  }

  lemma PointAbove(tri: Triangle, down: Line)
    requires tri == Triangle(ZERO, X_AXIS, Y_AXIS)
    requires down == Line(V3(0.25, 0.25, 0.5), V3(0.0, 0.0, -1.0))
    ensures PointOn(down, 0.5) == PointOf(tri, 0.25, 0.25)
  {
    hide Scaled, Plus;
    ScaledAxes(0.25);
    assert Scaled(down.m, 0.5) == V3(0.0, 0.0, -0.5) by { ScaledDown(0.5); }
    PlusElements(down.b, Scaled(down.m, 0.5));
    PlusElements(ZERO, Scaled(X_AXIS, 0.25));
    PlusElements(Plus(ZERO, Scaled(X_AXIS, 0.25)), Scaled(Y_AXIS, 0.25));
  }

  lemma ScaledAxes(s: real)
    ensures Scaled(X_AXIS, s) == V3(s, 0.0, 0.0) && Scaled(Y_AXIS, s) == V3(0.0, s, 0.0)
  {
  }

  lemma ScaledDown(s: real)
    ensures Scaled(V3(0.0, 0.0, -1.0), s) == V3(0.0, 0.0, -s)
  {
  }

  lemma PlusElements(a: V3, b: V3)
    ensures Plus(a, b) == V3(a.x + b.x, a.y + b.y, a.z + b.z)
  {
  }

  /** intersect_both_sides answers t if and only if the line is not too parallel and meets the triangle at t. */
  lemma BothSidesIff(tri: Triangle, line: Line, t: real)
    ensures var n := Cross(tri.e0, tri.e1);
      IntersectBothSides(tri, line) == Some(t) <==>
        && Dot(n, line.m) * Dot(n, line.m) > 0.0001 * Dot(line.m, line.m) * Dot(n, n)
        && exists s0, s1 :: Meets(tri, line, t, s0, s1)
  {
    hide Dot, Cross, Hit, Meets;
    if Crossing(tri, line) {
      CrossingIsSound(tri, line);
      HitIff(tri, line, t);
    }
  }

  lemma HitIff(tri: Triangle, line: Line, t: real)
    requires Dot(Normal(tri), line.m) != 0.0
    ensures Hit(tri, line) == Some(t) <==> exists s0, s1 :: Meets(tri, line, t, s0, s1)
  {
    hide Dot, Normal, Hit, Meets;
    if Hit(tri, line) == Some(t) {
      HitMeets(tri, line, t);
    }
    if s0, s1 :| Meets(tri, line, t, s0, s1) {
      MeetsIsHit(tri, line, t, s0, s1);
    }
  }

  /** Every exact hit of the front face, within the segment and the triangle, is reported. */
  lemma ExactHitIsReported(tri: Triangle, line: Line, t: real, s0: real, s1: real)
    requires Dot(Cross(tri.e0, tri.e1), line.m) < -0.0001
    requires 0.0 <= t <= 1.0 && 0.0 <= s0 && 0.0 <= s1 && s0 + s1 <= 1.0
    requires PointOn(line, t) == PointOf(tri, s0, s1)
    ensures Intersect(tri, line) == Some(t)
  {
    hide Dot, Cross, Hit, PointOn, PointOf, Determinant;
    NormalNotZero(tri, line.m);
    InsideScaled(s0, s1, Determinant(tri));
    MeetsIsHit(tri, line, t, s0, s1);
  }

  lemma InsideScaled(s0: real, s1: real, det: real)
    requires det > 0.0 && 0.0 <= s0 && 0.0 <= s1 && s0 + s1 <= 1.0
    ensures s0 * det >= 0.0 && s1 * det >= 0.0 && s0 * det + s1 * det <= det
  {
    assert (1.0 - s0 - s1) * det >= 0.0;
  }

  // ----- the other side -----

  function Flipped(tri: Triangle): Triangle {
    Triangle(tri.b, tri.e1, tri.e0)
  }

  /** Turning the triangle round makes no difference to intersect_both_sides, and no line hits both faces. */
  lemma FlippingTriangle(tri: Triangle, line: Line)
    ensures IntersectBothSides(Flipped(tri), line) == IntersectBothSides(tri, line)
    ensures Dot(Cross(tri.e0, tri.e1), line.m) < -0.0001 ==> Intersect(Flipped(tri), line) == None
  {
    hide Dot, Cross, Hit, Scaled, Plus;
    CrossFlips(tri.e1, tri.e0);
    FlippedDot(Normal(tri), line.m);
    if Crossing(tri, line) {
      CrossingIsSound(tri, line);
      FlippedHit(tri, line);
    }
  }

  lemma FlippedDot(n: V3, m: V3)
    ensures Dot(Minus(ZERO, n), m) == -Dot(n, m)
    ensures Dot(Minus(ZERO, n), Minus(ZERO, n)) == Dot(n, n)
    ensures Dot(Minus(ZERO, n), m) * Dot(Minus(ZERO, n), m) == Dot(n, m) * Dot(n, m)
  {
  }

  lemma FlippedHit(tri: Triangle, line: Line)
    requires Dot(Normal(tri), line.m) != 0.0 && Dot(Normal(Flipped(tri)), line.m) != 0.0
    ensures Hit(Flipped(tri), line) == Hit(tri, line)
  {
    hide Dot, Cross, Hit, Meets;
    forall t ensures Hit(tri, line) == Some(t) ==> Hit(Flipped(tri), line) == Some(t) {
      if Hit(tri, line) == Some(t) {
        HitIff(tri, line, t);
        var s0, s1 :| Meets(tri, line, t, s0, s1);
        FlippedMeets(tri, line, t, s0, s1);
        MeetsIsHit(Flipped(tri), line, t, s1, s0);
      }
    }
    if Hit(Flipped(tri), line).Some? {
      var t := Hit(Flipped(tri), line).value;
      HitIff(Flipped(tri), line, t);
      var s0, s1 :| Meets(Flipped(tri), line, t, s0, s1);
      FlippedMeets(Flipped(tri), line, t, s0, s1);
      MeetsIsHit(tri, line, t, s1, s0);
    }
  }

  lemma FlippedMeets(tri: Triangle, line: Line, t: real, s0: real, s1: real)
    requires Meets(tri, line, t, s0, s1)
    ensures Meets(Flipped(tri), line, t, s1, s0)
  {
    hide Dot, Cross, Determinant, Scaled;
    FlippedDeterminant(tri);
    assert PointOf(Flipped(tri), s1, s0) == PointOf(tri, s0, s1);
  }

  lemma FlippedDeterminant(tri: Triangle)
    ensures Determinant(Flipped(tri)) == Determinant(tri)
  {
    hide Dot;
    DotCommutes(tri.e0, tri.e1);
  }
}
