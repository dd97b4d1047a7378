/**
 * Locking a physics entity in place (code/addons/physics: physicsentity.cc, composite.cc, rigidbody.cc,
 * and the ODE conversions of physicsserver.h), on values. A step lets the simulator move and enable
 * bodies; the entity then reads them back and, when locked and enabled, puts everything back.
 */
module LockInPlace {
  import opened Matrices
  import opened Vectors

  // ----- the ODE conversions -----

  /** A body's position and the nine used elements of its dMatrix3, row by row. */
  datatype Pose = Pose(pos: V3, row0: V3, row1: V3, row2: V3)

  /** Matrix44ToOde and Vector3ToOde: the transposed rotation, and the translation. */
  function ToOde(m: M4): Pose {
    Pose(V3(m.m41, m.m42, m.m43),
         V3(m.m11, m.m21, m.m31), V3(m.m12, m.m22, m.m32), V3(m.m13, m.m23, m.m33))
  }

  /** OdeToMatrix44 over an old matrix, of which only the last element survives. */
  function FromOde(p: Pose, before: M4): M4 {
    M4(p.row0.x, p.row1.x, p.row2.x, 0.0,
       p.row0.y, p.row1.y, p.row2.y, 0.0,
       p.row0.z, p.row1.z, p.row2.z, 0.0,
       p.pos.x, p.pos.y, p.pos.z, before.m44)
  }

  /** The conversions are inverse to each other, on matrices exactly when the first three rows end in zero. */
  lemma OdeRoundTrip(p: Pose, m: M4, before: M4)
    ensures ToOde(FromOde(p, before)) == p
    ensures FromOde(ToOde(m), before) == m <==> m.m14 == 0.0 && m.m24 == 0.0 && m.m34 == 0.0 && m.m44 == before.m44
  {
    var q := ToOde(FromOde(p, before));
    assert q.pos == p.pos && q.row0 == p.row0 && q.row1 == p.row1 && q.row2 == p.row2;
  }

  /** ODE turns column vectors: rotating and moving a point by its numbers is moving it by the matrix. */
  lemma OdeMovesPoints(m: M4, p: V3)
    ensures var (pose, q) := (ToOde(m), RowMul(V4(p.x, p.y, p.z, 1.0), m));
      && Vectors.Dot(pose.row0, p) + pose.pos.x == q.x
      && Vectors.Dot(pose.row1, p) + pose.pos.y == q.y
      && Vectors.Dot(pose.row2, p) + pose.pos.z == q.z
  {
  }

  // ----- bodies and composites -----

  datatype Body = Body(initial: M4, transform: M4, pose: Pose, enabled: bool)

  datatype Composite = Composite(transform: M4, bodies: seq<Body>)

  /** RigidBody::SetTransform with the body's offset applied first, as the composite does. */
  function PlaceBody(b: Body, m: M4): Body {
    var t := Mul(b.initial, m);
    b.(transform := t, pose := ToOde(t))
  }

  /** RigidBody::OnStepAfter */
  function ReadBody(b: Body): Body {
    b.(transform := FromOde(b.pose, b.transform))
  }

  /** Composite::SetTransform on an attached composite. */
  function Place(c: Composite, m: M4): Composite {
    Composite(m, seq(|c.bodies|, i requires 0 <= i < |c.bodies| => PlaceBody(c.bodies[i], m)))
  }

  /** Composite::SetEnabled */
  function SetEnabled(c: Composite, enabled: bool): Composite {
    c.(bodies := seq(|c.bodies|, i requires 0 <= i < |c.bodies| => c.bodies[i].(enabled := enabled)))
  }

  /** Composite::OnStepAfter: read all bodies, and take the own transform from the first one. */
  function Read(c: Composite): Composite {
    var bodies := seq(|c.bodies|, i requires 0 <= i < |c.bodies| => ReadBody(c.bodies[i]));
    Composite(if bodies == [] then c.transform else Mul(Inverse(bodies[0].initial), bodies[0].transform), bodies)
  }

  /** Composite::IsEnabled */
  predicate IsEnabled(c: Composite) {
    c.bodies == [] || c.bodies[0].enabled
  }

  /** PhysicsEntity::OnStepAfter of an entity locked at `lock`. */
  function LockedStepAfter(c: Composite, lock: M4): Composite {
    var r := Read(c);
    if IsEnabled(r) then SetEnabled(Place(r, lock), false) else r
  }

  // ----- the simulator -----

  datatype Move = Move(pose: Pose, enabled: bool)

  /** The simulator may do anything to a body but move one that was, and stays, disabled. */
  predicate MayMove(c: Composite, moves: seq<Move>) {
    && |moves| == |c.bodies|
    && forall i :: 0 <= i < |moves| ==>
         !c.bodies[i].enabled && !moves[i].enabled ==> moves[i].pose == c.bodies[i].pose
  }

  function Simulate(c: Composite, moves: seq<Move>): Composite
    requires |moves| == |c.bodies|
  {
    c.(bodies := seq(|c.bodies|, i requires 0 <= i < |c.bodies| =>
                       c.bodies[i].(pose := moves[i].pose, enabled := moves[i].enabled)))
  }

  // ----- between steps -----

  /** Offsets and own transform are affine and the offsets invertible, as the documentation of SetTransform demands. */
  predicate Affine44(c: Composite) {
    && Affine(c.transform)
    && forall i :: 0 <= i < |c.bodies| ==>
         Affine(c.bodies[i].initial) && Det(c.bodies[i].initial) != 0.0 && c.bodies[i].transform.m44 == 1.0
  }

  /** The first body is where the composite's transform says. */
  predicate Synced(c: Composite) {
    Affine44(c) && (c.bodies != [] ==> c.bodies[0].pose == ToOde(Mul(c.bodies[0].initial, c.transform)))
  }

  /** Composite transform and body transform determine each other. */
  lemma OffsetsCancel(initial: M4, m: M4)
    requires Det(initial) != 0.0
    ensures Mul(Inverse(initial), Mul(initial, m)) == m == Mul(initial, Mul(Inverse(initial), m))
  {
    hide Mul, Inverse, Det;
    TwoSidedInverse(initial);
    MulAssoc(Inverse(initial), initial, m);
    MulAssoc(initial, Inverse(initial), m);
    MulIdentity(m);
  }

  /** Setting the transform establishes agreement; moving nothing keeps it. */
  lemma PlaceSyncs(c: Composite, m: M4)
    requires Affine44(c) && Affine(m)
    ensures Synced(Place(c, m))
  {
    hide Mul, Det;
    forall i | 0 <= i < |c.bodies| ensures Affine(Mul(c.bodies[i].initial, m)) {
      AffineProduct(c.bodies[i].initial, m);
    }
  }

  /** Whatever the simulator did, reading the bodies back establishes agreement. */
  lemma ReadSyncs(c: Composite)
    requires Affine44(c)
    ensures Synced(Read(c))
  {
    hide Mul, Det, Inverse;
    if c.bodies != [] {
      var b := c.bodies[0];
      var t := ReadBody(b).transform;
      OffsetsCancel(b.initial, t);
      AffineInverse(b.initial);
      AffineProduct(Inverse(b.initial), t);
      OdeRoundTrip(b.pose, t, b.transform);
    }
  }

  /** A composite in agreement whose first body has not moved reads its own transform back. */
  lemma ReadUnmoved(c: Composite)
    requires Synced(c)
    ensures Read(c).transform == c.transform
  {
    hide Mul, Det, Inverse;
    if c.bodies != [] {
      var b := c.bodies[0];
      var t := Mul(b.initial, c.transform);
      AffineProduct(b.initial, c.transform);
      OdeRoundTrip(b.pose, t, b.transform);
      OffsetsCancel(b.initial, c.transform);
    }
  }

  // ----- the lock -----

  /** What Lock leaves: everything in agreement at `lock`, the first body disabled. */
  predicate LockedAt(c: Composite, lock: M4) {
    Synced(c) && c.transform == lock && (c.bodies != [] ==> !c.bodies[0].enabled)
  }

  lemma LockEstablishes(c: Composite)
    requires Synced(c)
    ensures LockedAt(SetEnabled(c, false), c.transform)
  {
    hide Mul, Det;
  }

  /** One step of a locked entity, whatever the simulator does to its bodies. */
  lemma LockedStep(c: Composite, lock: M4, moves: seq<Move>)
    requires LockedAt(c, lock) && MayMove(c, moves)
    ensures LockedAt(LockedStepAfter(Simulate(c, moves), lock), lock)
  {
    hide Mul, Det, Inverse;
    var s := Simulate(c, moves);
    ReadSyncs(s);
    if IsEnabled(Read(s)) {
      PlaceSyncs(Read(s), lock);
      LockEstablishes(Place(Read(s), lock));
    } else {
      assert s.bodies[0] == c.bodies[0];
      ReadUnmoved(s);
    }
  }

  /** Any run of steps the simulator may make. */
  ghost predicate MayRun(c: Composite, lock: M4, run: seq<seq<Move>>)
    decreases |run|
  {
    run != [] ==> MayMove(c, run[0]) && MayRun(LockedStepAfter(Simulate(c, run[0]), lock), lock, run[1..])
  }

  ghost function AfterRun(c: Composite, lock: M4, run: seq<seq<Move>>): Composite
    requires MayRun(c, lock, run)
    decreases |run|
  {
    if run == [] then c else AfterRun(LockedStepAfter(Simulate(c, run[0]), lock), lock, run[1..])
  }

  /** From Lock on, after any number of steps of any simulator, the entity is where it was locked. */
  lemma {:induction false} LockHolds(c: Composite, lock: M4, run: seq<seq<Move>>)
    requires LockedAt(c, lock) && MayRun(c, lock, run)
    ensures LockedAt(AfterRun(c, lock, run), lock)
    decreases |run|
  {
    hide LockedAt, LockedStepAfter, Simulate;
    if run != [] {
      LockedStep(c, lock, run[0]);
      LockHolds(LockedStepAfter(Simulate(c, run[0]), lock), lock, run[1..]);
    }
  }

  /** All bodies are where the locked transform puts them. */
  predicate AllInPlace(c: Composite, lock: M4) {
    forall i :: 0 <= i < |c.bodies| ==> c.bodies[i].pose == ToOde(Mul(c.bodies[i].initial, lock))
  }

  /**
   * The lock watches only the first body: after a step all bodies are in their places exactly when the
   * first one was enabled (so all were put back) or the simulator left every body in place.
   */
  lemma OthersInPlaceIff(c: Composite, lock: M4, moves: seq<Move>)
    requires LockedAt(c, lock) && MayMove(c, moves) && c.bodies != []
    ensures AllInPlace(LockedStepAfter(Simulate(c, moves), lock), lock)
        <==> moves[0].enabled || AllInPlace(Simulate(c, moves), lock)
  {
    hide Mul, Det, Inverse;
    var s := Simulate(c, moves);
    var after := LockedStepAfter(s, lock);
    if !moves[0].enabled {
      assert forall i :: 0 <= i < |s.bodies| ==> after.bodies[i].pose == s.bodies[i].pose && after.bodies[i].initial == s.bodies[i].initial;
    }
  }

  /**
   * If the simulator enabled the first body, every body is put where its offset and the locked transform say,
   * and disabled; if not, every body stays where the simulator left it, enabled or not, and reads that pose.
   */
  lemma FirstBodyDecides(c: Composite, lock: M4, moves: seq<Move>, i: nat)
    requires |moves| == |c.bodies| && i < |moves|
    ensures var (was, after) := (c.bodies[i], LockedStepAfter(Simulate(c, moves), lock));
      && |after.bodies| == |c.bodies|
      && after.bodies[i] ==
         if moves[0].enabled then Body(was.initial, Mul(was.initial, lock), ToOde(Mul(was.initial, lock)), false)
         else Body(was.initial, FromOde(moves[i].pose, was.transform), moves[i].pose, moves[i].enabled)
  {
    hide Mul, Inverse, ToOde, FromOde;
  }

  // ----- a body the lock does not watch -----

  /** The first body is left disabled, so the lock sees nothing. */
  predicate Unnoticed(moves: seq<Move>) {
    moves != [] && !moves[0].enabled
  }

  /** As long as the first body is left disabled, every body stays where the simulator put it last. */
  lemma {:induction false} OthersStayMoved(c: Composite, lock: M4, run: seq<seq<Move>>, k: nat)
    requires MayRun(c, lock, run) && run != [] && k < |c.bodies|
    requires forall j :: 0 <= j < |run| ==> Unnoticed(run[j])
    ensures |AfterRun(c, lock, run).bodies| == |c.bodies| == |run[|run| - 1]|
    ensures AfterRun(c, lock, run).bodies[k].initial == c.bodies[k].initial
    ensures AfterRun(c, lock, run).bodies[k].pose == run[|run| - 1][k].pose
    decreases |run|
  {
    hide Mul, Inverse;
    assert Unnoticed(run[0]);
    var after := LockedStepAfter(Simulate(c, run[0]), lock);
    assert after.bodies[k].pose == run[0][k].pose && after.bodies[k].initial == c.bodies[k].initial;
    if |run| > 1 {
      OthersStayMoved(after, lock, run[1..], k);
    }
  }

  /** `n` steps in which nothing happens. */
  function Quiet(moves: seq<Move>, n: nat): (run: seq<seq<Move>>)
    ensures |run| == n && forall j :: 0 <= j < n ==> run[j] == moves
  {
    seq(n, _ => moves)
  }

  lemma {:induction false} QuietMayRun(c: Composite, lock: M4, moves: seq<Move>, n: nat)
    requires |moves| == |c.bodies| && Unnoticed(moves)
    requires forall i :: 0 <= i < |moves| ==> moves[i].pose == c.bodies[i].pose
    ensures MayRun(c, lock, Quiet(moves, n))
    decreases n
  {
    hide Mul, Inverse;
    if n > 0 {
      var after := LockedStepAfter(Simulate(c, moves), lock);
      QuietMayRun(after, lock, moves, n - 1);
      assert Quiet(moves, n)[1..] == Quiet(moves, n - 1);
    }
  }

  /** A run begun by one step and quiet afterwards. */
  function Push(moves: seq<Move>, n: nat): seq<seq<Move>> {
    [moves] + Quiet(seq(|moves|, i requires 0 <= i < |moves| => moves[i].(enabled := false)), n)
  }

  lemma PushMayRun(c: Composite, lock: M4, moves: seq<Move>, n: nat)
    requires MayMove(c, moves) && Unnoticed(moves)
    ensures MayRun(c, lock, Push(moves, n))
  {
    hide Mul, Inverse;
    var still := seq(|moves|, i requires 0 <= i < |moves| => moves[i].(enabled := false));
    QuietMayRun(LockedStepAfter(Simulate(c, moves), lock), lock, still, n);
    assert Push(moves, n)[1..] == Quiet(still, n);
  }

  /**
   * One step that leaves the first body disabled and another one out of its place: it stays out of place for
   * any number of quiet steps, although the entity has its locked transform.
   */
  lemma LockLosesBody(c: Composite, lock: M4, moves: seq<Move>, n: nat, k: nat)
    requires LockedAt(c, lock) && MayMove(c, moves) && Unnoticed(moves)
    requires k < |moves| && moves[k].pose != ToOde(Mul(c.bodies[k].initial, lock))
    ensures MayRun(c, lock, Push(moves, n)) && LockedAt(AfterRun(c, lock, Push(moves, n)), lock)
    ensures !AllInPlace(AfterRun(c, lock, Push(moves, n)), lock)
  {
    hide Mul, Inverse, Det, MayRun, AfterRun, LockedAt, Quiet, Push, ToOde;
    var run := Push(moves, n);
    PushMayRun(c, lock, moves, n);
    LockHolds(c, lock, run);
    PushedAway(moves, n);
    OthersStayMoved(c, lock, run, k);
  }

  lemma PushedAway(moves: seq<Move>, n: nat)
    requires Unnoticed(moves)
    ensures var run := Push(moves, n);
      && run != [] && (forall j :: 0 <= j < |run| ==> Unnoticed(run[j]))
      && |run[|run| - 1]| == |moves| && forall k :: 0 <= k < |moves| ==> run[|run| - 1][k].pose == moves[k].pose
  {
    assert Push(moves, n)[0] == moves;
  }

  /** Such a step: of two bodies, another entity pushes the second one away and does not touch the first. */
  lemma PushedSecondBody(away: Pose)
    requires away != ToOde(IDENTITY)
    ensures var place := Body(IDENTITY, IDENTITY, ToOde(IDENTITY), false);
      var c, moves := Composite(IDENTITY, [place, place]), [Move(ToOde(IDENTITY), false), Move(away, true)];
      && LockedAt(c, IDENTITY) && MayMove(c, moves) && Unnoticed(moves)
      && moves[1].pose != ToOde(Mul(c.bodies[1].initial, IDENTITY))
  {
    hide Mul, Inverse, Det;
    MulIdentity(IDENTITY);
    DetOfIdentity();
  }
}
