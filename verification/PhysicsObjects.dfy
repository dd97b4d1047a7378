/**
 * The physics objects of code/addons/physics: shapes in collide spaces (shape.cc), rigid bodies
 * (rigidbody.cc), composites (composite.cc) and entities (physicsentity.cc). The methods are proved
 * against the values of module LockInPlace and against `Consistent`, which ties every shape's space id
 * to ODE's own record of which geom is in which space.
 *
 * ODE's state is kept where its owner is: a body's pose and enabled flag in the RigidBody, the spaces'
 * members in CollideSpaces.
 */
module PhysicsObjects {
  import opened Matrices
  import opened LockInPlace

  type Id = nat

  // ----- collide spaces -----

  /** ODE's two collide spaces of a level, and the ids it has handed out for geoms. */
  class CollideSpaces {
    const dynamicSpace: Id
    const staticSpace: Id
    var members: map<Id, set<Id>>
    var nextGeom: Id

    constructor ()
      ensures Valid() && forall s :: s in members ==> members[s] == {}
    {
      dynamicSpace, staticSpace := 1, 2;
      members := map[1 := {}, 2 := {}];
      nextGeom := 1;
    }

    predicate Valid()
      reads this
    {
      && dynamicSpace != 0 && staticSpace != 0 && dynamicSpace != staticSpace
      && members.Keys == {dynamicSpace, staticSpace}
      && 0 < nextGeom
      && forall s, g :: s in members && g in members[s] ==> g < nextGeom
    }

    method CreateGeom() returns (geom: Id)
      requires Valid()
      modifies this`nextGeom
      ensures Valid() && geom == old(nextGeom) && nextGeom == geom + 1 && geom != 0
    {
      geom := nextGeom;
      nextGeom := nextGeom + 1;
    }

    /** dSpaceAdd: the geom may not be in a space already. */
    method Add(space: Id, geom: Id)
      requires Valid() && space in members && geom < nextGeom
      requires forall s :: s in members ==> geom !in members[s]
      modifies this`members
      ensures Valid() && members == old(members)[space := old(members)[space] + {geom}]
    {
      members := members[space := members[space] + {geom}];
    }

    /** dSpaceRemove: the geom must be in that space. */
    method Remove(space: Id, geom: Id)
      requires Valid() && space in members && geom in members[space]
      modifies this`members
      ensures Valid() && members == old(members)[space := old(members)[space] - {geom}]
    {
      members := members[space := members[space] - {geom}];
    }

    /** dGeomDestroy takes the geom out of whatever space it is in. */
    method Destroy(geom: Id)
      requires Valid()
      modifies this`members
      ensures Valid() && members == map s | s in old(members) :: old(members)[s] - {geom}
    {
      members := map s | s in members :: members[s] - {geom};
    }
  }

  // ----- shapes -----

  /** Every shape's space id names the one space its geom is in, and no two shapes share a geom. */
  ghost predicate Consistent(spaces: CollideSpaces, all: set<Shape>)
    reads spaces, all
  {
    && spaces.Valid()
    && (forall s :: s in all ==> InItsSpace(spaces, s))
    && (forall s, t :: s in all && t in all && s != t && s.odeGeomId != 0 ==> s.odeGeomId != t.odeGeomId)
  }

  ghost predicate InItsSpace(spaces: CollideSpaces, s: Shape)
    reads spaces, s
  {
    && s.odeGeomId < spaces.nextGeom
    && (s.odeGeomId == 0 ==> s.odeSpaceId == 0)
    && (s.odeSpaceId != 0 ==> s.odeSpaceId in spaces.members)
    && (s.odeGeomId != 0 ==>
         forall sp :: sp in spaces.members ==> (s.odeGeomId in spaces.members[sp] <==> sp == s.odeSpaceId))
  }

  class Shape {
    var odeGeomId: Id
    var odeSpaceId: Id

    constructor ()
      ensures odeGeomId == 0 && odeSpaceId == 0
    {
      odeGeomId, odeSpaceId := 0, 0;
    }

    method AttachToSpace(space: Id, spaces: CollideSpaces, ghost all: set<Shape>)
      requires Consistent(spaces, all) && this in all && space in spaces.members
      requires odeSpaceId == 0 && odeGeomId != 0
      modifies this`odeSpaceId, spaces`members
      ensures Consistent(spaces, all) && odeSpaceId == space
    {
      odeSpaceId := space;
      spaces.Add(space, odeGeomId);
    }

    method RemoveFromSpace(spaces: CollideSpaces, ghost all: set<Shape>)
      requires Consistent(spaces, all) && this in all
      requires odeSpaceId != 0 && odeGeomId != 0
      modifies this`odeSpaceId, spaces`members
      ensures Consistent(spaces, all) && odeSpaceId == 0
    {
      spaces.Remove(odeSpaceId, odeGeomId);
      odeSpaceId := 0;
    }

    /** Attach of a concrete shape: create the geom and AttachGeom it. */
    method Attach(space: Id, spaces: CollideSpaces, ghost all: set<Shape>)
      requires Consistent(spaces, all) && this in all && space in spaces.members
      requires odeGeomId == 0
      modifies this, spaces`members, spaces`nextGeom
      ensures Consistent(spaces, all) && odeGeomId != 0 && odeSpaceId == space
    {
      odeGeomId := spaces.CreateGeom();
      AttachToSpace(space, spaces, all);
    }

    method Detach(spaces: CollideSpaces, ghost all: set<Shape>)
      requires Consistent(spaces, all) && this in all
      requires odeGeomId != 0
      modifies this, spaces`members
      ensures Consistent(spaces, all) && odeGeomId == 0 && odeSpaceId == 0
    {
      spaces.Destroy(odeGeomId);
      odeGeomId := 0;
      odeSpaceId := 0;
    }
  }

  ghost predicate AllIn(shapes: seq<Shape>, space: Id)
    reads shapes
  {
    forall s :: s in shapes ==> s.odeGeomId != 0 && s.odeSpaceId == space
  }

  ghost predicate Attached(shapes: seq<Shape>)
    reads shapes
  {
    forall s :: s in shapes ==> s.odeGeomId != 0 && s.odeSpaceId != 0
  }

  ghost predicate Detached(shapes: seq<Shape>)
    reads shapes
  {
    forall s :: s in shapes ==> s.odeGeomId == 0
  }

  method AttachShapes(shapes: seq<Shape>, space: Id, spaces: CollideSpaces, ghost all: set<Shape>)
    requires Consistent(spaces, all) && space in spaces.members
    requires forall s :: s in shapes ==> s in all
    requires forall i, j :: 0 <= i < j < |shapes| ==> shapes[i] != shapes[j]
    requires Detached(shapes)
    modifies shapes, spaces`members, spaces`nextGeom
    ensures Consistent(spaces, all) && AllIn(shapes, space)
  {
    for i := 0 to |shapes|
      invariant Consistent(spaces, all)
      invariant forall k :: 0 <= k < i ==> shapes[k].odeGeomId != 0 && shapes[k].odeSpaceId == space
      invariant forall k :: i <= k < |shapes| ==> shapes[k].odeGeomId == 0
    {
      shapes[i].Attach(space, spaces, all);
    }
  }

  method DetachShapes(shapes: seq<Shape>, spaces: CollideSpaces, ghost all: set<Shape>)
    requires Consistent(spaces, all)
    requires forall s :: s in shapes ==> s in all
    requires forall i, j :: 0 <= i < j < |shapes| ==> shapes[i] != shapes[j]
    requires Attached(shapes)
    modifies shapes, spaces`members
    ensures Consistent(spaces, all) && Detached(shapes)
  {
    for i := 0 to |shapes|
      invariant Consistent(spaces, all)
      invariant forall k :: 0 <= k < i ==> shapes[k].odeGeomId == 0
      invariant forall k :: i <= k < |shapes| ==> shapes[k].odeGeomId != 0
    {
      shapes[i].Detach(spaces, all);
    }
  }

  // ----- rigid bodies -----

  class RigidBody {
    const shapes: seq<Shape>
    var initialTransform: M4
    var inverseInitialTransform: M4
    var transform: M4
    var odeBodyId: Id
    /** What ODE holds for the body: dBodyGetPosition and dBodyGetRotation, dBodyIsEnabled. */
    var pose: Pose
    var enabled: bool

    predicate Valid()
      reads this
    {
      inverseInitialTransform == Inverse(initialTransform)
    }

    function View(): Body
      reads this
    {
      Body(initialTransform, transform, pose, enabled)
    }

    constructor (shapes: seq<Shape>, initial: M4)
      ensures Valid() && this.shapes == shapes && initialTransform == initial && odeBodyId == 0 && transform == IDENTITY
    {
      hide Inverse;
      this.shapes := shapes;
      initialTransform, inverseInitialTransform, transform := initial, Inverse(initial), IDENTITY;
      odeBodyId := 0;
      pose, enabled := ToOde(IDENTITY), false;
    }

    method SetTransform(m: M4)
      modifies this`transform, this`pose
      ensures transform == m && pose == if odeBodyId != 0 then ToOde(m) else old(pose)
    {
      transform := m;
      if odeBodyId != 0 {
        pose := ToOde(m);
      }
    }

    method SetEnabled(b: bool)
      requires odeBodyId != 0
      modifies this`enabled
      ensures enabled == b
    {
      enabled := b;
    }

    /** `id` is the one ODE creates; new bodies are enabled. */
    method Attach(id: Id, space: Id, m: M4, spaces: CollideSpaces, ghost all: set<Shape>)
      requires odeBodyId == 0 && id != 0
      requires Consistent(spaces, all) && space in spaces.members
      requires forall s :: s in shapes ==> s in all
      requires forall i, j :: 0 <= i < j < |shapes| ==> shapes[i] != shapes[j]
      requires Detached(shapes)
      modifies this`odeBodyId, this`transform, this`pose, this`enabled, shapes, spaces`members, spaces`nextGeom
      ensures odeBodyId == id && enabled && transform == m && pose == ToOde(m)
      ensures Consistent(spaces, all) && AllIn(shapes, space)
    {
      odeBodyId := id;
      enabled := true;
      AttachShapes(shapes, space, spaces, all);
      SetTransform(m);
    }

    method Detach(spaces: CollideSpaces, ghost all: set<Shape>)
      requires odeBodyId != 0
      requires Consistent(spaces, all)
      requires forall s :: s in shapes ==> s in all
      requires forall i, j :: 0 <= i < j < |shapes| ==> shapes[i] != shapes[j]
      requires Attached(shapes)
      modifies this`odeBodyId, shapes, spaces`members
      ensures odeBodyId == 0 && Consistent(spaces, all) && Detached(shapes)
    {
      DetachShapes(shapes, spaces, all);
      odeBodyId := 0;
    }

    /** Shapes whose space does not fit the enabled flag move to the other space, the rest stay. */
    method OnStepBefore(spaces: CollideSpaces, ghost all: set<Shape>)
      requires odeBodyId != 0
      requires Consistent(spaces, all)
      requires forall s :: s in shapes ==> s in all
      requires Attached(shapes)
      modifies shapes, spaces`members
      ensures Consistent(spaces, all) && AllIn(shapes, if enabled then spaces.dynamicSpace else spaces.staticSpace)
      ensures forall s :: s in shapes ==> s.odeGeomId == old(s.odeGeomId)
    {
      var space := if enabled then spaces.dynamicSpace else spaces.staticSpace;
      for i := 0 to |shapes|
        invariant Consistent(spaces, all) && Attached(shapes)
        invariant forall k :: 0 <= k < i ==> shapes[k].odeSpaceId == space
        invariant forall s :: s in shapes ==> s.odeGeomId == old(s.odeGeomId)
      {
        var curShape := shapes[i];
        if space != curShape.odeSpaceId {
          curShape.RemoveFromSpace(spaces, all);
          curShape.AttachToSpace(space, spaces, all);
        }
      }
    }

    method OnStepAfter()
      requires odeBodyId != 0
      modifies this`transform
      ensures View() == ReadBody(old(View()))
    {
      transform := FromOde(pose, transform);
    }
  }

  // ----- composites -----

  ghost predicate Distinct(shapes: seq<Shape>) {
    forall i, j :: 0 <= i < j < |shapes| ==> shapes[i] != shapes[j]
  }

  ghost predicate NoneShared(a: seq<Shape>, b: seq<Shape>) {
    forall s :: s in a ==> s !in b
  }

  class Composite {
    const bodies: seq<RigidBody>
    /** The static shapes; the bodies have their own. */
    const shapes: seq<Shape>
    var transform: M4
    var isAttached: bool
    var transformWasSet: bool

    constructor (bodies: seq<RigidBody>, shapes: seq<Shape>)
      ensures this.bodies == bodies && this.shapes == shapes && transform == IDENTITY && !isAttached
    {
      this.bodies, this.shapes := bodies, shapes;
      transform, isAttached, transformWasSet := IDENTITY, false, false;
    }

    /** No body and no shape is used twice. */
    ghost predicate WellFormed() {
      && (forall i, j :: 0 <= i < j < |bodies| ==> bodies[i] != bodies[j])
      && (forall i, j :: 0 <= i < |bodies| && 0 <= j < |bodies| && i != j ==> NoneShared(bodies[i].shapes, bodies[j].shapes))
      && (forall b :: b in bodies ==> Distinct(b.shapes) && NoneShared(b.shapes, shapes))
      && Distinct(shapes)
    }

    ghost function BodyShapes(): set<Shape> {
      set b, s | b in bodies && s in b.shapes :: s
    }

    lemma Owned(i: nat)
      requires i < |bodies|
      ensures forall s :: s in bodies[i].shapes ==> s in BodyShapes()
    {
    }

    /** The bodies are attached exactly while the composite is. */
    ghost predicate BodiesValid()
      reads this`isAttached, bodies
    {
      forall b :: b in bodies ==> b.Valid() && (b.odeBodyId != 0 <==> isAttached)
    }

    function View(): LockInPlace.Composite
      reads this`transform, bodies
    {
      LockInPlace.Composite(transform, seq(|bodies|, i requires 0 <= i < |bodies| reads bodies => bodies[i].View()))
    }

    /** `ids` are the body ids ODE creates. */
    method Attach(ids: seq<Id>, spaces: CollideSpaces, ghost all: set<Shape>)
      requires WellFormed() && BodiesValid() && !isAttached
      requires |ids| == |bodies| && 0 !in ids
      requires Consistent(spaces, all) && BodyShapes() <= all && forall s :: s in shapes ==> s in all
      requires Detached(shapes) && forall b :: b in bodies ==> Detached(b.shapes)
      modifies this`isAttached, bodies, BodyShapes(), shapes, spaces`members, spaces`nextGeom
      ensures BodiesValid() && isAttached && Consistent(spaces, all)
      ensures forall b :: b in bodies ==> AllIn(b.shapes, spaces.dynamicSpace)
      ensures AllIn(shapes, spaces.staticSpace)
      ensures View() == LockInPlace.SetEnabled(Place(old(View()), transform), true)
    {
      hide Consistent, PlaceBody, RigidBody.View, RigidBody.Valid, Place, LockInPlace.SetEnabled;
      ghost var before := View();
      AttachBodies(ids, spaces, all);
      SpacesKnown(spaces, all);
      PlacedAndEnabled(View(), before, transform);
      AttachShapes(shapes, spaces.staticSpace, spaces, all);
      isAttached := true;
    }

    static lemma PlacedAndEnabled(after: LockInPlace.Composite, before: LockInPlace.Composite, m: M4)
      requires after.transform == m && |after.bodies| == |before.bodies|
      requires forall k :: 0 <= k < |after.bodies| ==> after.bodies[k] == PlaceBody(before.bodies[k], m).(enabled := true)
      ensures after == LockInPlace.SetEnabled(Place(before, m), true)
    {
      hide PlaceBody;
    }

    method AttachBodies(ids: seq<Id>, spaces: CollideSpaces, ghost all: set<Shape>)
      requires WellFormed() && BodiesValid() && !isAttached
      requires |ids| == |bodies| && 0 !in ids
      requires Consistent(spaces, all) && BodyShapes() <= all
      requires Detached(shapes) && forall b :: b in bodies ==> Detached(b.shapes)
      modifies bodies, BodyShapes(), spaces`members, spaces`nextGeom
      ensures forall b :: b in bodies ==> b.Valid() && b.odeBodyId != 0 && AllIn(b.shapes, spaces.dynamicSpace)
      ensures Consistent(spaces, all)
      ensures Detached(shapes)
      ensures forall k :: 0 <= k < |bodies| ==>
        bodies[k].View() == PlaceBody(old(bodies[k].View()), transform).(enabled := true)
    {
      hide Mul, Inverse, ToOde, PlaceBody, RigidBody.View, RigidBody.Valid, Consistent, BodyShapes, AllIn, Detached, WellFormed;
      for i := 0 to |bodies|
        invariant Consistent(spaces, all) && Detached(shapes)
        invariant forall k :: 0 <= k < |bodies| ==> bodies[k].Valid()
        invariant forall k :: 0 <= k < i ==>
          && bodies[k].odeBodyId != 0 && AllIn(bodies[k].shapes, spaces.dynamicSpace)
          && bodies[k].View() == PlaceBody(old(bodies[k].View()), transform).(enabled := true)
        invariant forall k :: i <= k < |bodies| ==>
          && bodies[k].odeBodyId == 0 && bodies[k].View() == old(bodies[k].View()) && Detached(bodies[k].shapes)
      {
        AttachBodyAt(i, ids[i], spaces, all);
      }
    }

    method AttachBodyAt(i: nat, id: Id, spaces: CollideSpaces, ghost all: set<Shape>)
      requires WellFormed() && i < |bodies| && id != 0
      requires bodies[i].Valid() && bodies[i].odeBodyId == 0 && Detached(bodies[i].shapes)
      requires Consistent(spaces, all) && BodyShapes() <= all
      modifies bodies[i], BodyShapes(), spaces`members, spaces`nextGeom
      ensures bodies[i].Valid() && bodies[i].odeBodyId != 0 && AllIn(bodies[i].shapes, spaces.dynamicSpace)
      ensures bodies[i].View() == PlaceBody(old(bodies[i].View()), transform).(enabled := true)
      ensures Consistent(spaces, all) && (old(Detached(shapes)) ==> Detached(shapes))
      ensures forall k :: 0 <= k < |bodies| && k != i ==>
        && bodies[k] != bodies[i]
        && (old(Detached(bodies[k].shapes)) ==> Detached(bodies[k].shapes))
        && (old(AllIn(bodies[k].shapes, spaces.dynamicSpace)) ==> AllIn(bodies[k].shapes, spaces.dynamicSpace))
    {
      hide Mul, Inverse, ToOde, PlaceBody, RigidBody.View, RigidBody.Valid, Consistent, Distinct, BodyShapes;
      Owned(i);
      AttachBody(bodies[i], id, spaces, all);
    }

    method AttachBody(body: RigidBody, id: Id, spaces: CollideSpaces, ghost all: set<Shape>)
      requires body.Valid() && body.odeBodyId == 0 && id != 0
      requires Consistent(spaces, all) && forall s :: s in body.shapes ==> s in all
      requires Distinct(body.shapes) && Detached(body.shapes)
      modifies body, body.shapes, spaces`members, spaces`nextGeom
      ensures body.Valid() && body.odeBodyId != 0 && Consistent(spaces, all) && AllIn(body.shapes, spaces.dynamicSpace)
      ensures body.View() == PlaceBody(old(body.View()), transform).(enabled := true)
    {
      hide Mul, Inverse, ToOde, Consistent;
      SpacesKnown(spaces, all);
      body.Attach(id, spaces.dynamicSpace, Mul(body.initialTransform, transform), spaces, all);
    }

    method Detach(spaces: CollideSpaces, ghost all: set<Shape>)
      requires WellFormed() && BodiesValid() && isAttached
      requires Consistent(spaces, all) && BodyShapes() <= all && forall s :: s in shapes ==> s in all
      requires Attached(shapes) && forall b :: b in bodies ==> Attached(b.shapes)
      modifies this`isAttached, bodies`odeBodyId, BodyShapes(), shapes, spaces`members
      ensures BodiesValid() && !isAttached && Consistent(spaces, all)
      ensures Detached(shapes) && forall b :: b in bodies ==> Detached(b.shapes)
    {
      hide Mul, Inverse, Consistent, BodyShapes;
      DetachBodies(spaces, all);
      DetachShapes(shapes, spaces, all);
      isAttached := false;
    }

    method DetachBodies(spaces: CollideSpaces, ghost all: set<Shape>)
      requires WellFormed() && BodiesValid() && isAttached
      requires Consistent(spaces, all) && BodyShapes() <= all
      requires Attached(shapes) && forall b :: b in bodies ==> Attached(b.shapes)
      modifies bodies`odeBodyId, BodyShapes(), spaces`members
      ensures Consistent(spaces, all) && Attached(shapes)
      ensures forall b :: b in bodies ==> b.odeBodyId == 0 && Detached(b.shapes)
    {
      hide Mul, Inverse, RigidBody.Valid, Consistent, BodyShapes;
      for i := 0 to |bodies|
        invariant Consistent(spaces, all) && Attached(shapes)
        invariant forall k :: 0 <= k < i ==> bodies[k].odeBodyId == 0 && Detached(bodies[k].shapes)
        invariant forall k :: i <= k < |bodies| ==> bodies[k].odeBodyId != 0 && Attached(bodies[k].shapes)
      {
        Owned(i);
        bodies[i].Detach(spaces, all);
      }
    }

    /** After this every shape of an enabled body is in the dynamic space, every shape of a disabled one in the static space. */
    method OnStepBefore(spaces: CollideSpaces, ghost all: set<Shape>)
      requires WellFormed() && BodiesValid()
      requires Consistent(spaces, all) && BodyShapes() <= all
      requires isAttached ==> forall b :: b in bodies ==> Attached(b.shapes)
      modifies BodyShapes(), spaces`members
      ensures Consistent(spaces, all)
      ensures isAttached ==> forall b :: b in bodies ==>
        AllIn(b.shapes, if b.enabled then spaces.dynamicSpace else spaces.staticSpace)
      ensures !isAttached ==> forall s :: s in BodyShapes() ==> s.odeGeomId == old(s.odeGeomId) && s.odeSpaceId == old(s.odeSpaceId)
    {
      hide Mul, Inverse, Consistent, BodyShapes;
      if isAttached {
        for i := 0 to |bodies|
          invariant Consistent(spaces, all)
          invariant forall k :: 0 <= k < i ==>
            AllIn(bodies[k].shapes, if bodies[k].enabled then spaces.dynamicSpace else spaces.staticSpace)
          invariant forall k :: i <= k < |bodies| ==> Attached(bodies[k].shapes)
        {
          Owned(i);
          bodies[i].OnStepBefore(spaces, all);
        }
      }
    }

    method OnStepAfter()
      requires WellFormed() && BodiesValid()
      modifies this`transform, bodies`transform
      ensures BodiesValid()
      ensures View() == if isAttached then Read(old(View())) else old(View())
      ensures isAttached ==> forall body :: body in bodies ==> body.transform == FromOde(body.pose, old(body.transform))
      ensures isAttached && bodies != [] ==>
        transform == Mul(Inverse(bodies[0].initialTransform), FromOde(bodies[0].pose, old(bodies[0].transform)))
    {
      hide Mul, Inverse, FromOde;
      if isAttached {
        ReadBodies();
        if bodies != [] {
          var masterBody := bodies[0];
          transform := Mul(masterBody.inverseInitialTransform, masterBody.transform);
          assert bodies[0].Valid() && View().bodies[0] == bodies[0].View();
        }
        assert View().bodies == Read(old(View())).bodies;
      } else {
        assert View().bodies == old(View().bodies);
      }
    }

    method ReadBodies()
      requires WellFormed() && BodiesValid() && isAttached
      modifies bodies`transform
      ensures BodiesValid()
      ensures forall k :: 0 <= k < |bodies| ==> bodies[k].View() == ReadBody(old(bodies[k].View()))
    {
      hide Mul, Inverse, FromOde;
      for i := 0 to |bodies|
        invariant forall k :: 0 <= k < i ==> bodies[k].View() == ReadBody(old(bodies[k].View()))
        invariant forall k :: i <= k < |bodies| ==> bodies[k].View() == old(bodies[k].View())
      {
        bodies[i].OnStepAfter();
      }
    }

    method SetTransform(m: M4)
      requires WellFormed() && BodiesValid()
      modifies this`transform, this`transformWasSet, bodies`transform, bodies`pose
      ensures BodiesValid() && transform == m && transformWasSet
      ensures View() == if isAttached then Place(old(View()), m) else old(View()).(transform := m)
      ensures isAttached ==> forall body :: body in bodies ==>
        body.transform == Mul(body.initialTransform, m) && body.pose == ToOde(body.transform)
    {
      hide Mul, Inverse;
      transform := m;
      transformWasSet := true;
      if isAttached {
        for i := 0 to |bodies|
          invariant transform == m && transformWasSet
          invariant forall k :: 0 <= k < i ==> bodies[k].View() == PlaceBody(old(bodies[k].View()), m)
          invariant forall k :: i <= k < |bodies| ==> bodies[k].View() == old(bodies[k].View())
        {
          bodies[i].SetTransform(Mul(bodies[i].initialTransform, m));
        }
        assert View().bodies == Place(old(View()), m).bodies;
      } else {
        assert View().bodies == old(View().bodies);
      }
    }

    method SetEnabled(b: bool)
      requires WellFormed() && BodiesValid() && (bodies != [] ==> isAttached)
      modifies bodies`enabled
      ensures BodiesValid() && View() == LockInPlace.SetEnabled(old(View()), b)
      ensures forall body :: body in bodies ==> body.enabled == b
    {
      hide Mul, Inverse;
      for i := 0 to |bodies|
        invariant forall k :: 0 <= k < i ==> bodies[k].View() == old(bodies[k].View()).(enabled := b)
        invariant forall k :: i <= k < |bodies| ==> bodies[k].View() == old(bodies[k].View())
      {
        bodies[i].SetEnabled(b);
      }
    }

    method IsEnabled() returns (b: bool)
      requires bodies != [] ==> isAttached
      ensures b == LockInPlace.IsEnabled(View()) == (bodies == [] || bodies[0].enabled)
    {
      b := if bodies != [] then bodies[0].enabled else true;
    }

    /** What a step of the simulator does to the bodies, within the limits of `MayMove`. */
    method Simulate(moves: seq<Move>)
      requires WellFormed() && BodiesValid() && isAttached && MayMove(View(), moves)
      modifies bodies`pose, bodies`enabled
      ensures BodiesValid() && View() == LockInPlace.Simulate(old(View()), moves)
    {
      hide Mul, Inverse;
      for i := 0 to |bodies|
        invariant forall k :: 0 <= k < i ==>
          bodies[k].View() == old(bodies[k].View()).(pose := moves[k].pose, enabled := moves[k].enabled)
        invariant forall k :: i <= k < |bodies| ==> bodies[k].View() == old(bodies[k].View())
      {
        bodies[i].pose, bodies[i].enabled := moves[i].pose, moves[i].enabled;
      }
    }
  }

  lemma SpacesKnown(spaces: CollideSpaces, all: set<Shape>)
    requires Consistent(spaces, all)
    ensures spaces.dynamicSpace in spaces.members && spaces.staticSpace in spaces.members
    ensures spaces.dynamicSpace != 0 && spaces.staticSpace != 0
  {
  }

  lemma LockedTransform(c: LockInPlace.Composite, lock: M4)
    requires LockedAt(c, lock)
    ensures c.transform == lock
  {
  }

  // ----- any run of several composites -----

  /** The objects a composite is made of. */
  ghost function Footprint(c: Composite): set<object> {
    var own: set<object> := {c};
    var bodies: set<RigidBody> := set b | b in c.bodies;
    var statics: set<Shape> := set s | s in c.shapes;
    own + bodies + c.BodyShapes() + statics
  }

  predicate IsPlaced(s: Shape, attached: bool)
    reads s
  {
    if attached then s.odeGeomId != 0 && s.odeSpaceId != 0 else s.odeGeomId == 0
  }

  /** What holds of a composite between calls: its shapes are in spaces exactly while it is attached. */
  ghost predicate InOrder(c: Composite, all: set<Shape>)
    reads Footprint(c)
  {
    && c.WellFormed() && c.BodiesValid()
    && c.BodyShapes() <= all && (forall s :: s in c.shapes ==> s in all)
    && (forall s :: s in c.shapes ==> IsPlaced(s, c.isAttached))
    && (forall s :: s in c.BodyShapes() ==> IsPlaced(s, c.isAttached))
  }

  lemma BodiesPlaced(c: Composite)
    requires forall s :: s in c.BodyShapes() ==> IsPlaced(s, c.isAttached)
    ensures forall b :: b in c.bodies ==> if c.isAttached then Attached(b.shapes) else Detached(b.shapes)
  {
    forall b | b in c.bodies ensures forall s :: s in b.shapes ==> s in c.BodyShapes() {
      var i :| 0 <= i < |c.bodies| && c.bodies[i] == b;
      c.Owned(i);
    }
  }

  /** No body and no shape belongs to two composites. */
  ghost predicate Apart(composites: seq<Composite>) {
    forall i, j :: 0 <= i < |composites| && 0 <= j < |composites| && i != j ==>
      Footprint(composites[i]) !! Footprint(composites[j])
  }

  /** Attach with the ids ODE creates, Detach, the start of a step, and what the simulator does to the bodies. */
  datatype Call = CallAttach(ids: seq<Id>) | CallDetach | CallStepBefore | CallSimulate(moves: seq<Move>)

  /** What the source asserts, and what the simulator is held to. */
  predicate Allowed(c: Composite, call: Call)
    reads c, c.bodies
  {
    match call
    case CallAttach(ids) => !c.isAttached && |ids| == |c.bodies| && 0 !in ids
    case CallDetach => c.isAttached
    case CallStepBefore => true
    case CallSimulate(moves) => c.isAttached && MayMove(c.View(), moves)
  }

  method Do(c: Composite, call: Call, spaces: CollideSpaces, ghost all: set<Shape>)
    requires InOrder(c, all) && Consistent(spaces, all) && Allowed(c, call)
    modifies Footprint(c), spaces`members, spaces`nextGeom
    ensures InOrder(c, all) && Consistent(spaces, all)
    ensures call.CallStepBefore? && c.isAttached ==> forall b :: b in c.bodies ==>
      AllIn(b.shapes, if b.enabled then spaces.dynamicSpace else spaces.staticSpace)
  {
    hide Consistent, Mul, Inverse, Place, LockInPlace.SetEnabled, LockInPlace.Simulate;
    BodiesPlaced(c);
    match call {
      case CallAttach(ids) =>
        c.Attach(ids, spaces, all);
        SpacesKnown(spaces, all);
      case CallDetach =>
        c.Detach(spaces, all);
      case CallStepBefore =>
        c.OnStepBefore(spaces, all);
        SpacesKnown(spaces, all);
      case CallSimulate(moves) =>
        c.Simulate(moves);
    }
  }

  ghost function AllFootprints(composites: seq<Composite>): set<object> {
    set c, o | c in composites && o in Footprint(c) :: o
  }

  /**
   * Any sequence of calls to several composites, those left out that the source would not let pass: in
   * every state it reaches, each shape's id names the one space its geom is in, and so on.
   */
  method Run(composites: seq<Composite>, calls: seq<(nat, Call)>, spaces: CollideSpaces, ghost all: set<Shape>)
    requires Apart(composites) && Consistent(spaces, all) && forall c :: c in composites ==> InOrder(c, all)
    modifies AllFootprints(composites), spaces`members, spaces`nextGeom
    ensures Consistent(spaces, all) && forall c :: c in composites ==> InOrder(c, all)
  {
    hide Consistent, InOrder, Allowed, Footprint;
    for k := 0 to |calls|
      invariant Consistent(spaces, all) && forall i :: 0 <= i < |composites| ==> InOrder(composites[i], all)
    {
      var (i, call) := calls[k];
      if i < |composites| && Allowed(composites[i], call) {
        DoOne(composites, i, call, spaces, all);
      }
    }
  }

  /** A call to one composite leaves the others in order. */
  method DoOne(composites: seq<Composite>, i: nat, call: Call, spaces: CollideSpaces, ghost all: set<Shape>)
    requires Apart(composites) && i < |composites| && Consistent(spaces, all) && Allowed(composites[i], call)
    requires forall j :: 0 <= j < |composites| ==> InOrder(composites[j], all)
    modifies Footprint(composites[i]), spaces`members, spaces`nextGeom
    ensures Consistent(spaces, all) && forall j :: 0 <= j < |composites| ==> InOrder(composites[j], all)
  {
    hide Consistent, InOrder, Allowed;
    Do(composites[i], call, spaces, all);
  }

  // ----- entities -----

  class PhysicsEntity {
    /** Null before SetComposite. */
    var composite: Composite?
    var locked: bool
    var lockedTransform: M4
    var transform: M4

    constructor ()
      ensures composite == null && !locked && transform == IDENTITY && lockedTransform == IDENTITY
    {
      composite, locked := null, false;
      transform, lockedTransform := IDENTITY, IDENTITY;
    }

    ghost function Bodies(): seq<RigidBody>
      reads this
    {
      if composite == null then [] else composite.bodies
    }

    ghost predicate Valid()
      reads this, composite, Bodies()
    {
      composite != null ==> composite.WellFormed() && composite.BodiesValid()
    }

    /** Bodies can be asked for their enabled state only once they are attached. */
    ghost predicate Live()
      reads this, composite
    {
      composite != null && composite.bodies != [] ==> composite.isAttached
    }

    function GetTransform(): M4
      reads this, composite
    {
      if composite != null then composite.transform else transform
    }

    method SetTransform(m: M4)
      requires Valid()
      modifies this`transform, composite, Bodies()
      ensures Valid() && transform == m && GetTransform() == m
      ensures composite != null && old(composite.isAttached) ==> composite.View() == Place(old(composite.View()), m)
      ensures composite != null ==> composite.isAttached == old(composite.isAttached)
    {
      hide Place;
      if composite != null {
        composite.SetTransform(m);
      }
      transform := m;
    }

    method SetEnabled(b: bool)
      requires Valid() && Live()
      modifies Bodies()`enabled
      ensures Valid()
      ensures composite != null ==> composite.View() == LockInPlace.SetEnabled(old(composite.View()), b)
      ensures forall body :: body in Bodies() ==> body.enabled == b
    {
      if composite != null {
        composite.SetEnabled(b);
      }
    }

    method IsEnabled() returns (b: bool)
      requires Valid() && Live()
      ensures b <==> composite != null && LockInPlace.IsEnabled(composite.View())
      ensures b <==> composite != null && (composite.bodies == [] || composite.bodies[0].enabled)
    {
      if composite != null {
        b := composite.IsEnabled();
      } else {
        b := false;
      }
    }

    /** The composite takes over the entity's transform, and is disabled if the entity is locked. */
    method SetComposite(c: Composite)
      requires c.WellFormed() && c.BodiesValid()
      requires locked && c.bodies != [] ==> c.isAttached
      modifies this`composite, c, c.bodies
      ensures Valid() && composite == c && GetTransform() == transform
      ensures c.isAttached == old(c.isAttached)
      ensures c.isAttached ==>
        c.View() == if locked then LockInPlace.SetEnabled(Place(old(c.View()), transform), false) else Place(old(c.View()), transform)
    {
      hide Place, LockInPlace.SetEnabled;
      composite := c;
      c.SetTransform(transform);
      if locked {
        c.SetEnabled(false);
      }
    }

    method Lock()
      requires Valid() && Live() && !locked
      modifies this`locked, this`lockedTransform, Bodies()`enabled
      ensures Valid() && locked && lockedTransform == old(GetTransform()) == GetTransform()
      ensures composite != null && Synced(old(composite.View())) ==> LockedAt(composite.View(), lockedTransform)
      ensures forall body :: body in Bodies() ==> !body.enabled
    {
      hide Synced, LockedAt, LockInPlace.SetEnabled;
      locked := true;
      lockedTransform := GetTransform();
      if composite != null {
        SetEnabled(false);
        if Synced(old(composite.View())) {
          LockEstablishes(old(composite.View()));
        }
      }
    }

    /** Reset, which clears velocities and forces, is not part of this model. */
    method Unlock()
      requires Valid() && locked
      modifies this`locked, this`transform, composite, Bodies()
      ensures Valid() && !locked && GetTransform() == lockedTransform
      ensures composite != null && old(composite.isAttached) ==> composite.View() == Place(old(composite.View()), lockedTransform)
    {
      hide Place;
      locked := false;
      SetTransform(lockedTransform);
    }

    method OnStepBefore(spaces: CollideSpaces, ghost all: set<Shape>)
      requires Valid()
      requires composite != null ==> Consistent(spaces, all) && composite.BodyShapes() <= all
      requires composite != null && composite.isAttached ==> forall b :: b in composite.bodies ==> Attached(b.shapes)
      modifies if composite == null then {} else composite.BodyShapes(), spaces`members
      ensures composite != null ==> Consistent(spaces, all)
      ensures composite != null && composite.isAttached ==> forall b :: b in composite.bodies ==>
        AllIn(b.shapes, if b.enabled then spaces.dynamicSpace else spaces.staticSpace)
    {
      if composite != null {
        composite.OnStepBefore(spaces, all);
      }
    }

    method OnStepAfter()
      requires Valid() && (locked ==> Live())
      modifies this`transform, composite, Bodies()
      ensures Valid()
      ensures composite != null && old(composite.isAttached) && !locked ==> composite.View() == Read(old(composite.View()))
      ensures composite != null && old(composite.isAttached) && locked ==>
        composite.View() == LockedStepAfter(old(composite.View()), lockedTransform)
    {
      hide Place, Read, LockInPlace.SetEnabled, LockInPlace.IsEnabled, Mul, Inverse, ToOde, FromOde;
      if composite != null {
        composite.OnStepAfter();
      }
      if locked {
        var enabled := IsEnabled();
        if enabled {
          SetTransform(lockedTransform);
          SetEnabled(false);
        }
      }
    }

    /** A whole step of a locked entity, with any simulator: it stays where it was locked. */
    method LockedStep(moves: seq<Move>)
      requires Valid() && locked && composite != null && composite.isAttached
      requires LockedAt(composite.View(), lockedTransform) && MayMove(composite.View(), moves)
      modifies this`transform, composite, Bodies()
      ensures Valid() && LockedAt(composite.View(), lockedTransform) && GetTransform() == lockedTransform
    {
      hide LockedAt, MayMove, LockedStepAfter, LockInPlace.Simulate;
      LockInPlace.LockedStep(composite.View(), lockedTransform, moves);
      composite.Simulate(moves);
      OnStepAfter();
      LockedTransform(composite.View(), lockedTransform);
    }
  }
}
