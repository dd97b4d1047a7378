/**
 * Merging meshes into one (code/addons/physics/physicsmesh.cc): between BeginAppendMesh and EndAppendMesh
 * every AppendMesh copies a mesh's vertices, transformed, and its indices, moved behind those already there.
 */
module PhysicsMeshes {
  import opened Matrices
  import opened Vectors

  /** Vertex positions and the indices that read them. */
  datatype Mesh = Mesh(points: seq<V3>, indices: seq<int>)

  predicate InRange(mesh: Mesh) {
    forall i :: 0 <= i < |mesh.indices| ==> 0 <= mesh.indices[i] < |mesh.points|
  }

  /** The points of the triangles, three by three: the indices followed into the vertices. */
  function Corners(mesh: Mesh): (corners: seq<V3>)
    requires InRange(mesh)
  {
    seq(|mesh.indices|, i requires 0 <= i < |mesh.indices| => mesh.points[mesh.indices[i]])
  }

  // ----- transformation -----

  /** A row vector with w = 0 times the matrix: a Math::vector has no w of its own, so translations drop out. */
  function Moved(p: V3, m: M4): V3 {
    V3(p.x * m.m11 + p.y * m.m21 + p.z * m.m31,
       p.x * m.m12 + p.y * m.m22 + p.z * m.m32,
       p.x * m.m13 + p.y * m.m23 + p.z * m.m33)
  }

  /** The same with w = 1, as for a Math::point. */
  function MovedPoint(p: V3, m: M4): V3 {
    var q := Moved(p, m);
    V3(q.x + m.m41, q.y + m.m42, q.z + m.m43)
  }

  /** A point's coordinates as a row, and back. */
  function AsRow(p: V3, w: real): V4 {
    V4(p.x, p.y, p.z, w)
  }

  function FromRow(q: V4): V3 {
    V3(q.x, q.y, q.z)
  }

  /** Both are the product of a row vector and the matrix, with w = 0 and w = 1. */
  lemma MovedIsProduct(p: V3, m: M4)
    ensures Moved(p, m) == FromRow(RowMul(AsRow(p, 0.0), m))
    ensures MovedPoint(p, m) == FromRow(RowMul(AsRow(p, 1.0), m))
  {
  }

  /** On affine matrices, moving by one and then by another is moving by their product. */
  lemma MovedTwice(p: V3, a: M4, b: M4)
    requires Affine(a) && Affine(b)
    ensures Moved(Moved(p, a), b) == Moved(p, Mul(a, b)) && MovedPoint(MovedPoint(p, a), b) == MovedPoint(p, Mul(a, b))
  {
    hide Moved, MovedPoint, RowMul, Mul;
    MovedIsProduct(p, a);
    MovedIsProduct(Moved(p, a), b);
    MovedIsProduct(MovedPoint(p, a), b);
    MovedIsProduct(p, Mul(a, b));
    AffineKeepsW(AsRow(p, 0.0), a);
    AffineKeepsW(AsRow(p, 1.0), a);
    RowMulAssoc(AsRow(p, 0.0), a, b);
    RowMulAssoc(AsRow(p, 1.0), a, b);
  }

  lemma AffineKeepsW(q: V4, a: M4)
    requires Affine(a)
    ensures RowMul(q, a).w == q.w
  {
    assert a.m14 == 0.0 && a.m24 == 0.0 && a.m34 == 0.0 && a.m44 == 1.0;
  }

  function AllMoved(points: seq<V3>, m: M4): seq<V3> {
    seq(|points|, i requires 0 <= i < |points| => Moved(points[i], m))
  }

  /** Meshes land where the matrix puts points exactly when it has no translation, or there is nothing to move. */
  lemma PlacedIff(points: seq<V3>, m: M4)
    ensures (forall i :: 0 <= i < |points| ==> AllMoved(points, m)[i] == MovedPoint(points[i], m))
       <==> points == [] || (m.m41 == 0.0 && m.m42 == 0.0 && m.m43 == 0.0)
  {
    hide Moved;
    if points != [] {
      assert AllMoved(points, m)[0] == Moved(points[0], m);
    }
  }

  // ----- merging -----

  datatype Part = Part(mesh: Mesh, transform: M4)

  function Rebased(indices: seq<int>, offset: int): seq<int> {
    seq(|indices|, i requires 0 <= i < |indices| => indices[i] + offset)
  }

  /** `offset` is the number of vertices the group had before anything was merged. */
  function Append(mesh: Mesh, part: Part, offset: nat): Mesh {
    Mesh(mesh.points + AllMoved(part.mesh.points, part.transform),
         mesh.indices + Rebased(part.mesh.indices, |mesh.points| + offset))
  }

  function Merge(parts: seq<Part>, offset: nat): Mesh {
    if parts == [] then Mesh([], []) else Append(Merge(parts[..|parts| - 1], offset), parts[|parts| - 1], offset)
  }

  predicate PartsInRange(parts: seq<Part>) {
    forall i :: 0 <= i < |parts| ==> InRange(parts[i].mesh)
  }

  /** The transformed corners of all parts, one part after the other. */
  function PartCorners(parts: seq<Part>): seq<V3>
    requires PartsInRange(parts)
  {
    if parts == [] then []
    else PartCorners(parts[..|parts| - 1]) + AllMoved(Corners(parts[|parts| - 1].mesh), parts[|parts| - 1].transform)
  }

  function TotalPoints(parts: seq<Part>): nat {
    if parts == [] then 0 else TotalPoints(parts[..|parts| - 1]) + |parts[|parts| - 1].mesh.points|
  }

  function TotalIndices(parts: seq<Part>): nat {
    if parts == [] then 0 else TotalIndices(parts[..|parts| - 1]) + |parts[|parts| - 1].mesh.indices|
  }

  /**
   * Merged from nothing, the mesh draws all triangles of its parts, transformed and in order; its sizes are
   * the sums of theirs.
   */
  lemma {:induction false} MergeDrawsAll(parts: seq<Part>)
    requires PartsInRange(parts)
    ensures InRange(Merge(parts, 0)) && Corners(Merge(parts, 0)) == PartCorners(parts)
  {
    hide Moved;
    if parts != [] {
      MergeDrawsAll(parts[..|parts| - 1]);
      AppendDrawsBoth(Merge(parts[..|parts| - 1], 0), parts[|parts| - 1]);
    }
  }

  lemma AppendDrawsBoth(mesh: Mesh, part: Part)
    requires InRange(mesh) && InRange(part.mesh)
    ensures InRange(Append(mesh, part, 0))
    ensures Corners(Append(mesh, part, 0)) == Corners(mesh) + AllMoved(Corners(part.mesh), part.transform)
  {
    hide Moved;
    var merged := Append(mesh, part, 0);
    forall i | 0 <= i < |merged.indices|
      ensures 0 <= merged.indices[i] < |merged.points|
      ensures merged.points[merged.indices[i]] == (Corners(mesh) + AllMoved(Corners(part.mesh), part.transform))[i]
    {
      if i >= |mesh.indices| {
        var j := i - |mesh.indices|;
        assert merged.indices[i] == part.mesh.indices[j] + |mesh.points|;
      }
    }
  }

  /** Corner `j` of part `i`, behind those of the parts before, is the vertex its index names times the part's matrix. */
  lemma {:induction false} MergedCorner(parts: seq<Part>, i: nat, j: nat)
    requires PartsInRange(parts) && i < |parts| && j < |parts[i].mesh.indices|
    ensures InRange(Merge(parts, 0)) && TotalIndices(parts[..i]) + j < |Corners(Merge(parts, 0))|
    ensures Corners(Merge(parts, 0))[TotalIndices(parts[..i]) + j]
         == FromRow(RowMul(AsRow(parts[i].mesh.points[parts[i].mesh.indices[j]], 0.0), parts[i].transform))
  {
    hide Moved, RowMul, Merge, Append;
    MergeDrawsAll(parts);
    var n := |parts| - 1;
    PartCornersSize(parts[..n]);
    if i < n {
      MergedCorner(parts[..n], i, j);
      MergeDrawsAll(parts[..n]);
      assert parts[..n][..i] == parts[..i];
    } else {
      MovedIsProduct(parts[n].mesh.points[parts[n].mesh.indices[j]], parts[n].transform);
    }
  }

  lemma {:induction false} PartCornersSize(parts: seq<Part>)
    requires PartsInRange(parts)
    ensures |PartCorners(parts)| == TotalIndices(parts)
  {
    if parts != [] {
      PartCornersSize(parts[..|parts| - 1]);
    }
  }

  /** With an offset, the same vertices, but every index is too large by it. */
  lemma {:induction false} MergeBehind(parts: seq<Part>, offset: nat)
    ensures Merge(parts, offset) == Mesh(Merge(parts, 0).points, Rebased(Merge(parts, 0).indices, offset))
    ensures |Merge(parts, offset).points| == TotalPoints(parts) && |Merge(parts, offset).indices| == TotalIndices(parts)
  {
    hide Moved;
    if parts != [] {
      MergeBehind(parts[..|parts| - 1], offset);
    }
  }

  /** So vertices and indices are the right ones exactly when the group had no vertices, or no index was merged. */
  lemma MergeRightIff(parts: seq<Part>, offset: nat)
    ensures Merge(parts, offset) == Merge(parts, 0) <==> offset == 0 || TotalIndices(parts) == 0
  {
    hide Merge;
    MergeBehind(parts, 0);
    MergeBehind(parts, offset);
    if offset > 0 && TotalIndices(parts) > 0 {
      assert Rebased(Merge(parts, 0).indices, offset)[0] == Merge(parts, 0).indices[0] + offset;
    }
  }

  /** A group left over with one vertex: the index of a mesh with one vertex then names none. */
  lemma LeftoverGroupBreaksMerge(p: V3, m: M4)
    ensures var parts := [Part(Mesh([p], [0]), m)];
      PartsInRange(parts) && Merge(parts, 1) == Mesh([Moved(p, m)], [1]) && !InRange(Merge(parts, 1))
  {
    hide Moved;
    var parts := [Part(Mesh([p], [0]), m)];
    assert parts[..0] == [] && AllMoved([p], m) == [Moved(p, m)];
    assert Merge(parts, 1).indices[0] == 1;
  }

  // ----- bounding boxes -----

  /** What begin_extend starts from. */
  const FAR := 1000000.0

  datatype Box = Box(pmin: V3, pmax: V3)

  function Min(a: real, b: real): real { if a <= b then a else b }

  function Max(a: real, b: real): real { if a >= b then a else b }

  /** bbox::extend */
  function Extend(b: Box, p: V3): Box {
    Box(V3(Min(b.pmin.x, p.x), Min(b.pmin.y, p.y), Min(b.pmin.z, p.z)),
        V3(Max(b.pmax.x, p.x), Max(b.pmax.y, p.y), Max(b.pmax.z, p.z)))
  }

  function BoxOf(points: seq<V3>): Box {
    if points == [] then Box(V3(FAR, FAR, FAR), V3(-FAR, -FAR, -FAR))
    else Extend(BoxOf(points[..|points| - 1]), points[|points| - 1])
  }

  lemma BoxOfNone()
    ensures BoxOf([]) == Box(V3(FAR, FAR, FAR), V3(-FAR, -FAR, -FAR))
  {
  }

  lemma BoxOfMore(points: seq<V3>, p: V3)
    ensures BoxOf(points + [p]) == Extend(BoxOf(points), p)
  {
    hide Extend;
    assert (points + [p])[..|points|] == points;
  }

  datatype Axis = X | Y | Z

  function Along(p: V3, axis: Axis): real {
    match axis case X => p.x case Y => p.y case Z => p.z
  }

  predicate Encloses(b: Box, points: seq<V3>, axis: Axis) {
    forall i :: 0 <= i < |points| ==> Along(b.pmin, axis) <= Along(points[i], axis) <= Along(b.pmax, axis)
  }

  /** Both sides of the box across an axis touch a point. */
  predicate Touches(b: Box, points: seq<V3>, axis: Axis) {
    && (exists i :: 0 <= i < |points| && Along(points[i], axis) == Along(b.pmin, axis))
    && (exists i :: 0 <= i < |points| && Along(points[i], axis) == Along(b.pmax, axis))
  }

  /** No smaller box holds all the points. */
  ghost predicate Tightest(b: Box, points: seq<V3>) {
    forall axis: Axis :: Encloses(b, points, axis) && Touches(b, points, axis)
  }

  /** From either side some point is within what extending starts from. */
  predicate Near(points: seq<V3>, axis: Axis) {
    && (exists i :: 0 <= i < |points| && Along(points[i], axis) <= 1000000.0)
    && (exists i :: 0 <= i < |points| && Along(points[i], axis) >= -1000000.0)
  }

  lemma {:induction false} BoxBounds(points: seq<V3>, axis: Axis)
    ensures var b := BoxOf(points);
      && Along(b.pmin, axis) <= FAR && Along(b.pmax, axis) >= -FAR
      && Encloses(b, points, axis)
      && (Along(b.pmin, axis) == FAR || exists i :: 0 <= i < |points| && Along(points[i], axis) == Along(b.pmin, axis))
      && (Along(b.pmax, axis) == -FAR || exists i :: 0 <= i < |points| && Along(points[i], axis) == Along(b.pmax, axis))
  {
    if points != [] {
      var prior := points[..|points| - 1];
      BoxBounds(prior, axis);
      assert forall i :: 0 <= i < |prior| ==> prior[i] == points[i];
      ExtendAlong(BoxOf(prior), points[|points| - 1], axis);
    }
  }

  lemma ExtendAlong(b: Box, p: V3, axis: Axis)
    ensures Along(Extend(b, p).pmin, axis) == Min(Along(b.pmin, axis), Along(p, axis))
    ensures Along(Extend(b, p).pmax, axis) == Max(Along(b.pmax, axis), Along(p, axis))
  {
  }

  /** The box encloses all points, and is the tightest one exactly when on every axis some point is near. */
  lemma TightestIff(points: seq<V3>)
    ensures forall axis: Axis :: Encloses(BoxOf(points), points, axis)
    ensures Tightest(BoxOf(points), points) <==> forall axis: Axis :: Near(points, axis)
  {
    hide BoxOf, Along, Encloses, Touches, Near;
    forall axis: Axis
      ensures Encloses(BoxOf(points), points, axis)
      ensures Touches(BoxOf(points), points, axis) <==> Near(points, axis)
    {
      TouchesIffNear(points, axis);
    }
  }

  lemma TouchesIffNear(points: seq<V3>, axis: Axis)
    ensures Encloses(BoxOf(points), points, axis)
    ensures Touches(BoxOf(points), points, axis) <==> Near(points, axis)
  {
    hide BoxOf, Along;
    BoxBounds(points, axis);
  }

  // ----- the mesh object -----

  /** Floats per vertex: the layout has the position only, three floats of four bytes. */
  const WIDTH := 3
  const BYTES_PER_FLOAT := 4

  function PointAt(floats: seq<real>, k: nat): V3
    requires k * WIDTH + 2 < |floats|
  {
    V3(floats[k * WIDTH], floats[k * WIDTH + 1], floats[k * WIDTH + 2])
  }

  function Points(floats: seq<real>, n: nat): (points: seq<V3>)
    requires n * WIDTH <= |floats|
    ensures |points| == n && forall k :: 0 <= k < n ==> points[k] == PointAt(floats, k)
  {
    seq(n, k requires 0 <= k < n => PointAt(floats, k))
  }

  /** From `start` on the floats are those of the source's vertices times the matrix, each vertex a row with w = 0. */
  predicate MovedFloats(floats: seq<real>, start: nat, source: seq<real>, m: M4) {
    && |source| % 3 == 0 && start + |source| <= |floats|
    && forall v :: 0 <= v < |source| && v % 3 == 0 ==>
         var q := RowMul(V4(source[v], source[v + 1], source[v + 2], 0.0), m);
         floats[start + v] == q.x && floats[start + v + 1] == q.y && floats[start + v + 2] == q.z
  }

  lemma FloatsOfMoved(before: seq<real>, after: seq<real>, start: nat, source: seq<real>, m: M4)
    requires |source| % WIDTH == 0 && start * WIDTH <= |before| && start * WIDTH + |source| <= |after|
    requires var n := |source| / WIDTH; Points(after, start + n) == Points(before, start) + AllMoved(Points(source, n), m)
    ensures MovedFloats(after, start * 3, source, m)
  {
    hide Moved, RowMul;
    var n := |source| / WIDTH;
    forall v | 0 <= v < |source| && v % 3 == 0
      ensures var q := RowMul(V4(source[v], source[v + 1], source[v + 2], 0.0), m);
        after[start * 3 + v] == q.x && after[start * 3 + v + 1] == q.y && after[start * 3 + v + 2] == q.z
    {
      var k := v / 3;
      MovedIsProduct(PointAt(source, k), m);
      assert Points(after, start + n)[start + k] == AllMoved(Points(source, n), m)[k];
    }
  }

  datatype Group = Group(baseIndex: nat, numVertices: nat, numIndices: nat, box: Box)

  /** What BeginAppendMesh adds to the groups. */
  const NEW_GROUP := Group(0, 0, 0, Box(V3(0.0, 0.0, 0.0), V3(0.0, 0.0, 0.0)))

  /** Groups that differ in their boxes only. */
  predicate SameButBoxes(gs: seq<Group>, hs: seq<Group>) {
    |gs| == |hs| && forall j :: 0 <= j < |gs| ==> gs[j] == hs[j].(box := gs[j].box)
  }

  /** What the box update reads is inside the buffers, with `n` vertices. */
  predicate AllReadable(n: nat, indices: seq<int>, gs: seq<Group>) {
    forall j :: 0 <= j < |gs| ==> Readable(n, indices, gs[j])
  }

  /** Some more vertices and indices for the first group, which is the one every mesh is appended to. */
  function Grown(gs: seq<Group>, vertices: nat, indices: nat): seq<Group>
    requires gs != []
  {
    gs[0 := gs[0].(numVertices := gs[0].numVertices + vertices, numIndices := gs[0].numIndices + indices)]
  }

  /** The same for one group: the indices from its base on, and the vertices they name. */
  predicate Readable(n: nat, indices: seq<int>, g: Group) {
    && WithinWritten(g, |indices|)
    && forall i :: g.baseIndex <= i < g.baseIndex + g.numIndices ==> 0 <= indices[i] < n
  }

  /** The group has no indices, or they are among the first `written` ones. */
  predicate WithinWritten(g: Group, written: nat) {
    g.numIndices == 0 || g.baseIndex + g.numIndices <= written
  }

  function GroupCorners(floats: seq<real>, indices: seq<int>, g: Group): seq<V3>
    requires Readable(|floats| / WIDTH, indices, g)
  {
    seq(g.numIndices, i requires 0 <= i < g.numIndices => PointAt(floats, indices[g.baseIndex + i]))
  }

  /** A group that starts at the beginning and has all indices reads the corners of the mesh. */
  lemma GroupIsAll(floats: seq<real>, indices: seq<int>, g: Group, mesh: Mesh)
    requires |mesh.points| * WIDTH <= |floats| && |mesh.indices| <= |indices|
    requires mesh == Mesh(Points(floats, |mesh.points|), indices[..|mesh.indices|]) && InRange(mesh)
    requires g.baseIndex == 0 && g.numIndices == |mesh.indices|
    ensures Readable(|floats| / WIDTH, indices, g) && GroupCorners(floats, indices, g) == Corners(mesh)
  {
    assert forall i :: 0 <= i < g.numIndices ==> indices[i] == mesh.indices[i];
  }

  /** The box of a group encloses every vertex that an index of the group names. */
  lemma GroupBoxHolds(floats: seq<real>, indices: seq<int>, g: Group, i: nat)
    requires Readable(|floats| / WIDTH, indices, g) && g.baseIndex <= i < g.baseIndex + g.numIndices
    ensures 0 <= indices[i] && 3 * indices[i] + 2 < |floats|
    ensures var (b, v) := (BoxOf(GroupCorners(floats, indices, g)), 3 * indices[i]);
      && b.pmin.x <= floats[v] <= b.pmax.x
      && b.pmin.y <= floats[v + 1] <= b.pmax.y
      && b.pmin.z <= floats[v + 2] <= b.pmax.z
  {
    hide BoxOf, Encloses, Touches, Near;
    var corners := GroupCorners(floats, indices, g);
    assert corners[i - g.baseIndex] == PointAt(floats, indices[i]);
    TightestIff(corners);
    Enclosed(BoxOf(corners), corners, i - g.baseIndex);
  }

  lemma Enclosed(b: Box, points: seq<V3>, i: nat)
    requires i < |points| && forall axis: Axis :: Encloses(b, points, axis)
    ensures b.pmin.x <= points[i].x <= b.pmax.x && b.pmin.y <= points[i].y <= b.pmax.y && b.pmin.z <= points[i].z <= b.pmax.z
  {
    assert Encloses(b, points, X) && Encloses(b, points, Y) && Encloses(b, points, Z);
  }

  // ----- when the box update stays inside the buffers -----

  /** The update after some parts were merged, with `rest` for what has not been written of the index buffer. */
  predicate UpdateReads(begun: seq<Group>, parts: seq<Part>, n: nat, rest: seq<int>)
    requires begun != []
  {
    AllReadable(n, Merge(parts, begun[0].numVertices).indices + rest, Grown(begun, TotalPoints(parts), TotalIndices(parts)))
  }

  /**
   * The first group began without indices, and at the beginning of the buffer if there is anything to read;
   * the others have none either, or only such as were written; and every index names a vertex.
   */
  predicate StaysInside(begun: seq<Group>, parts: seq<Part>, n: nat)
    requires begun != []
  {
    && begun[0].numIndices == 0 && (TotalIndices(parts) > 0 ==> begun[0].baseIndex == 0)
    && (forall j :: 1 <= j < |begun| ==> WithinWritten(begun[j], TotalIndices(parts)))
    && forall i :: 0 <= i < |Merge(parts, 0).indices| ==> 0 <= Merge(parts, 0).indices[i] + begun[0].numVertices < n
  }

  /**
   * For all groups a mesh may begin with: the update stays inside the buffers, whatever lies in the part of
   * the index buffer not yet written, if and only if that holds. `room` is the size of that part.
   */
  lemma UpdateStaysInsideIff(begun: seq<Group>, parts: seq<Part>, n: nat, room: nat)
    requires begun != []
    ensures (forall rest: seq<int> :: |rest| == room ==> UpdateReads(begun, parts, n, rest)) <==> StaysInside(begun, parts, n)
  {
    hide Merge;
    MergeBehind(parts, 0);
    MergeBehind(parts, begun[0].numVertices);
    if StaysInside(begun, parts, n) {
      forall rest: seq<int> | |rest| == room ensures UpdateReads(begun, parts, n, rest) {
        InsideIsRead(begun, parts, n, rest);
      }
    }
    var garbage: seq<int> := seq(room, _ => -1);
    assert |garbage| == room;
    if UpdateReads(begun, parts, n, garbage) {
      ReadIsInside(begun, parts, n, garbage);
    }
  }

  lemma InsideIsRead(begun: seq<Group>, parts: seq<Part>, n: nat, rest: seq<int>)
    requires begun != [] && StaysInside(begun, parts, n)
    ensures UpdateReads(begun, parts, n, rest)
  {
    hide Merge;
    MergeBehind(parts, 0);
    MergeBehind(parts, begun[0].numVertices);
    var ints := Merge(parts, begun[0].numVertices).indices;
    assert forall i :: 0 <= i < |ints| ==> (ints + rest)[i] == Merge(parts, 0).indices[i] + begun[0].numVertices;
  }

  lemma ReadsWritten(n: nat, ints: seq<int>, garbage: seq<int>, g: Group)
    requires Readable(n, ints + garbage, g) && forall i :: 0 <= i < |garbage| ==> garbage[i] < 0
    ensures WithinWritten(g, |ints|)
  {
    assert forall i :: |ints| <= i < |ints + garbage| ==> (ints + garbage)[i] == garbage[i - |ints|];
    var last := g.baseIndex + g.numIndices - 1;
    assert g.numIndices > 0 ==> 0 <= (ints + garbage)[last];
  }

  /** An update that reads nothing negative, nor vertices that are not there, reads written indices only. */
  lemma ReadIsInside(begun: seq<Group>, parts: seq<Part>, n: nat, garbage: seq<int>)
    requires begun != [] && UpdateReads(begun, parts, n, garbage) && forall i :: 0 <= i < |garbage| ==> garbage[i] < 0
    ensures StaysInside(begun, parts, n)
  {
    hide Merge;
    MergeBehind(parts, 0);
    MergeBehind(parts, begun[0].numVertices);
    var ints := Merge(parts, begun[0].numVertices).indices;
    var gs := Grown(begun, TotalPoints(parts), TotalIndices(parts));
    forall j | 0 <= j < |gs| ensures WithinWritten(gs[j], |ints|) {
      assert Readable(n, ints + garbage, gs[j]);
      ReadsWritten(n, ints, garbage, gs[j]);
    }
    assert WithinWritten(gs[0], |ints|) && Readable(n, ints + garbage, gs[0]);
    forall i | 0 <= i < |ints| ensures 0 <= Merge(parts, 0).indices[i] + begun[0].numVertices < n {
      assert (ints + garbage)[i] == ints[i];
    }
    forall j | 1 <= j < |begun| ensures WithinWritten(begun[j], TotalIndices(parts)) {
      assert gs[j] == begun[j];
    }
  }

  /** The groups with which merging the parts comes out right, all the way. */
  predicate FitFor(begun: seq<Group>, parts: seq<Part>)
    requires begun != [] && parts != []
  {
    && begun[0].numIndices == 0
    && (TotalIndices(parts) > 0 ==> begun[0].baseIndex == begun[0].numVertices == 0)
    && forall j :: 1 <= j < |begun| ==> WithinWritten(begun[j], |parts[0].mesh.indices|)
  }

  /**
   * Every box update of a merge stays inside the buffers and the merged mesh is the right one if and only
   * if the first group began with nothing (without indices, if none is merged), and every other one left over
   * either has no indices or is covered by those of the first mesh appended.
   */
  lemma WholeMergeRightIff(begun: seq<Group>, parts: seq<Part>, n: nat)
    requires begun != [] && parts != [] && PartsInRange(parts) && n >= TotalPoints(parts)
    ensures (forall k :: 1 <= k <= |parts| ==> StaysInside(begun, parts[..k], n))
            && Merge(parts, begun[0].numVertices) == Merge(parts, 0)
       <==> FitFor(begun, parts)
  {
    hide Merge, StaysInside;
    MergeRightIff(parts, begun[0].numVertices);
    assert parts[..|parts|] == parts;
    FirstPart(parts);
    if FitFor(begun, parts) {
      forall k | 1 <= k <= |parts| ensures StaysInside(begun, parts[..k], n) {
        FitStaysInside(begun, parts, n, k);
      }
    }
    if StaysInside(begun, parts[..1], n) && StaysInside(begun, parts, n) {
      InsideTells(begun, parts[..1], n);
      InsideTells(begun, parts, n);
    }
  }

  /** A mesh used for one triangle before, merged with one triangle: no index names a vertex, and the update leaves the buffers. */
  lemma UsedTriangle(p: V3, q: V3, r: V3, m: M4, box: Box)
    ensures var begun, parts := [Group(0, 3, 3, box), NEW_GROUP], [Part(Mesh([p, q, r], [0, 1, 2]), m)];
      && !FitFor(begun, parts) && !StaysInside(begun, parts, 3)
      && Merge(parts, begun[0].numVertices).indices == [3, 4, 5]
  {
    hide Moved;
    var parts := [Part(Mesh([p, q, r], [0, 1, 2]), m)];
    assert parts[..0] == [];
    assert Merge(parts, 3) == Append(Mesh([], []), parts[0], 3);
  }

  lemma InsideTells(begun: seq<Group>, parts: seq<Part>, n: nat)
    requires begun != [] && StaysInside(begun, parts, n)
    ensures begun[0].numIndices == 0 && (TotalIndices(parts) > 0 ==> begun[0].baseIndex == 0)
    ensures forall j :: 1 <= j < |begun| ==> WithinWritten(begun[j], TotalIndices(parts))
  {
  }

  lemma FirstPart(parts: seq<Part>)
    requires parts != []
    ensures TotalIndices(parts[..1]) == |parts[0].mesh.indices|
  {
    assert parts[..1][..0] == [];
  }

  lemma FitStaysInside(begun: seq<Group>, parts: seq<Part>, n: nat, k: nat)
    requires begun != [] && 1 <= k <= |parts| && PartsInRange(parts) && n >= TotalPoints(parts)
    requires FitFor(begun, parts)
    ensures StaysInside(begun, parts[..k], n)
  {
    hide Merge, InRange;
    FirstPart(parts);
    TotalsGrow(parts, 1, k);
    TotalsGrow(parts, k, |parts|);
    assert parts[..|parts|] == parts;
    MergeDrawsAll(parts[..k]);
    MergeBehind(parts[..k], 0);
    RangeTells(Merge(parts[..k], 0));
  }

  lemma RangeTells(mesh: Mesh)
    ensures InRange(mesh) <==> forall i :: 0 <= i < |mesh.indices| ==> 0 <= mesh.indices[i] < |mesh.points|
  {
  }

  lemma {:induction false} TotalsGrow(parts: seq<Part>, k: nat, m: nat)
    requires k <= m <= |parts|
    ensures TotalPoints(parts[..k]) <= TotalPoints(parts[..m]) && TotalIndices(parts[..k]) <= TotalIndices(parts[..m])
    decreases m
  {
    if k < m {
      TotalsGrow(parts, k, m - 1);
      assert parts[..m][..m - 1] == parts[..m - 1];
    }
  }

  lemma MergeGrows(parts: seq<Part>, part: Part, offset: nat)
    ensures Merge(parts + [part], offset) == Append(Merge(parts, offset), part, offset)
    ensures TotalPoints(parts + [part]) == TotalPoints(parts) + |part.mesh.points|
    ensures TotalIndices(parts + [part]) == TotalIndices(parts) + |part.mesh.indices|
    ensures PartsInRange(parts) && InRange(part.mesh) ==> PartsInRange(parts + [part])
  {
    assert (parts + [part])[..|parts|] == parts;
  }

  class PhysicsMesh {
    var vertices: array<real>
    var indices: array<int>
    var isLoaded: bool
    var inAppend: bool
    var vertexIndex: nat
    var indicesIndex: nat
    var groups: seq<Group>
    /** What has been appended since BeginAppendMesh, and the groups there were then, with the new one. */
    ghost var parts: seq<Part>
    ghost var begun: seq<Group>
    /** No box update since then has left the buffers. */
    ghost var safe: bool

    constructor ()
      ensures !isLoaded && !inAppend && groups == []
    {
      vertices, indices := new real[0], new int[0];
      isLoaded, inAppend := false, false;
      vertexIndex, indicesIndex := 0, 0;
      groups, parts, begun, safe := [], [], [], true;
    }

    /** What the whole buffers hold. */
    ghost function Content(): Mesh
      reads `vertices, `indices, vertices, indices
    {
      Mesh(Points(vertices[..], vertices.Length / WIDTH), indices[..])
    }

    /** What the buffers hold up to the cursors. */
    ghost function Written(): Mesh
      requires vertexIndex * WIDTH <= vertices.Length && indicesIndex <= indices.Length
      reads `vertices, `indices, `vertexIndex, `indicesIndex, vertices, indices
    {
      Mesh(Points(vertices[..], vertexIndex), indices[..indicesIndex])
    }

    /**
     * Between BeginAppendMesh and EndAppendMesh: the buffers hold the merge behind whatever vertices the
     * first group began with, and the cursors are its sizes.
     */
    ghost predicate Appending()
      reads this, vertices, indices
    {
      && inAppend && !isLoaded
      && vertices.Length % WIDTH == 0
      && begun != [] && SameButBoxes(groups, Grown(begun, vertexIndex, indicesIndex))
      && HoldsMerge()
      && (safe && parts != [] && FromNothing() && InRange(Written()) ==> groups[0].box == BoxOf(Corners(Written())))
    }

    ghost predicate HoldsMerge()
      reads `begun, `parts, `vertices, `indices, `vertexIndex, `indicesIndex, vertices, indices
    {
      && vertexIndex * WIDTH <= vertices.Length && indicesIndex <= indices.Length
      && vertexIndex == TotalPoints(parts) && indicesIndex == TotalIndices(parts)
      && begun != [] && Written() == Merge(parts, begun[0].numVertices)
    }

    ghost predicate FromNothing()
      reads `begun
    {
      begun != [] && begun[0].baseIndex == begun[0].numVertices == begun[0].numIndices == 0
    }

    /** Neither Unload nor this removes groups, so the first one may be left over from an earlier use. */
    method BeginAppendMesh(numVertices: nat, numIndices: nat)
      requires !isLoaded && !inAppend
      modifies this
      ensures Appending() && parts == [] && begun == old(groups) + [NEW_GROUP] && safe
      ensures fresh(vertices) && fresh(indices)
      ensures vertices.Length == 3 * numVertices && indices.Length == numIndices
      ensures NEW_GROUP.baseIndex == NEW_GROUP.numVertices == NEW_GROUP.numIndices == 0
    {
      hide InRange, Corners, BoxOf, Append;
      SetUpBuffers(numVertices, numIndices);
      inAppend := true;
      vertexIndex, indicesIndex := 0, 0;
      groups := groups + [NEW_GROUP];
      parts, begun, safe := [], groups, true;
      assert Written() == Mesh([], []);
    }

    /** What the two buffer loaders do. */
    method SetUpBuffers(numVertices: nat, numIndices: nat)
      modifies this`vertices, this`indices
      ensures fresh(vertices) && fresh(indices)
      ensures vertices.Length == numVertices * WIDTH && vertices.Length % WIDTH == 0 && indices.Length == numIndices
    {
      vertices, indices := new real[numVertices * WIDTH], new int[numIndices];
    }

    /** What the index buffer is going to hold. */
    ghost function IndicesWith(mesh: PhysicsMesh): seq<int>
      requires groups != [] && indicesIndex + mesh.indices.Length <= indices.Length
      reads this, indices, mesh, mesh.indices
    {
      indices[..indicesIndex] + Rebased(mesh.indices[..], groups[0].numVertices) + indices[indicesIndex + mesh.indices.Length..]
    }

    /**
     * The caller of BeginAppendMesh has made room for all meshes; the pointer getters accept an open append.
     * `inside` tells whether the box update stays inside the buffers; where it does not, the source reads on.
     */
    method AppendMesh(mesh: PhysicsMesh, transform: M4) returns (inside: bool)
      requires Appending() && mesh.isLoaded
      requires vertices != mesh.vertices && indices != mesh.indices
      requires mesh.vertices.Length % WIDTH == 0
      requires vertexIndex * WIDTH + mesh.vertices.Length <= vertices.Length
      requires indicesIndex + mesh.indices.Length <= indices.Length
      modifies this, vertices, indices
      ensures Appending() && vertices == old(vertices) && indices == old(indices) && begun == old(begun)
      ensures parts == old(parts) + [Part(mesh.Content(), transform)] && safe == (old(safe) && inside)
      ensures inside <==> UpdateReads(begun, parts, vertices.Length / WIDTH, indices[indicesIndex..])
      ensures StaysInside(begun, parts, vertices.Length / WIDTH) ==> inside
      ensures indicesIndex == indices.Length ==> (inside <==> StaysInside(begun, parts, vertices.Length / WIDTH))
    {
      hide Moved, BoxOf, Corners, InRange, Points, AllReadable, UpdateReads, StaysInside, HoldsMerge, SameButBoxes;
      AppendPart(mesh, transform);
      ghost var copied := groups;
      inside := UpdateGroupBoundingBoxes();
      SameAgain(groups, copied, Grown(begun, vertexIndex, indicesIndex));
      UpdateIsDecided(begun, parts, vertices.Length / WIDTH, indices[indicesIndex..]);
      safe := safe && inside;
    }

    /** What the update is going to read, and that it comes to all corners where the first group began with nothing. */
    method AppendPart(mesh: PhysicsMesh, transform: M4)
      requires Appending()
      requires vertices != mesh.vertices && indices != mesh.indices && mesh.vertices.Length % WIDTH == 0
      requires vertexIndex * WIDTH + mesh.vertices.Length <= vertices.Length
      requires indicesIndex + mesh.indices.Length <= indices.Length
      modifies this`vertexIndex, this`indicesIndex, this`groups, this`parts, vertices, indices
      ensures HoldsMerge() && vertexIndex * WIDTH <= vertices.Length && indicesIndex <= indices.Length
      ensures parts == old(parts) + [Part(old(mesh.Content()), transform)]
      ensures SameButBoxes(groups, Grown(begun, vertexIndex, indicesIndex)) && groups != []
      ensures var n := vertices.Length / WIDTH;
        AllReadable(n, indices[..], groups) <==> UpdateReads(begun, parts, n, indices[indicesIndex..])
      ensures FromNothing() && InRange(Written()) ==>
        && Readable(vertices.Length / WIDTH, indices[..], groups[0])
        && GroupCorners(vertices[..], indices[..], groups[0]) == Corners(Written())
    {
      hide Moved, BoxOf, Corners, InRange, TotalPoints, TotalIndices, Points, Append, Merge, AllReadable, Rebased;
      ghost var part := Part(mesh.Content(), transform);
      CopyMesh(mesh, transform);
      MergeGrows(parts, part, begun[0].numVertices);
      parts := parts + [part];
      BoxlessReads(groups, Grown(begun, vertexIndex, indicesIndex), vertices.Length / WIDTH, indices[..]);
      assert indices[..] == Written().indices + indices[indicesIndex..];
      if FromNothing() && InRange(Written()) {
        GroupIsAll(vertices[..], indices[..], groups[0], Written());
      }
    }

    /** Everything but the boxes, for any groups. */
    method CopyMesh(mesh: PhysicsMesh, transform: M4)
      requires vertices != mesh.vertices && indices != mesh.indices && mesh.vertices.Length % WIDTH == 0
      requires vertexIndex * WIDTH + mesh.vertices.Length <= vertices.Length
      requires indicesIndex + mesh.indices.Length <= indices.Length
      requires groups != [] && groups[0].numVertices >= vertexIndex
      modifies this`vertexIndex, this`indicesIndex, this`groups, vertices, indices
      ensures vertexIndex == old(vertexIndex) + mesh.vertices.Length / WIDTH
      ensures indicesIndex == old(indicesIndex) + mesh.indices.Length
      ensures Written() == Append(old(Written()), Part(mesh.Content(), transform), old(groups[0].numVertices - vertexIndex))
      ensures indices[..] == old(IndicesWith(mesh))
      ensures groups == Grown(old(groups), mesh.vertices.Length / WIDTH, mesh.indices.Length)
      ensures groups[1..] == old(groups)[1..] && groups[0].baseIndex == old(groups)[0].baseIndex
      ensures groups[0].numVertices == old(groups)[0].numVertices + mesh.vertices.Length / 3
      ensures groups[0].numIndices == old(groups)[0].numIndices + mesh.indices.Length
    {
      hide Moved;
      CopyVertices(mesh, transform);
      CopyIndices(mesh);
      vertexIndex := vertexIndex + mesh.vertices.Length / WIDTH;
      indicesIndex := indicesIndex + mesh.indices.Length;
      groups := groups[0 := groups[0].(
        numIndices := groups[0].numIndices + mesh.indices.Length,
        numVertices := groups[0].numVertices + mesh.vertices.Length / WIDTH)];
    }

    method CopyVertices(mesh: PhysicsMesh, transform: M4)
      requires vertices != mesh.vertices
      requires mesh.vertices.Length % WIDTH == 0 && vertexIndex * WIDTH + mesh.vertices.Length <= vertices.Length
      modifies vertices
      ensures var n := mesh.vertices.Length / WIDTH;
        Points(vertices[..], vertexIndex + n)
        == Points(old(vertices[..]), vertexIndex) + AllMoved(Points(mesh.vertices[..], n), transform)
      ensures MovedFloats(vertices[..], vertexIndex * 3, mesh.vertices[..], transform)
    {
      hide Moved, MovedFloats;
      var start := vertexIndex * WIDTH;
      var v := 0;
      while v < mesh.vertices.Length
        invariant 0 <= v <= mesh.vertices.Length && v % WIDTH == 0
        invariant forall k :: 0 <= k < start ==> vertices[k] == old(vertices[k])
        invariant forall k :: 0 <= k < v / WIDTH ==>
          PointAt(vertices[..], vertexIndex + k) == Moved(PointAt(mesh.vertices[..], k), transform)
      {
        var position := Moved(V3(mesh.vertices[v], mesh.vertices[v + 1], mesh.vertices[v + 2]), transform);
        vertices[start + v] := position.x;
        vertices[start + v + 1] := position.y;
        vertices[start + v + 2] := position.z;
        v := v + WIDTH;
      }
      FloatsOfMoved(old(vertices[..]), vertices[..], vertexIndex, mesh.vertices[..], transform);
    }

    /** The offset is the number of vertices the first group had before. */
    method CopyIndices(mesh: PhysicsMesh)
      requires groups != [] && indices != mesh.indices && indicesIndex + mesh.indices.Length <= indices.Length
      modifies indices
      ensures indices[..] == old(IndicesWith(mesh))
      ensures forall k :: 0 <= k < mesh.indices.Length ==> indices[indicesIndex + k] == mesh.indices[k] + groups[0].numVertices
    {
      var vertexOffset := groups[0].numVertices;
      for i := 0 to mesh.indices.Length
        invariant forall k :: 0 <= k < indicesIndex ==> indices[k] == old(indices[k])
        invariant forall k :: 0 <= k < i ==> indices[indicesIndex + k] == mesh.indices[k] + vertexOffset
        invariant forall k :: indicesIndex + mesh.indices.Length <= k < indices.Length ==> indices[k] == old(indices[k])
      {
        indices[indicesIndex + i] := mesh.indices[i] + vertexOffset;
      }
    }

    /**
     * Every group's box is put around the vertices its indices name. False, with the rest undone, before a
     * read outside the buffers, which the source does not notice.
     */
    method UpdateGroupBoundingBoxes() returns (inside: bool)
      modifies this`groups
      ensures inside <==> AllReadable(vertices.Length / WIDTH, indices[..], old(groups))
      ensures SameButBoxes(groups, old(groups))
      ensures inside ==> forall j :: 0 <= j < |groups| ==>
        groups[j].box == BoxOf(GroupCorners(vertices[..], indices[..], old(groups[j])))
    {
      hide BoxOf, GroupCorners, Readable;
      ghost var (floats, ints) := (vertices[..], indices[..]);
      for groupIndex := 0 to |groups|
        invariant SameButBoxes(groups, old(groups))
        invariant forall j :: 0 <= j < groupIndex ==>
          && Readable(vertices.Length / WIDTH, ints, old(groups[j]))
          && groups[j].box == BoxOf(GroupCorners(floats, ints, old(groups[j])))
        invariant forall j :: groupIndex <= j < |groups| ==> groups[j] == old(groups[j])
      {
        var isInside, groupBox := GroupBox(groups[groupIndex]);
        if !isInside {
          return false;
        }
        groups := groups[groupIndex := groups[groupIndex].(box := groupBox)];
      }
      inside := true;
    }

    method GroupBox(group: Group) returns (inside: bool, groupBox: Box)
      ensures inside <==> Readable(vertices.Length / WIDTH, indices[..], group)
      ensures inside ==> groupBox == BoxOf(GroupCorners(vertices[..], indices[..], group))
    {
      hide Extend, BoxOf, PointAt;
      groupBox := Box(V3(FAR, FAR, FAR), V3(-FAR, -FAR, -FAR));
      ghost var corners := [];
      BoxOfNone();
      for i := 0 to group.numIndices
        invariant i > 0 ==> group.baseIndex + i <= indices.Length
        invariant |corners| == i && groupBox == BoxOf(corners)
        invariant forall k :: group.baseIndex <= k < group.baseIndex + i ==> 0 <= indices[k] < vertices.Length / WIDTH
        invariant forall k :: 0 <= k < i ==> corners[k] == PointAt(vertices[..], indices[group.baseIndex + k])
      {
        var at := group.baseIndex + i;
        if at >= indices.Length {
          return false, groupBox;
        }
        var isVertex, p := Vertex(indices[at]);
        if !isVertex {
          return false, groupBox;
        }
        BoxOfMore(corners, p);
        groupBox := Extend(groupBox, p);
        corners := corners + [p];
      }
      inside := true;
      assert corners == GroupCorners(vertices[..], indices[..], group);
    }

    method Vertex(index: int) returns (inside: bool, p: V3)
      ensures inside <==> 0 <= index < vertices.Length / WIDTH
      ensures inside ==> p == PointAt(vertices[..], index)
    {
      var k := index * WIDTH;
      inside := 0 <= k && k + 2 < vertices.Length;
      if inside {
        p := V3(vertices[k], vertices[k + 1], vertices[k + 2]);
      } else {
        p := V3(0.0, 0.0, 0.0);
      }
    }

    /**
     * AppendMesh's loop over the source vertices with the stride of line 193, the size of a vertex in bytes, as
     * far as its reads go: they stay inside the buffer only for a mesh without vertices.
     */
    method ReadsByByteSize(mesh: PhysicsMesh) returns (inside: bool)
      requires mesh.vertices.Length % WIDTH == 0
      ensures inside <==> mesh.vertices.Length == 0
    {
      var vertexWidth := WIDTH * BYTES_PER_FLOAT;
      var end := mesh.vertices.Length / WIDTH * vertexWidth;
      var v := 0;
      while v < end
        invariant 0 <= v <= end && v % 12 == 0 && v <= mesh.vertices.Length
      {
        if v + vertexWidth > mesh.vertices.Length {
          return false;
        }
        v := v + vertexWidth;
      }
      inside := true;
    }

    /**
     * The cursors must have reached the ends of the buffers; then the mesh is the merge, whose vertices and
     * indices are the right ones exactly if the first group began without vertices or there are no indices.
     */
    method EndAppendMesh()
      requires Appending()
      requires vertexIndex * WIDTH == vertices.Length && indicesIndex == indices.Length
      modifies this`inAppend, this`isLoaded, this`vertexIndex, this`indicesIndex
      ensures !inAppend && isLoaded && vertexIndex == indicesIndex == 0 && Content() == Merge(parts, begun[0].numVertices)
      ensures Content() == Merge(parts, 0) <==> begun[0].numVertices == 0 || indices.Length == 0
      ensures FromNothing() && PartsInRange(parts) ==> InRange(Content()) && Corners(Content()) == PartCorners(parts)
      ensures safe && parts != [] && FromNothing() && InRange(Content()) ==> groups[0].box == BoxOf(Corners(Content()))
    {
      hide BoxOf, PartCorners, Merge, Corners, InRange, Points, TotalPoints, TotalIndices;
      if PartsInRange(parts) {
        MergeDrawsAll(parts);
      }
      MergeRightIff(parts, begun[0].numVertices);
      assert vertices.Length / WIDTH == vertexIndex && indices[..indicesIndex] == indices[..];
      vertexIndex, indicesIndex := 0, 0;
      inAppend, isLoaded := false, true;
    }

    /** The content of a file, with its groups in place of all others. */
    method Load(fileVertices: array<real>, fileIndices: array<int>, fileGroups: seq<Group>) returns (inside: bool)
      requires !isLoaded && !inAppend
      modifies this
      ensures isLoaded && !inAppend && vertices == fileVertices && indices == fileIndices && SameButBoxes(groups, fileGroups)
      ensures inside <==> AllReadable(fileVertices.Length / WIDTH, fileIndices[..], fileGroups)
      ensures inside ==> forall j :: 0 <= j < |groups| ==>
        groups[j].box == BoxOf(GroupCorners(fileVertices[..], fileIndices[..], fileGroups[j]))
    {
      vertices, indices, groups := fileVertices, fileIndices, fileGroups;
      isLoaded := true;
      inside := UpdateGroupBoundingBoxes();
    }

    /** FreeBuffer and the flag; the groups stay. */
    method Unload()
      requires isLoaded
      modifies this
      ensures !isLoaded && inAppend == old(inAppend) && groups == old(groups)
      ensures fresh(vertices) && fresh(indices) && vertices.Length == indices.Length == 0
    {
      vertices, indices := new real[0], new int[0];
      isLoaded := false;
    }
  }

  lemma SameAgain(gs: seq<Group>, hs: seq<Group>, fs: seq<Group>)
    requires SameButBoxes(gs, hs) && SameButBoxes(hs, fs)
    ensures SameButBoxes(gs, fs) && |gs| == |fs|
  {
    forall j | 0 <= j < |gs| ensures gs[j] == fs[j].(box := gs[j].box) {
      assert gs[j] == hs[j].(box := gs[j].box) && hs[j] == fs[j].(box := hs[j].box);
    }
  }

  lemma BoxlessReads(gs: seq<Group>, hs: seq<Group>, n: nat, indices: seq<int>)
    requires SameButBoxes(gs, hs)
    ensures AllReadable(n, indices, gs) <==> AllReadable(n, indices, hs)
  {
    forall j | 0 <= j < |gs| ensures Readable(n, indices, gs[j]) <==> Readable(n, indices, hs[j]) {
      assert gs[j] == hs[j].(box := gs[j].box);
    }
  }

  /** With nothing left unwritten the update is decided. */
  lemma UpdateIsDecided(begun: seq<Group>, parts: seq<Part>, n: nat, rest: seq<int>)
    requires begun != []
    ensures StaysInside(begun, parts, n) ==> UpdateReads(begun, parts, n, rest)
    ensures rest == [] ==> (UpdateReads(begun, parts, n, rest) <==> StaysInside(begun, parts, n))
  {
    hide StaysInside, UpdateReads;
    UpdateStaysInsideIff(begun, parts, n, |rest|);
    if rest == [] {
      assert forall other: seq<int> :: |other| == 0 ==> other == rest;
    }
  }

  /** A mesh with indices in its first group, unloaded and merged into: the update leaves the buffers. */
  method MergeIntoUsedMesh(mesh: PhysicsMesh, source: PhysicsMesh, transform: M4) returns (inside: bool)
    requires mesh.isLoaded && !mesh.inAppend && mesh.groups != [] && mesh.groups[0].numIndices > 0
    requires source != mesh && source.isLoaded && source.vertices.Length % WIDTH == 0
    modifies mesh
    ensures !inside
  {
    hide StaysInside;
    mesh.Unload();
    mesh.BeginAppendMesh(source.vertices.Length / WIDTH, source.indices.Length);
    inside := mesh.AppendMesh(source, transform);
    if inside {
      InsideTells(mesh.begun, mesh.parts, mesh.vertices.Length / WIDTH);
    }
  }
}
