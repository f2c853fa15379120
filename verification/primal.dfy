/**
  The primal triangulation a Voronoi diagram is built from, taken as given
  input: primal vertices with a type tag and coordinates, triangles with their
  corners, the triangles across their sides and a label, and the counters
  `undeads` and `hullsize` of the triangle mesh.

  Triangle ids are positions in `triangles` (the Voronoi pass renumbers them
  that way before it reads them). A primal vertex is addressed by its position
  in the iteration order of the mesh's vertex dictionary.
 */
module Primal {
  import opened Common

  /** `VertexType` of the triangle mesh; undead vertices are bookkeeping and generate no Voronoi cell. */
  datatype VertexType = InputVertex | SegmentVertex | FreeVertex | DeadVertex | UndeadVertex

  datatype PrimalVertex = PrimalVertex(kind: VertexType, pos: Point)

  /**
    A triangle. Side `i` (orientation `i` of the triangle) runs from
    `corners[(i + 1) % 3]` to `corners[(i + 2) % 3]` with apex `corners[i]`;
    `neighbors[i]` is the id of the triangle across that side, negative on the
    hull (the id of the dummy triangle). `region` is the C# `label`.
   */
  datatype Triangle = Triangle(corners: seq<nat>, neighbors: seq<int>, region: int)

  datatype TriMesh = TriMesh(vertices: seq<PrimalVertex>, triangles: seq<Triangle>, undeads: int, hullsize: int)

  /** Side `orient` of triangle `tri`. */
  datatype Visit = Visit(tri: nat, orient: nat)

  /** Every triangle has three corners and three neighbours, all of them in range. */
  predicate Shaped(mesh: TriMesh)
  {
    forall t :: 0 <= t < |mesh.triangles| ==>
      && |mesh.triangles[t].corners| == 3
      && |mesh.triangles[t].neighbors| == 3
      && (forall k :: 0 <= k < 3 ==> mesh.triangles[t].corners[k] < |mesh.vertices|)
      && (forall k :: 0 <= k < 3 ==> mesh.triangles[t].neighbors[k] < |mesh.triangles|)
  }

  predicate InMesh(mesh: TriMesh, v: Visit)
  {
    v.tri < |mesh.triangles| && v.orient < 3
  }

  /** `tri.Org()` of orientation `v.orient`. */
  function Org(mesh: TriMesh, v: Visit): (r: nat)
    requires Shaped(mesh) && InMesh(mesh, v)
    ensures r < |mesh.vertices|
  {
    mesh.triangles[v.tri].corners[(v.orient + 1) % 3]
  }

  /** `tri.Dest()` of orientation `v.orient`. */
  function Dest(mesh: TriMesh, v: Visit): (r: nat)
    requires Shaped(mesh) && InMesh(mesh, v)
    ensures r < |mesh.vertices|
  {
    mesh.triangles[v.tri].corners[(v.orient + 2) % 3]
  }

  /** `tri.Apex()` of orientation `v.orient`. */
  function Apex(mesh: TriMesh, v: Visit): (r: nat)
    requires Shaped(mesh) && InMesh(mesh, v)
    ensures r < |mesh.vertices|
  {
    mesh.triangles[v.tri].corners[v.orient]
  }

  /** The id of the triangle across the side: `tri.Sym(ref neighbor); neighbor.tri.id`. */
  function Neighbor(mesh: TriMesh, v: Visit): int
    requires Shaped(mesh) && InMesh(mesh, v)
  {
    mesh.triangles[v.tri].neighbors[v.orient]
  }

  /** The side lies on the hull: no triangle across it. */
  predicate Hull(mesh: TriMesh, v: Visit)
    requires Shaped(mesh) && InMesh(mesh, v)
  {
    Neighbor(mesh, v) < 0
  }

  /** The edge pass handles a side when `id < nid || nid < 0`. */
  predicate Selected(mesh: TriMesh, v: Visit)
    requires Shaped(mesh) && InMesh(mesh, v)
  {
    v.tri < Neighbor(mesh, v) || Neighbor(mesh, v) < 0
  }

  /** `a` comes before `b` in the pass: by triangle, then by orientation. */
  predicate Before(a: Visit, b: Visit)
  {
    a.tri < b.tri || (a.tri == b.tri && a.orient < b.orient)
  }

  predicate Ordered(vs: seq<Visit>)
  {
    forall p, q :: 0 <= p < q < |vs| ==> Before(vs[p], vs[q])
  }

  lemma OrderedAppend(a: seq<Visit>, b: seq<Visit>)
    requires Ordered(a) && Ordered(b)
    requires forall p, q :: 0 <= p < |a| && 0 <= q < |b| ==> Before(a[p], b[q])
    ensures Ordered(a + b)
  {
    forall p, q | 0 <= p < q < |a + b|
      ensures Before((a + b)[p], (a + b)[q])
    {
      if q < |a| {
        assert (a + b)[p] == a[p] && (a + b)[q] == a[q];
      } else if p < |a| {
        assert (a + b)[p] == a[p] && (a + b)[q] == b[q - |a|];
      } else {
        assert (a + b)[p] == b[p - |a|] && (a + b)[q] == b[q - |a|];
      }
    }
  }

  /** The sides of triangle `t` below orientation `i` that the pass handles, in order. */
  function SidesUpTo(mesh: TriMesh, t: nat, i: nat): (r: seq<Visit>)
    requires Shaped(mesh) && t < |mesh.triangles| && i <= 3
    ensures forall v :: v in r <==> v.tri == t && v.orient < i && Selected(mesh, v)
    ensures Ordered(r)
  {
    if i == 0 then []
    else
      var rest := SidesUpTo(mesh, t, i - 1);
      var v := Visit(t, i - 1);
      if Selected(mesh, v) then
        OrderedAppend(rest, [v]);
        rest + [v]
      else rest
  }

  /** The sides the pass handles in the triangles below `t`, in the order it handles them. */
  function VisitsBefore(mesh: TriMesh, t: nat): (r: seq<Visit>)
    requires Shaped(mesh) && t <= |mesh.triangles|
    ensures forall v :: v in r <==> v.tri < t && v.orient < 3 && Selected(mesh, v)
    ensures Ordered(r)
  {
    if t == 0 then []
    else
      var rest := VisitsBefore(mesh, t - 1);
      var sides := SidesUpTo(mesh, t - 1, 3);
      assert forall p, q :: 0 <= p < |rest| && 0 <= q < |sides| ==> Before(rest[p], sides[q]) by {
        forall p, q | 0 <= p < |rest| && 0 <= q < |sides|
          ensures Before(rest[p], sides[q])
        {
          assert rest[p] in rest && sides[q] in sides;
        }
      }
      OrderedAppend(rest, sides);
      rest + sides
  }

  /** Every side the edge pass handles, in order. */
  function Visits(mesh: TriMesh): seq<Visit>
    requires Shaped(mesh)
  {
    VisitsBefore(mesh, |mesh.triangles|)
  }

  /**
    A side is handled exactly when the test `id < nid || nid < 0` holds for it,
    and no side is handled twice.
   */
  lemma VisitsExactly(mesh: TriMesh)
    requires Shaped(mesh)
    ensures forall v :: v in Visits(mesh) <==> InMesh(mesh, v) && Selected(mesh, v)
    ensures forall p, q :: 0 <= p < q < |Visits(mesh)| ==> Visits(mesh)[p] != Visits(mesh)[q]
  {
    var vs := Visits(mesh);
    forall p, q | 0 <= p < q < |vs|
      ensures vs[p] != vs[q]
    {
      assert Before(vs[p], vs[q]);
    }
  }

  /**
    A side shared by two different triangles, each recording the other as its
    neighbour, is handled from exactly one of them; a hull side is always handled.
   */
  lemma SharedSideVisitedOnce(mesh: TriMesh, a: Visit, b: Visit)
    requires Shaped(mesh) && InMesh(mesh, a) && InMesh(mesh, b)
    requires Neighbor(mesh, a) == b.tri && Neighbor(mesh, b) == a.tri && a.tri != b.tri
    ensures (a in Visits(mesh)) != (b in Visits(mesh))
  {
    VisitsExactly(mesh);
  }

  lemma HullSideVisited(mesh: TriMesh, a: Visit)
    requires Shaped(mesh) && InMesh(mesh, a) && Hull(mesh, a)
    ensures a in Visits(mesh)
  {
    VisitsExactly(mesh);
  }

  predicate AllInMesh(mesh: TriMesh, vs: seq<Visit>)
  {
    forall q :: 0 <= q < |vs| ==> InMesh(mesh, vs[q])
  }

  /** Every side of `vs` is one the edge pass handles. */
  predicate AllSelected(mesh: TriMesh, vs: seq<Visit>)
    requires Shaped(mesh)
  {
    AllInMesh(mesh, vs) && forall q :: 0 <= q < |vs| ==> Selected(mesh, vs[q])
  }

  /** The sides handled before side `i` of triangle `t` are all handled sides. */
  lemma HandledSoFar(mesh: TriMesh, t: nat, i: nat)
    requires Shaped(mesh) && t < |mesh.triangles| && i <= 3
    ensures AllSelected(mesh, VisitsBefore(mesh, t) + SidesUpTo(mesh, t, i))
  {
    var a, b := VisitsBefore(mesh, t), SidesUpTo(mesh, t, i);
    forall q | 0 <= q < |a + b|
      ensures InMesh(mesh, (a + b)[q]) && Selected(mesh, (a + b)[q])
    {
      if q < |a| {
        assert (a + b)[q] == a[q] && a[q] in a;
      } else {
        assert (a + b)[q] == b[q - |a|] && b[q - |a|] in b;
      }
    }
  }

  /** The number of hull sides among `vs`: the counter `j` of infinite vertices. */
  function HullCount(mesh: TriMesh, vs: seq<Visit>): (r: nat)
    requires Shaped(mesh) && AllInMesh(mesh, vs)
    ensures r <= |vs|
  {
    if vs == [] then 0
    else
      var last := vs[|vs| - 1];
      HullCount(mesh, vs[..|vs| - 1]) + (if Hull(mesh, last) then 1 else 0)
  }

  lemma VisitsInMesh(mesh: TriMesh)
    requires Shaped(mesh)
    ensures AllInMesh(mesh, Visits(mesh))
    ensures forall q :: 0 <= q < |Visits(mesh)| ==> Selected(mesh, Visits(mesh)[q])
    ensures AllSelected(mesh, Visits(mesh))
  {
    var vs := Visits(mesh);
    forall q | 0 <= q < |vs|
      ensures InMesh(mesh, vs[q]) && Selected(mesh, vs[q])
    {
      assert vs[q] in vs;
    }
  }

  /** The number of undead vertices among `vs`. */
  function UndeadCount(vs: seq<PrimalVertex>): (r: nat)
    ensures r <= |vs|
  {
    if vs == [] then 0
    else UndeadCount(vs[..|vs| - 1]) + (if vs[|vs| - 1].kind == UndeadVertex then 1 else 0)
  }

  /** The corners of every triangle are cell generators, not undead vertices. */
  predicate LiveCorners(mesh: TriMesh)
    requires Shaped(mesh)
  {
    forall t, k :: 0 <= t < |mesh.triangles| && 0 <= k < 3 ==>
      mesh.vertices[mesh.triangles[t].corners[k]].kind != UndeadVertex
  }

  /**
    What the Voronoi pass relies on from the triangle mesh: the shape of the
    triangles, `undeads` counting the undead vertices, undead vertices not
    being corners, and `hullsize` counting the hull sides (every hull side is
    handled by the edge pass).
   */
  predicate Valid(mesh: TriMesh)
  {
    && Shaped(mesh)
    && mesh.undeads == UndeadCount(mesh.vertices)
    && LiveCorners(mesh)
    && (VisitsInMesh(mesh); mesh.hullsize == HullCount(mesh, Visits(mesh)))
  }

  // ---------------------------------------------------------------------
  // The direction of a ray.
  // ---------------------------------------------------------------------

  /** `(dest.y - org.y, org.x - dest.x)`: the side's direction turned clockwise by a right angle. */
  function RayOffset(org: Point, dest: Point): Point
  {
    Point(dest.y - org.y, org.x - dest.x)
  }

  /** Twice the signed area of `a, b, c`: positive when they turn counterclockwise. */
  function Orient(a: Point, b: Point, c: Point): real
  {
    (b.x - a.x) * (c.y - a.y) - (b.y - a.y) * (c.x - a.x)
  }

  function Dot(u: Point, v: Point): real
  {
    u.x * v.x + u.y * v.y
  }

  function Minus(u: Point, v: Point): Point
  {
    Point(u.x - v.x, u.y - v.y)
  }

  /**
    The ray is perpendicular to the hull side, as long as it, and points away
    from the triangle's apex whenever the triangle is counterclockwise.
   */
  lemma RayOffsetOutward(org: Point, dest: Point, apex: Point)
    ensures Dot(RayOffset(org, dest), Minus(dest, org)) == 0.0
    ensures Dot(RayOffset(org, dest), RayOffset(org, dest)) == Dot(Minus(dest, org), Minus(dest, org))
    ensures Dot(RayOffset(org, dest), Minus(apex, org)) == -Orient(org, dest, apex)
    ensures Orient(org, dest, apex) > 0.0 ==> Dot(RayOffset(org, dest), Minus(apex, org)) < 0.0
  {
  }
}
