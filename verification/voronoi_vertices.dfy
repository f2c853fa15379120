/**
  The first two passes of `VoronoiBase.Generate`: one dual vertex per triangle
  at its circumcenter (`ComputeVertices`), and the numbering of the primal
  vertices with one Voronoi face per cell generator.

  `FindCircumcenter` of the geometric predicates is the parameter `cc`: the
  model says nothing about its floating-point behaviour.
 */
module VoronoiVertices {
  import opened Common
  import opened Dcel
  import opened Primal

  /** The circumcenter of triangle `t`: `FindCircumcenter(tri.Org(), tri.Dest(), tri.Apex())` for orientation 0. */
  function Circumcenter(mesh: TriMesh, cc: (Point, Point, Point) -> Point, t: nat): Point
    requires Shaped(mesh) && t < |mesh.triangles|
  {
    var v := Visit(t, 0);
    cc(mesh.vertices[Org(mesh, v)].pos, mesh.vertices[Dest(mesh, v)].pos, mesh.vertices[Apex(mesh, v)].pos)
  }

  /** The dual vertex of triangle `t` as `ComputeVertices` leaves it. */
  function DualVertex(mesh: TriMesh, cc: (Point, Point, Point) -> Point, t: nat): Vertex
    requires Shaped(mesh) && t < |mesh.triangles|
  {
    var c := Circumcenter(mesh, cc, t);
    Vertex(t, c.x, c.y, mesh.triangles[t].region, None)
  }

  /**
    `ComputeVertices`: triangle `i` gets id `i`, and so does its dual vertex,
    which sits at the circumcenter, carries the triangle's label and has no
    leaving half-edge yet; every bucket of leaving half-edges starts empty.
   */
  method ComputeVertices(mesh: TriMesh, cc: (Point, Point, Point) -> Point)
    returns (vertices: seq<Vertex>, buckets: seq<seq<nat>>)
    requires Shaped(mesh)
    ensures |vertices| == |mesh.triangles| && |buckets| == |mesh.triangles|
    ensures forall t :: 0 <= t < |vertices| ==>
      && vertices[t].id == t
      && Point(vertices[t].x, vertices[t].y) == Circumcenter(mesh, cc, t)
      && vertices[t].region == mesh.triangles[t].region
      && vertices[t].leaving.None?
    ensures forall t :: 0 <= t < |buckets| ==> buckets[t] == []
  {
    vertices, buckets := [], [];
    var i := 0;
    while i < |mesh.triangles|
      invariant i <= |mesh.triangles|
      invariant |vertices| == i && |buckets| == i
      invariant forall t :: 0 <= t < i ==> vertices[t] == DualVertex(mesh, cc, t)
      invariant forall t :: 0 <= t < i ==> buckets[t] == []
    {
      var pt := Circumcenter(mesh, cc, i);
      // factory.CreateVertex(pt.x, pt.y) starts with id 0, label 0 and no leaving half-edge
      var vertex := Vertex(0, pt.x, pt.y, 0, None);
      vertex := vertex.(id := i, region := mesh.triangles[i].region);
      vertices := vertices + [vertex];
      buckets := buckets + [[]];
      i := i + 1;
    }
  }

  // ---------------------------------------------------------------------
  // Face numbering.
  // ---------------------------------------------------------------------

  /** The number of undead vertices among the first `p`. */
  function UndeadBefore(vs: seq<PrimalVertex>, p: nat): nat
    requires p <= |vs|
  {
    UndeadCount(vs[..p])
  }

  /** The number of cell generators (vertices that are not undead) among the first `p`. */
  function LiveBefore(vs: seq<PrimalVertex>, p: nat): nat
    requires p <= |vs|
  {
    p - UndeadBefore(vs, p)
  }

  lemma UndeadStep(vs: seq<PrimalVertex>, p: nat)
    requires p < |vs|
    ensures UndeadBefore(vs, p + 1) == UndeadBefore(vs, p) + (if vs[p].kind == UndeadVertex then 1 else 0)
  {
    assert vs[..p + 1][..p] == vs[..p];
  }

  /**
    The id the face pass gives primal vertex `p`: cell generators are numbered
    `0, 1, 2, …` in iteration order, undead vertices `count, count + 1, …`
    where `count` is the number of cell generators.
   */
  function Renumbered(vs: seq<PrimalVertex>, p: nat): int
    requires p < |vs|
  {
    if vs[p].kind == UndeadVertex then LiveBefore(vs, |vs|) + UndeadBefore(vs, p)
    else LiveBefore(vs, p)
  }

  /** The face of the cell generated by the primal vertex with id `f`: `factory.CreateFace(vertex)`. */
  function NewFace(f: nat): Face
  {
    Face(f, f, true, None)
  }

  /**
    The face pass of `Generate`: walks the primal vertices, renumbers them and
    creates the face of every cell generator at the position of its new id.
   */
  method NumberFaces(vs: seq<PrimalVertex>, undeads: int) returns (ids: seq<int>, faces: seq<Face>)
    requires undeads == UndeadCount(vs)
    ensures |ids| == |vs| && |faces| == |vs| - undeads
    ensures forall p :: 0 <= p < |vs| ==> ids[p] == Renumbered(vs, p)
    ensures forall f :: 0 <= f < |faces| ==> faces[f] == NewFace(f)
  {
    assert vs[..|vs|] == vs;
    var count := |vs| - undeads;
    var vid := 0;
    ids, faces := [], [];
    var p := 0;
    while p < |vs|
      invariant p <= |vs| && |ids| == p
      invariant vid == LiveBefore(vs, p) && |faces| == vid
      invariant count == LiveBefore(vs, |vs|) + UndeadBefore(vs, p)
      invariant forall q :: 0 <= q < p ==> ids[q] == Renumbered(vs, q)
      invariant forall f :: 0 <= f < |faces| ==> faces[f] == NewFace(f)
    {
      UndeadStep(vs, p);
      if vs[p].kind == UndeadVertex {
        ids := ids + [count];
        count := count + 1;
      } else {
        ids := ids + [vid];
        faces := faces + [NewFace(vid)];
        vid := vid + 1;
      }
      p := p + 1;
    }
  }

  lemma {:induction false} CountsMonotone(vs: seq<PrimalVertex>, p: nat, q: nat)
    requires p <= q <= |vs|
    ensures UndeadBefore(vs, p) <= UndeadBefore(vs, q)
    ensures LiveBefore(vs, p) <= LiveBefore(vs, q)
    ensures p < q && vs[p].kind == UndeadVertex ==> UndeadBefore(vs, p) < UndeadBefore(vs, q)
    ensures p < q && vs[p].kind != UndeadVertex ==> LiveBefore(vs, p) < LiveBefore(vs, q)
    decreases q - p
  {
    if p < q {
      UndeadStep(vs, p);
      CountsMonotone(vs, p + 1, q);
    }
  }

  lemma {:induction false} LiveReached(vs: seq<PrimalVertex>, n: nat, f: nat)
    requires n <= |vs| && f < LiveBefore(vs, n)
    ensures exists p :: 0 <= p < n && vs[p].kind != UndeadVertex && LiveBefore(vs, p) == f
  {
    if n > 0 {
      UndeadStep(vs, n - 1);
      if f < LiveBefore(vs, n - 1) {
        LiveReached(vs, n - 1, f);
      }
    }
  }

  lemma {:induction false} UndeadReached(vs: seq<PrimalVertex>, n: nat, u: nat)
    requires n <= |vs| && u < UndeadBefore(vs, n)
    ensures exists p :: 0 <= p < n && vs[p].kind == UndeadVertex && UndeadBefore(vs, p) == u
  {
    if n > 0 {
      UndeadStep(vs, n - 1);
      if u < UndeadBefore(vs, n - 1) {
        UndeadReached(vs, n - 1, u);
      }
    }
  }

  /** Some primal vertex is renumbered to `f`. */
  ghost predicate Taken(vs: seq<PrimalVertex>, f: int)
  {
    exists p :: 0 <= p < |vs| && Renumbered(vs, p) == f
  }

  lemma RenumberedRange(vs: seq<PrimalVertex>, p: nat)
    requires p < |vs|
    ensures 0 <= Renumbered(vs, p) < |vs|
    ensures Renumbered(vs, p) < |vs| - UndeadCount(vs) <==> vs[p].kind != UndeadVertex
  {
    assert vs[..|vs|] == vs;
    CountsMonotone(vs, p, |vs|);
  }

  lemma RenumberedInjective(vs: seq<PrimalVertex>, p: nat, q: nat)
    requires p < q < |vs|
    ensures Renumbered(vs, p) != Renumbered(vs, q)
  {
    CountsMonotone(vs, p, q);
    CountsMonotone(vs, q, |vs|);
    CountsMonotone(vs, p, |vs|);
  }

  lemma RenumberedOnto(vs: seq<PrimalVertex>, f: nat)
    requires f < |vs|
    ensures Taken(vs, f)
  {
    if f < LiveBefore(vs, |vs|) {
      LiveReached(vs, |vs|, f);
      var p :| 0 <= p < |vs| && vs[p].kind != UndeadVertex && LiveBefore(vs, p) == f;
      assert Renumbered(vs, p) == f;
    } else {
      assert vs[..|vs|] == vs;
      UndeadReached(vs, |vs|, f - LiveBefore(vs, |vs|));
      var p :| 0 <= p < |vs| && vs[p].kind == UndeadVertex && UndeadBefore(vs, p) == f - LiveBefore(vs, |vs|);
      assert Renumbered(vs, p) == f;
    }
  }

  /**
    The renumbering is a bijection onto `0 .. |vs| - 1`: cell generators take
    exactly the ids below `count`, undead vertices exactly the ids from `count` on.
   */
  lemma RenumberedIsBijection(vs: seq<PrimalVertex>)
    ensures forall p :: 0 <= p < |vs| ==> 0 <= Renumbered(vs, p) < |vs|
    ensures forall p :: 0 <= p < |vs| ==> (Renumbered(vs, p) < |vs| - UndeadCount(vs) <==> vs[p].kind != UndeadVertex)
    ensures forall p, q :: 0 <= p < q < |vs| ==> Renumbered(vs, p) != Renumbered(vs, q)
    ensures forall f :: 0 <= f < |vs| ==> Taken(vs, f)
  {
    forall p | 0 <= p < |vs|
      ensures 0 <= Renumbered(vs, p) < |vs|
      ensures Renumbered(vs, p) < |vs| - UndeadCount(vs) <==> vs[p].kind != UndeadVertex
    {
      RenumberedRange(vs, p);
    }
    forall p, q | 0 <= p < q < |vs|
      ensures Renumbered(vs, p) != Renumbered(vs, q)
    {
      RenumberedInjective(vs, p, q);
    }
    forall f | 0 <= f < |vs|
      ensures Taken(vs, f)
    {
      RenumberedOnto(vs, f);
    }
  }
}
