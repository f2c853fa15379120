/**
  What `VoronoiBase.Generate` builds, stated without the passes: the Voronoi
  diagram of a triangle mesh as a DCEL, in terms of the sides the edge pass
  handles (`Visits`), the circumcenters and the renumbering of the vertices.
 */
module VoronoiDiagram {
  import opened Common
  import opened Dcel
  import opened Primal
  import opened VoronoiVertices
  import opened VoronoiPass
  import opened PassFaces

  /** The face of the cell of primal vertex `p`: its renumbered id. */
  function Cell(mesh: TriMesh, p: nat): nat
    requires p < |mesh.vertices|
  {
    RenumberedRange(mesh.vertices, p);
    Renumbered(mesh.vertices, p) as nat
  }

  /** The point an infinite vertex stands for: the circumcenter pushed outwards by the ray offset. */
  function RayPoint(mesh: TriMesh, cc: (Point, Point, Point) -> Point, v: Visit): Point
    requires Shaped(mesh) && InMesh(mesh, v)
  {
    var c := Circumcenter(mesh, cc, v.tri);
    var off := RayOffset(mesh.vertices[Org(mesh, v)].pos, mesh.vertices[Dest(mesh, v)].pos);
    Point(c.x + off.x, c.y + off.y)
  }

  /**
    One dual vertex per triangle and per hull side, one face per primal vertex
    that is not undead, and two half-edges per handled side.
   */
  predicate Sizes(mesh: TriMesh, d: Mesh)
    requires Valid(mesh)
  {
    VisitsInMesh(mesh);
    && |d.vertices| == |mesh.triangles| + mesh.hullsize
    && |d.faces| == |mesh.vertices| - mesh.undeads
    && |d.edges| == 2 * |Visits(mesh)|
  }

  /**
    The `q`-th handled side yields the half-edges `2q` and `2q + 1`, each the
    other's twin: `2q + 1` starts at the circumcenter of the side's triangle and
    borders the cell of its destination; `2q` starts at the far end (the
    neighbour's circumcenter, or the side's infinite vertex) and borders the
    cell of its origin.
   */
  predicate DualEdges(mesh: TriMesh, d: Mesh)
    requires Valid(mesh) && Sizes(mesh, d)
  {
    VisitsInMesh(mesh);
    var vs := Visits(mesh);
    forall e :: 0 <= e < |d.edges| ==>
      && d.edges[e].id == e
      && d.edges[e].twin == Some(if e % 2 == 0 then e + 1 else e - 1)
      && d.edges[e].origin == Some(if e % 2 == 0 then EndOf(mesh, vs, e / 2) else vs[e / 2].tri)
      && d.edges[e].face == FaceAt(Cell(mesh, if e % 2 == 0 then Org(mesh, vs[e / 2]) else Dest(mesh, vs[e / 2])))
  }

  /**
    Vertex `t` of a triangle sits at its circumcenter
    with the triangle's label; the infinite vertex of the `j`-th hull side is
    vertex `count + j`, at the ray point, with label 0.
   */
  predicate DualVertices(mesh: TriMesh, cc: (Point, Point, Point) -> Point, d: Mesh)
    requires Valid(mesh) && Sizes(mesh, d)
  {
    VisitsInMesh(mesh);
    var vs := Visits(mesh);
    && (forall t :: 0 <= t < |mesh.triangles| ==>
          && Point(d.vertices[t].x, d.vertices[t].y) == Circumcenter(mesh, cc, t)
          && d.vertices[t].region == mesh.triangles[t].region)
    && (forall q :: 0 <= q < |vs| && Hull(mesh, vs[q]) ==>
          && |mesh.triangles| <= EndOf(mesh, vs, q) < |d.vertices|
          && Point(d.vertices[EndOf(mesh, vs, q)].x, d.vertices[EndOf(mesh, vs, q)].y) == RayPoint(mesh, cc, vs[q])
          && d.vertices[EndOf(mesh, vs, q)].region == 0)
  }

  /**
    `leaving` of a vertex is the last half-edge that starts there, and is unset
    only when no half-edge does.
   */
  predicate LeavingLast(d: Mesh)
    requires WellFormed(d)
  {
    forall x :: 0 <= x < |d.vertices| ==>
      match d.vertices[x].leaving
      case None => forall e :: 0 <= e < |d.edges| ==> d.edges[e].origin != Some(x)
      case Some(l) => d.edges[l].origin == Some(x) && forall e :: l < e < |d.edges| ==> d.edges[e].origin != Some(x)
  }

  /** Every face is sound in the sense of `CellOk`: id, generator, `edge` and `bounded`. */
  predicate Cells(mesh: TriMesh, d: Mesh)
  {
    forall f :: 0 <= f < |d.faces| ==> CellOk(mesh, d.edges, d.faces, f)
  }

  /** The half-edge's twin starts at an infinite vertex. */
  predicate Ray(mesh: TriMesh, d: Mesh, e: nat)
    requires WellFormed(d) && e < |d.edges|
  {
    d.edges[e].twin.Some? && Infinite(mesh, d.edges[d.edges[e].twin.value])
  }

  /** The rays are the half-edges whose twin starts at an infinite vertex, one per hull side, by increasing id. */
  predicate RaysSound(mesh: TriMesh, d: Mesh, rays: seq<nat>)
    requires Valid(mesh) && WellFormed(d)
  {
    && |rays| == mesh.hullsize
    && (forall i, j :: 0 <= i < j < |rays| ==> rays[i] < rays[j])
    && (forall i :: 0 <= i < |rays| ==> rays[i] < |d.edges| && Ray(mesh, d, rays[i]))
    && (forall e :: 0 <= e < |d.edges| && Ray(mesh, d, e) ==> e in rays)
  }

  /** Half-edge `n` starts at vertex `y` and borders `face`. */
  predicate StartsOn(d: Mesh, n: nat, y: nat, face: FaceRef)
    requires n < |d.edges|
  {
    d.edges[n].origin == Some(y) && d.edges[n].face == face
  }

  /**
    `r` is the `next` `e` should get: none when `e` ends at an infinite vertex;
    otherwise the first half-edge, by id, that starts where `e`'s twin starts
    and borders `e`'s face, and none when there is no such half-edge.
   */
  predicate NextIs(mesh: TriMesh, d: Mesh, e: nat, r: Option<nat>)
    requires WellFormed(d) && e < |d.edges|
  {
    var edge := d.edges[e];
    && edge.twin.Some? && d.edges[edge.twin.value].origin.Some?
    && var y := d.edges[edge.twin.value].origin.value;
       if y >= |mesh.triangles| then r.None?
       else match r
         case None => forall n :: 0 <= n < |d.edges| ==> !StartsOn(d, n, y, edge.face)
         case Some(n) =>
           && n < |d.edges| && StartsOn(d, n, y, edge.face)
           && forall k :: 0 <= k < n ==> !StartsOn(d, k, y, edge.face)
  }

  predicate NextOk(mesh: TriMesh, d: Mesh, e: nat)
    requires WellFormed(d) && e < |d.edges|
  {
    NextIs(mesh, d, e, d.edges[e].next)
  }

  predicate Linked(mesh: TriMesh, d: Mesh)
    requires WellFormed(d)
  {
    forall e :: 0 <= e < |d.edges| ==> NextOk(mesh, d, e)
  }

  /**
    The combinatorial part of the diagram: everything but the positions and
    labels of its vertices. Vertex `x` has id `x`.
   */
  predicate DualTopology(mesh: TriMesh, d: Mesh, rays: seq<nat>)
    requires Valid(mesh)
  {
    && WellFormed(d) && Sizes(mesh, d)
    && (forall x :: 0 <= x < |d.vertices| ==> d.vertices[x].id == x)
    && DualEdges(mesh, d)
    && LeavingLast(d) && Cells(mesh, d)
    && RaysSound(mesh, d, rays) && Linked(mesh, d)
  }

  /** `d` with the rays `rays` is the Voronoi diagram of `mesh` with circumcenters from `cc`. */
  predicate Diagram(mesh: TriMesh, cc: (Point, Point, Point) -> Point, d: Mesh, rays: seq<nat>)
    requires Valid(mesh)
  {
    DualTopology(mesh, d, rays) && DualVertices(mesh, cc, d)
  }
}
