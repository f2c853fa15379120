/**
  `VoronoiBase.Generate`: the Voronoi diagram of a triangle mesh, built by
  the vertex pass, the numbering of the cells, the edge pass and the linking
  of `next` pointers, in that order.
 */
module Voronoi {
  import opened Common
  import opened Dcel
  import opened Primal
  import opened VoronoiVertices
  import opened VoronoiPass
  import opened VoronoiEdges
  import opened VoronoiConnect
  import opened VoronoiDiagram
  import opened GenerateFacts
  import opened GenerateDiagram

  /** The finished edge pass followed by `ConnectEdges` yields the diagram. */
  lemma DiagramOfPass(mesh: TriMesh, cc: (Point, Point, Point) -> Point, ids: seq<int>, base: seq<Vertex>, s: PassState, d: Mesh)
    requires Passed(mesh, cc, ids, base, s)
    requires WellFormed(Unlinked(s)) && BucketsInRange(Unlinked(s), s.buckets)
    requires forall e :: 0 <= e < |s.edges| ==> NextFor(Unlinked(s), s.buckets, e).Success?
    requires d.vertices == s.vertices && d.faces == s.faces && |d.edges| == |s.edges| && WellFormed(d)
    requires forall e :: 0 <= e < |s.edges| ==> d.edges[e] == Connected(Unlinked(s), s.buckets, e)
    ensures Diagram(mesh, cc, d, s.rays)
  {
    Relinked(mesh, cc, ids, base, s, d);
    DiagramEdges(mesh, cc, ids, base, s, d);
    DiagramVertices(mesh, cc, ids, base, s, d);
    VertexIds(mesh, cc, ids, base, s);
    DiagramLeaving(mesh, cc, ids, base, s, d);
    DiagramCells(mesh, cc, ids, base, s, d);
    DiagramRays(mesh, cc, ids, base, s, d);
    DiagramLinked(mesh, cc, ids, base, s, d);
  }

  /**
    `Generate(mesh)`: on a valid triangle mesh the four passes do not throw,
    and the result is the Voronoi diagram of the mesh with its list of rays.
   */
  method Generate(mesh: TriMesh, cc: (Point, Point, Point) -> Point) returns (d: Mesh, rays: seq<nat>)
    requires Valid(mesh)
    ensures DualTopology(mesh, d, rays)
    ensures DualVertices(mesh, cc, d)
  {
    var vertices, buckets := ComputeVertices(mesh, cc);
    var ids, faces := NumberFaces(mesh.vertices, mesh.undeads);
    NumberedFit(mesh, ids);
    var s0 := PassState(vertices, [], faces, buckets, []);
    var s := ComputeEdges(mesh, ids, s0);
    assert Passed(mesh, cc, ids, vertices, s);
    NextForUnlinked(mesh, cc, ids, vertices, s);
    var r := ConnectEdges(Unlinked(s), s.buckets);
    d, rays := r.value, s.rays;
    DiagramOfPass(mesh, cc, ids, vertices, s, d);
  }
}
