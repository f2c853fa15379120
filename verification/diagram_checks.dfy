/**
  The container's checks and the edge enumeration, applied to the diagram
  `Generate` returns.
 */
module DiagramChecks {
  import opened Common
  import opened Dcel
  import opened Primal
  import opened VoronoiPass
  import opened PassFaces
  import opened VoronoiDiagram
  import opened DcelConsistency
  import DcelEdges
  import VoronoiEnumerate

  /**
    With `closed`, `IsConsistent` rejects every diagram with a hull side: the
    ray of that side ends at an infinite vertex, so its `next` stays unset.
   */
  lemma ClosedCheckRejectsRays(mesh: TriMesh, d: Mesh, rays: seq<nat>, depth: int)
    requires Valid(mesh) && DualTopology(mesh, d, rays) && mesh.hullsize > 0
    ensures IsConsistent(d, true, depth) != Success(true)
  {
    VisitsInMesh(mesh);
    var e := rays[0];
    assert Ray(mesh, d, e) && NextOk(mesh, d, e);
    assert d.edges[e].next.None? && d.edges[e].id == e;
    LiveEdgeNeedsPointers(d, e, true, depth);
  }

  function Mate(e: nat): nat
  {
    if e % 2 == 0 then e + 1 else e - 1
  }

  /** Ids are positions, `2q` and `2q + 1` are twins, and every half-edge has an origin and a face. */
  predicate Twinned(d: Mesh)
    requires WellFormed(d)
  {
    forall e :: 0 <= e < |d.edges| ==>
      && d.edges[e].id == e
      && d.edges[e].twin == Some(Mate(e))
      && d.edges[e].origin.Some?
      && d.edges[e].face.FaceAt?
  }

  lemma DiagramTwinned(mesh: TriMesh, d: Mesh, rays: seq<nat>)
    requires Valid(mesh) && DualTopology(mesh, d, rays)
    ensures Twinned(d)
  {
    VisitsInMesh(mesh);
  }

  lemma TwinnedEdgesPass(d: Mesh)
    requires WellFormed(d) && Twinned(d)
    ensures forall e: nat :: e < |d.edges| ==> EdgeLinked(d, e, false) && EdgeTopology(d, e, false)
  {
    forall e: nat | e < |d.edges|
      ensures EdgeLinked(d, e, false) && EdgeTopology(d, e, false)
    {
      var t := Mate(e);
      assert d.edges[e].twin == Some(t);
      assert d.edges[t].twin == Some(Mate(t));
    }
  }

  /** Every half-edge of the diagram has its twin, origin and face, and its twin's twin is itself. */
  lemma EdgesPass(mesh: TriMesh, d: Mesh, rays: seq<nat>)
    requires Valid(mesh) && DualTopology(mesh, d, rays)
    ensures forall e: nat :: e < |d.edges| ==> EdgeLinked(d, e, false) && EdgeTopology(d, e, false)
  {
    DiagramTwinned(mesh, d, rays);
    TwinnedEdgesPass(d);
  }

  lemma VerticesPass(mesh: TriMesh, d: Mesh, rays: seq<nat>)
    requires Valid(mesh) && DualTopology(mesh, d, rays)
    ensures forall v: nat :: v < |d.vertices| ==> (VertexSound(d, v) <==> d.vertices[v].leaving.Some?)
  {
    VisitsInMesh(mesh);
    forall v: nat | v < |d.vertices|
      ensures VertexSound(d, v) <==> d.vertices[v].leaving.Some?
    {
      assert d.vertices[v].id == v;
    }
  }

  lemma FacesPass(mesh: TriMesh, d: Mesh, rays: seq<nat>)
    requires Valid(mesh) && DualTopology(mesh, d, rays)
    ensures forall f: nat :: f < |d.faces| ==> (FaceSound(d, f) <==> d.faces[f].edge.Some?)
  {
    forall f: nat | f < |d.faces|
      ensures FaceSound(d, f) <==> d.faces[f].edge.Some?
    {
      assert CellOk(mesh, d.edges, d.faces, f);
    }
  }

  lemma OpenCheckOf(d: Mesh, depth: int)
    requires WellFormed(d)
    requires forall e: nat :: e < |d.edges| ==> EdgeLinked(d, e, false) && EdgeTopology(d, e, false)
    requires forall v: nat :: v < |d.vertices| ==> (VertexSound(d, v) <==> d.vertices[v].leaving.Some?)
    requires forall f: nat :: f < |d.faces| ==> (FaceSound(d, f) <==> d.faces[f].edge.Some?)
    ensures IsConsistent(d, false, depth) == Success(true) <==>
      && (forall v :: 0 <= v < |d.vertices| ==> d.vertices[v].leaving.Some?)
      && (forall f :: 0 <= f < |d.faces| ==> d.faces[f].edge.Some?)
  {
  }

  /**
    Without `closed`, `IsConsistent` accepts the diagram exactly when every
    vertex has a leaving half-edge and every face a half-edge on it: twins,
    origins, faces and ids are always right.
   */
  lemma OpenCheckIff(mesh: TriMesh, d: Mesh, rays: seq<nat>, depth: int)
    requires Valid(mesh) && DualTopology(mesh, d, rays)
    ensures IsConsistent(d, false, depth) == Success(true) <==>
      && (forall v :: 0 <= v < |d.vertices| ==> d.vertices[v].leaving.Some?)
      && (forall f :: 0 <= f < |d.faces| ==> d.faces[f].edge.Some?)
  {
    EdgesPass(mesh, d, rays);
    VerticesPass(mesh, d, rays);
    FacesPass(mesh, d, rays);
    OpenCheckOf(d, depth);
  }

  // ---------------------------------------------------------------------
  // The enumeration of the diagram's edges.
  // ---------------------------------------------------------------------

  /** One edge per handled side, in order: from its far end to its triangle's circumcenter. */
  function DualEdgeList(mesh: TriMesh): seq<Edge>
    requires Shaped(mesh)
  {
    VisitsInMesh(mesh);
    var vs := Visits(mesh);
    seq(|vs|, q requires 0 <= q < |vs| && Shaped(mesh) && AllInMesh(mesh, vs) => Edge(EndOf(mesh, vs, q), vs[q].tri))
  }

  lemma PairOf(mesh: TriMesh, d: Mesh, q: nat)
    requires Valid(mesh) && WellFormed(d) && Sizes(mesh, d) && DualEdges(mesh, d)
    requires forall x :: 0 <= x < |d.vertices| ==> d.vertices[x].id == x
    requires q < |DualEdgeList(mesh)|
    ensures 2 * q + 1 < |d.edges|
    ensures VoronoiEnumerate.PairAt(d, q, DualEdgeList(mesh)[q])
  {
    VisitsInMesh(mesh);
    var vs := Visits(mesh);
    var a, b := 2 * q, 2 * q + 1;
    assert a / 2 == q && b / 2 == q;
    assert d.edges[a].twin == Some(b) && d.edges[b].twin == Some(a);
    assert d.edges[a].origin == Some(EndOf(mesh, vs, q));
    assert d.edges[b].origin == Some(vs[q].tri);
  }

  /** The half-edges of the diagram pair up as the enumeration expects, with the edges of `DualEdgeList`. */
  lemma DiagramPairs(mesh: TriMesh, d: Mesh)
    requires Valid(mesh) && WellFormed(d) && Sizes(mesh, d) && DualEdges(mesh, d)
    requires forall x :: 0 <= x < |d.vertices| ==> d.vertices[x].id == x
    ensures |d.edges| == 2 * |DualEdgeList(mesh)|
    ensures forall q :: 0 <= q < |DualEdgeList(mesh)| ==> VoronoiEnumerate.PairAt(d, q, DualEdgeList(mesh)[q])
  {
    VisitsInMesh(mesh);
    forall q | 0 <= q < |DualEdgeList(mesh)|
      ensures VoronoiEnumerate.PairAt(d, q, DualEdgeList(mesh)[q])
    {
      PairOf(mesh, d, q);
    }
  }

  /**
    `EnumerateEdges` of the diagram succeeds and lists one edge per handled
    side, in the order of the edge pass, from the side's far end to its
    triangle's circumcenter; the container's own scan lists the same, and
    half as many edges as there are half-edges.
   */
  lemma DiagramEdgesListed(mesh: TriMesh, d: Mesh, rays: seq<nat>)
    requires Valid(mesh) && DualTopology(mesh, d, rays)
    ensures VoronoiEnumerate.EnumerateEdges(d) == Success(DualEdgeList(mesh))
    ensures DcelEdges.EnumerateEdges(d) == Success(DualEdgeList(mesh))
    ensures 2 * |DualEdgeList(mesh)| == |d.edges|
  {
    VisitsInMesh(mesh);
    DiagramPairs(mesh, d);
    var list := DualEdgeList(mesh);
    VoronoiEnumerate.ScanPairs(d, list, 0);
    assert list[0..] == list;
    VoronoiEnumerate.AgreesWithBase(d);
  }
}
