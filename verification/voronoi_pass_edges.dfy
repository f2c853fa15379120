/**
  The half-edges the edge pass creates, in closed form: the `q`-th handled
  side yields the half-edges `2 * q` (`edge`) and `2 * q + 1` (`twin`).
 */
module PassEdges {
  import opened Common
  import opened Dcel
  import opened Primal
  import opened VoronoiPass

  /** The half-edge with id `e` that the pass over `vs` creates. */
  function HalfEdgeAt(mesh: TriMesh, ids: seq<int>, vs: seq<Visit>, e: nat): HalfEdge
    requires Shaped(mesh) && AllInMesh(mesh, vs) && CornerIds(mesh, ids) && e < 2 * |vs|
  {
    if e % 2 == 0 then EdgeAt(mesh, ids, vs, e / 2) else TwinAt(mesh, ids, vs, e / 2)
  }

  predicate EdgesInv(mesh: TriMesh, ids: seq<int>, vs: seq<Visit>, edges: seq<HalfEdge>)
    requires Shaped(mesh) && AllInMesh(mesh, vs) && CornerIds(mesh, ids)
  {
    && |edges| == 2 * |vs|
    && forall e :: 0 <= e < |edges| ==> edges[e] == HalfEdgeAt(mesh, ids, vs, e)
  }

  lemma HalfEdgeAtAppend(mesh: TriMesh, ids: seq<int>, vs: seq<Visit>, v: Visit, e: nat)
    requires Shaped(mesh) && AllInMesh(mesh, vs) && InMesh(mesh, v) && CornerIds(mesh, ids)
    requires e < 2 * |vs|
    ensures AllInMesh(mesh, vs + [v])
    ensures HalfEdgeAt(mesh, ids, vs + [v], e) == HalfEdgeAt(mesh, ids, vs, e)
  {
    EndOfAppend(mesh, vs, v);
    assert (vs + [v])[e / 2] == vs[e / 2];
  }

  /** The half-edge `edge` of a step: from the far end of the side, on the face of its origin. */
  lemma StepEdgeShape(mesh: TriMesh, ids: seq<int>, s: PassState, v: Visit)
    requires Fits(mesh, ids, s) && InMesh(mesh, v)
    ensures Org(mesh, v) < |mesh.vertices| && 0 <= ids[Org(mesh, v)]
    ensures Step(mesh, ids, s, v).edges[|s.edges|] ==
      HalfEdge(|s.edges|, Some(if Hull(mesh, v) then |s.vertices| else Neighbor(mesh, v) as nat),
               Some(|s.edges| + 1), None, FaceAt(FaceOf(mesh, ids, Org(mesh, v))))
  {
    CornersFit(mesh, ids, |s.faces|, v);
  }

  lemma StepNewEdge(mesh: TriMesh, ids: seq<int>, s: PassState, vs: seq<Visit>, v: Visit)
    requires Fits(mesh, ids, s) && AllInMesh(mesh, vs) && InMesh(mesh, v)
    requires |s.vertices| == |mesh.triangles| + HullCount(mesh, vs)
    requires CornerIds(mesh, ids) && |s.edges| == 2 * |vs|
    ensures AllInMesh(mesh, vs + [v])
    ensures Step(mesh, ids, s, v).edges[2 * |vs|] == EdgeAt(mesh, ids, vs + [v], |vs|)
  {
    StepEdgeShape(mesh, ids, s, v);
    EndOfAppend(mesh, vs, v);
    var ws := vs + [v];
    assert ws[|vs|] == v;
    assert EndOf(mesh, ws, |vs|) == if Hull(mesh, v) then |s.vertices| else Neighbor(mesh, v) as nat;
  }

  lemma StepNewTwin(mesh: TriMesh, ids: seq<int>, s: PassState, vs: seq<Visit>, v: Visit)
    requires Fits(mesh, ids, s) && AllInMesh(mesh, vs) && InMesh(mesh, v)
    requires CornerIds(mesh, ids) && |s.edges| == 2 * |vs|
    ensures AllInMesh(mesh, vs + [v])
    ensures Step(mesh, ids, s, v).edges[2 * |vs| + 1] == TwinAt(mesh, ids, vs + [v], |vs|)
  {
    EndOfAppend(mesh, vs, v);
    assert (vs + [v])[|vs|] == v;
  }

  lemma StepNewHalfEdges(mesh: TriMesh, ids: seq<int>, s: PassState, vs: seq<Visit>, v: Visit)
    requires Fits(mesh, ids, s) && AllInMesh(mesh, vs) && InMesh(mesh, v)
    requires |s.vertices| == |mesh.triangles| + HullCount(mesh, vs)
    requires CornerIds(mesh, ids) && |s.edges| == 2 * |vs|
    ensures AllInMesh(mesh, vs + [v])
    ensures Step(mesh, ids, s, v).edges[2 * |vs|] == HalfEdgeAt(mesh, ids, vs + [v], 2 * |vs|)
    ensures Step(mesh, ids, s, v).edges[2 * |vs| + 1] == HalfEdgeAt(mesh, ids, vs + [v], 2 * |vs| + 1)
  {
    StepNewEdge(mesh, ids, s, vs, v);
    StepNewTwin(mesh, ids, s, vs, v);
    assert (2 * |vs|) / 2 == |vs| && (2 * |vs| + 1) / 2 == |vs|;
  }

  lemma StepEdges(mesh: TriMesh, ids: seq<int>, s: PassState, vs: seq<Visit>, v: Visit)
    requires Fits(mesh, ids, s) && AllInMesh(mesh, vs) && InMesh(mesh, v)
    requires |s.vertices| == |mesh.triangles| + HullCount(mesh, vs)
    requires CornerIds(mesh, ids) && EdgesInv(mesh, ids, vs, s.edges)
    ensures AllInMesh(mesh, vs + [v])
    ensures EdgesInv(mesh, ids, vs + [v], Step(mesh, ids, s, v).edges)
  {
    EndOfAppend(mesh, vs, v);
    var r := Step(mesh, ids, s, v);
    var n := |vs|;
    forall e | 0 <= e < |r.edges|
      ensures r.edges[e] == HalfEdgeAt(mesh, ids, vs + [v], e)
    {
      if e < 2 * n {
        HalfEdgeAtAppend(mesh, ids, vs, v, e);
      } else {
        StepNewHalfEdges(mesh, ids, s, vs, v);
      }
    }
  }

  /**
    The half-edges of the pass over `vs`, started with no half-edges and the
    `count` dual vertices of the triangles, are exactly the ones the handled
    sides yield, two per side, in order.
   */
  lemma {:induction false} RunEdges(mesh: TriMesh, ids: seq<int>, s0: PassState, vs: seq<Visit>)
    requires Fits(mesh, ids, s0) && AllInMesh(mesh, vs)
    requires s0.edges == [] && |s0.vertices| == |mesh.triangles|
    ensures CornerIds(mesh, ids)
    ensures EdgesInv(mesh, ids, vs, Run(mesh, ids, s0, vs).edges)
    decreases |vs|
  {
    CornerIdsOfFit(mesh, ids, |s0.faces|);
    if vs != [] {
      var init := vs[..|vs| - 1];
      var v := vs[|vs| - 1];
      AllInMeshPrefix(mesh, vs, |vs| - 1);
      assert init + [v] == vs;
      RunEdges(mesh, ids, s0, init);
      StepEdges(mesh, ids, Run(mesh, ids, s0, init), init, v);
    }
  }

  lemma HalfEdgeShape(mesh: TriMesh, ids: seq<int>, faceCount: nat, vs: seq<Visit>, e: nat)
    requires Shaped(mesh) && AllInMesh(mesh, vs) && FaceIdsFit(mesh, ids, faceCount)
    requires CornerIds(mesh, ids) && e < 2 * |vs|
    ensures var h := HalfEdgeAt(mesh, ids, vs, e);
      && h.id == e
      && h.twin == Some(if e % 2 == 0 then e + 1 else e - 1)
      && h.next.None?
      && h.origin == Some(if e % 2 == 0 then EndOf(mesh, vs, e / 2) else vs[e / 2].tri)
      && h.origin.value < |mesh.triangles| + HullCount(mesh, vs)
      && h.face.FaceAt? && h.face.index < faceCount
  {
    HullCountPrefix(mesh, vs, e / 2);
    CornersFit(mesh, ids, faceCount, vs[e / 2]);
  }

  /**
    What the closed form says about the half-edges as a DCEL: ids are
    positions, `2q` and `2q + 1` are each other's twins, no `next` is set yet,
    every origin is a vertex of the diagram (a triangle's circumcenter, or on
    the hull the `j`-th infinite vertex `count + j`) and every face is a cell.
   */
  lemma EdgesShape(mesh: TriMesh, ids: seq<int>, faceCount: nat, vs: seq<Visit>, edges: seq<HalfEdge>)
    requires Shaped(mesh) && AllInMesh(mesh, vs) && FaceIdsFit(mesh, ids, faceCount)
    requires CornerIds(mesh, ids) && EdgesInv(mesh, ids, vs, edges)
    ensures |edges| % 2 == 0
    ensures forall e :: 0 <= e < |edges| ==>
      && edges[e].id == e
      && edges[e].twin == Some(if e % 2 == 0 then e + 1 else e - 1)
      && edges[e].next.None?
      && edges[e].origin == Some(if e % 2 == 0 then EndOf(mesh, vs, e / 2) else vs[e / 2].tri)
      && edges[e].origin.value < |mesh.triangles| + HullCount(mesh, vs)
      && edges[e].face.FaceAt? && edges[e].face.index < faceCount
  {
    forall e | 0 <= e < |edges|
      ensures && edges[e].id == e
        && edges[e].twin == Some(if e % 2 == 0 then e + 1 else e - 1)
        && edges[e].next.None?
        && edges[e].origin == Some(if e % 2 == 0 then EndOf(mesh, vs, e / 2) else vs[e / 2].tri)
        && edges[e].origin.value < |mesh.triangles| + HullCount(mesh, vs)
        && edges[e].face.FaceAt? && edges[e].face.index < faceCount
    {
      HalfEdgeShape(mesh, ids, faceCount, vs, e);
    }
  }
}
