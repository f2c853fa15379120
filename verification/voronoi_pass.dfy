/**
  The edge pass of `VoronoiBase.ComputeEdges`, one handled side at a time.

  The pass keeps the dual vertices (the circumcenters, followed by one
  infinite vertex per hull side handled so far), the half-edges, the faces,
  the per-vertex buckets of leaving half-edges (`map`) and the list of rays.
  `Step` is the body of the inner loop for a side the test `id < nid || nid < 0`
  selects; `Run` applies it to a sequence of sides.
 */
module VoronoiPass {
  import opened Common
  import opened Dcel
  import opened Primal

  datatype PassState = PassState(
    vertices: seq<Vertex>,
    edges: seq<HalfEdge>,
    faces: seq<Face>,
    buckets: seq<seq<nat>>,
    rays: seq<nat>)

  /** Every corner of every triangle has been renumbered to the id of an existing face. */
  predicate FaceIdsFit(mesh: TriMesh, ids: seq<int>, faceCount: nat)
    requires Shaped(mesh)
  {
    && |ids| == |mesh.vertices|
    && forall t, k :: 0 <= t < |mesh.triangles| && 0 <= k < 3 ==>
         0 <= ids[mesh.triangles[t].corners[k]] < faceCount
  }

  /** Every corner of every triangle has been renumbered to a non-negative id. */
  predicate CornerIds(mesh: TriMesh, ids: seq<int>)
    requires Shaped(mesh)
  {
    && |ids| == |mesh.vertices|
    && forall t, k :: 0 <= t < |mesh.triangles| && 0 <= k < 3 ==> 0 <= ids[mesh.triangles[t].corners[k]]
  }

  lemma CornerIdsOfFit(mesh: TriMesh, ids: seq<int>, faceCount: nat)
    requires Shaped(mesh) && FaceIdsFit(mesh, ids, faceCount)
    ensures CornerIds(mesh, ids)
  {
  }

  lemma CornersNonNegative(mesh: TriMesh, ids: seq<int>, v: Visit)
    requires Shaped(mesh) && CornerIds(mesh, ids) && InMesh(mesh, v)
    ensures Org(mesh, v) < |mesh.vertices| && 0 <= ids[Org(mesh, v)]
    ensures Dest(mesh, v) < |mesh.vertices| && 0 <= ids[Dest(mesh, v)]
  {
    assert Org(mesh, v) == mesh.triangles[v.tri].corners[(v.orient + 1) % 3];
    assert Dest(mesh, v) == mesh.triangles[v.tri].corners[(v.orient + 2) % 3];
  }

  /** What the loop body needs to index: a face per corner id, a vertex and a bucket per triangle. */
  predicate Fits(mesh: TriMesh, ids: seq<int>, s: PassState)
  {
    && Shaped(mesh)
    && FaceIdsFit(mesh, ids, |s.faces|)
    && |s.vertices| >= |mesh.triangles|
    && |s.buckets| == |mesh.triangles|
  }

  /** The face of the cell of a corner: `faces[org.id]`. */
  function FaceOf(mesh: TriMesh, ids: seq<int>, corner: nat): nat
    requires Shaped(mesh) && corner < |mesh.vertices| && |ids| == |mesh.vertices| && ids[corner] >= 0
  {
    ids[corner] as nat
  }

  lemma CornersFit(mesh: TriMesh, ids: seq<int>, faceCount: nat, v: Visit)
    requires Shaped(mesh) && FaceIdsFit(mesh, ids, faceCount) && InMesh(mesh, v)
    ensures Org(mesh, v) < |mesh.vertices| && 0 <= ids[Org(mesh, v)] < faceCount
    ensures Dest(mesh, v) < |mesh.vertices| && 0 <= ids[Dest(mesh, v)] < faceCount
  {
    assert Org(mesh, v) == mesh.triangles[v.tri].corners[(v.orient + 1) % 3];
    assert Dest(mesh, v) == mesh.triangles[v.tri].corners[(v.orient + 2) % 3];
  }

  /** `new HalfEdge(origin, face)` makes itself the face's edge when the face has none yet. */
  function Claim(faces: seq<Face>, f: nat, e: nat): (r: seq<Face>)
    requires f < |faces|
    ensures |r| == |faces|
    ensures forall g :: 0 <= g < |r| && g != f ==> r[g] == faces[g]
    ensures r[f] == if faces[f].edge.None? then faces[f].(edge := Some(e)) else faces[f]
  {
    if faces[f].edge.None? then faces[f := faces[f].(edge := Some(e))] else faces
  }

  /**
    The inner loop body for side `v` of the triangle with id `v.tri`: two new
    half-edges `edge` (from the far end, on the face of `org`) and `twin` (from
    the triangle's circumcenter, on the face of `dest`) with ids `k` and `k + 1`.
    On the hull the far end is a new infinite vertex at the circumcenter plus
    the ray offset, with id `count + j`, stored at the next free slot of the
    vertex array; the face of `org` becomes unbounded and `twin` becomes a ray.
   */
  function Step(mesh: TriMesh, ids: seq<int>, s: PassState, v: Visit): (r: PassState)
    requires Fits(mesh, ids, s) && InMesh(mesh, v)
    ensures Fits(mesh, ids, r)
    ensures |r.faces| == |s.faces| && |r.edges| == |s.edges| + 2
    ensures |r.vertices| == |s.vertices| + (if Hull(mesh, v) then 1 else 0)
  {
    CornersFit(mesh, ids, |s.faces|, v);
    var id := v.tri;
    var nid := Neighbor(mesh, v);
    var org := Org(mesh, v);
    var dest := Dest(mesh, v);
    var face := FaceOf(mesh, ids, org);
    var neighborFace := FaceOf(mesh, ids, dest);
    var vertex := s.vertices[id];
    var k := |s.edges|;
    // the constructors of `edge` and `twin` claim their faces in that order
    var faces := Claim(Claim(s.faces, face, k), neighborFace, k + 1);
    if nid < 0 then
      var off := RayOffset(mesh.vertices[org].pos, mesh.vertices[dest].pos);
      var endId := |s.vertices|;
      // factory.CreateVertex gives label 0; `end.leaving = edge`
      var end := Vertex(endId, vertex.x + off.x, vertex.y + off.y, 0, Some(k));
      var edge := HalfEdge(k, Some(endId), Some(k + 1), None, FaceAt(face));
      var twin := HalfEdge(k + 1, Some(id), Some(k), None, FaceAt(neighborFace));
      PassState(
        s.vertices[id := vertex.(leaving := Some(k + 1))] + [end],
        s.edges + [edge, twin],
        faces[face := faces[face].(edge := Some(k), bounded := false)],
        s.buckets[id := s.buckets[id] + [k + 1]],
        s.rays + [k + 1])
    else
      var edge := HalfEdge(k, Some(nid as nat), Some(k + 1), None, FaceAt(face));
      var twin := HalfEdge(k + 1, Some(id), Some(k), None, FaceAt(neighborFace));
      var vertices := s.vertices[id := vertex.(leaving := Some(k + 1))];
      var buckets := s.buckets[nid := s.buckets[nid] + [k]];
      PassState(
        vertices[nid := vertices[nid].(leaving := Some(k))],
        s.edges + [edge, twin],
        faces,
        buckets[id := buckets[id] + [k + 1]],
        s.rays)
  }

  lemma AllInMeshPrefix(mesh: TriMesh, vs: seq<Visit>, n: nat)
    requires AllInMesh(mesh, vs) && n <= |vs|
    ensures AllInMesh(mesh, vs[..n])
  {
    assert forall q :: 0 <= q < n ==> vs[..n][q] == vs[q];
  }

  /** The pass over the sides `vs`, starting from `s0`. */
  function Run(mesh: TriMesh, ids: seq<int>, s0: PassState, vs: seq<Visit>): (r: PassState)
    requires Fits(mesh, ids, s0) && AllInMesh(mesh, vs)
    ensures Fits(mesh, ids, r)
    ensures |r.faces| == |s0.faces| && |r.edges| == |s0.edges| + 2 * |vs|
    ensures |r.vertices| == |s0.vertices| + HullCount(mesh, vs)
    decreases |vs|
  {
    if vs == [] then s0
    else
      AllInMeshPrefix(mesh, vs, |vs| - 1);
      Step(mesh, ids, Run(mesh, ids, s0, vs[..|vs| - 1]), vs[|vs| - 1])
  }

  lemma RunLast(mesh: TriMesh, ids: seq<int>, s0: PassState, vs: seq<Visit>)
    requires Fits(mesh, ids, s0) && AllInMesh(mesh, vs) && vs != []
    ensures AllInMesh(mesh, vs[..|vs| - 1])
    ensures Run(mesh, ids, s0, vs) == Step(mesh, ids, Run(mesh, ids, s0, vs[..|vs| - 1]), vs[|vs| - 1])
  {
    AllInMeshPrefix(mesh, vs, |vs| - 1);
  }

  // ---------------------------------------------------------------------
  // The half-edges the pass creates, in closed form.
  // ---------------------------------------------------------------------

  lemma HullCountPrefix(mesh: TriMesh, vs: seq<Visit>, q: nat)
    requires Shaped(mesh) && AllInMesh(mesh, vs) && q < |vs|
    ensures AllInMesh(mesh, vs[..q])
    ensures HullCount(mesh, vs[..q]) + (if Hull(mesh, vs[q]) then 1 else 0) <= HullCount(mesh, vs)
    decreases |vs|
  {
    AllInMeshPrefix(mesh, vs, q);
    AllInMeshPrefix(mesh, vs, |vs| - 1);
    var init := vs[..|vs| - 1];
    if q < |vs| - 1 {
      assert init[..q] == vs[..q];
      HullCountPrefix(mesh, init, q);
    } else {
      assert init == vs[..q];
    }
  }

  lemma HullCountAppend(mesh: TriMesh, vs: seq<Visit>, v: Visit)
    requires Shaped(mesh) && AllInMesh(mesh, vs) && InMesh(mesh, v)
    ensures AllInMesh(mesh, vs + [v])
    ensures HullCount(mesh, vs + [v]) == HullCount(mesh, vs) + (if Hull(mesh, v) then 1 else 0)
    ensures forall q :: 0 <= q <= |vs| ==> (vs + [v])[..q] == vs[..q]
  {
    assert (vs + [v])[..|vs|] == vs;
  }

  /**
    The far end of the `q`-th handled side: the triangle across it, or on the
    hull the infinite vertex `count + j` where `j` counts the hull sides before it.
   */
  function EndOf(mesh: TriMesh, vs: seq<Visit>, q: nat): nat
    requires Shaped(mesh) && AllInMesh(mesh, vs) && q < |vs|
  {
    AllInMeshPrefix(mesh, vs, q);
    if Hull(mesh, vs[q]) then |mesh.triangles| + HullCount(mesh, vs[..q])
    else Neighbor(mesh, vs[q]) as nat
  }

  lemma EndOfAppend(mesh: TriMesh, vs: seq<Visit>, v: Visit)
    requires Shaped(mesh) && AllInMesh(mesh, vs) && InMesh(mesh, v)
    ensures AllInMesh(mesh, vs + [v])
    ensures forall q :: 0 <= q < |vs| ==> EndOf(mesh, vs + [v], q) == EndOf(mesh, vs, q)
    ensures Hull(mesh, v) ==> EndOf(mesh, vs + [v], |vs|) == |mesh.triangles| + HullCount(mesh, vs)
    ensures !Hull(mesh, v) ==> EndOf(mesh, vs + [v], |vs|) == Neighbor(mesh, v)
  {
    HullCountAppend(mesh, vs, v);
  }

  /** The half-edge `edge` the `q`-th handled side yields, with id `2 * q`. */
  function EdgeAt(mesh: TriMesh, ids: seq<int>, vs: seq<Visit>, q: nat): HalfEdge
    requires Shaped(mesh) && AllInMesh(mesh, vs) && q < |vs|
    requires CornerIds(mesh, ids)
  {
    CornersNonNegative(mesh, ids, vs[q]);
    HalfEdge(2 * q, Some(EndOf(mesh, vs, q)), Some(2 * q + 1), None, FaceAt(FaceOf(mesh, ids, Org(mesh, vs[q]))))
  }

  /** The half-edge `twin` the `q`-th handled side yields, with id `2 * q + 1`. */
  function TwinAt(mesh: TriMesh, ids: seq<int>, vs: seq<Visit>, q: nat): HalfEdge
    requires Shaped(mesh) && AllInMesh(mesh, vs) && q < |vs|
    requires CornerIds(mesh, ids)
  {
    CornersNonNegative(mesh, ids, vs[q]);
    HalfEdge(2 * q + 1, Some(vs[q].tri), Some(2 * q), None, FaceAt(FaceOf(mesh, ids, Dest(mesh, vs[q]))))
  }
}
