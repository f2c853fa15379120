/**
  The Voronoi faces and the list of rays during the edge pass.
 */
module PassFaces {
  import opened Common
  import opened Dcel
  import opened Primal
  import opened VoronoiPass

  /** The half-edge starts at an infinite vertex: one with an id from `count` on. */
  predicate Infinite(mesh: TriMesh, h: HalfEdge)
  {
    h.origin.Some? && h.origin.value >= |mesh.triangles|
  }

  /**
    Face `f` keeps its id and generator `f`; its `edge` is a half-edge on it,
    and is unset only while it has none; it is unbounded exactly when one of
    its half-edges starts at an infinite vertex, and then `edge` is such a
    half-edge; while it is bounded `edge` is its first half-edge.
   */
  predicate CellOk(mesh: TriMesh, edges: seq<HalfEdge>, faces: seq<Face>, f: nat)
    requires f < |faces|
  {
    var face := faces[f];
    && face.id == f && face.generator == f
    && (face.edge.Some? ==> face.edge.value < |edges| && edges[face.edge.value].face == FaceAt(f))
    && (face.edge.None? ==> forall e :: 0 <= e < |edges| ==> edges[e].face != FaceAt(f))
    && (face.bounded ==> forall e :: 0 <= e < |edges| && edges[e].face == FaceAt(f) ==> !Infinite(mesh, edges[e]))
    && (!face.bounded ==> face.edge.Some? && face.edge.value < |edges| && Infinite(mesh, edges[face.edge.value]))
    && (face.bounded && face.edge.Some? ==> forall e :: 0 <= e < face.edge.value ==> edges[e].face != FaceAt(f))
  }

  predicate FaceOk(mesh: TriMesh, s: PassState, f: nat)
    requires f < |s.faces|
  {
    CellOk(mesh, s.edges, s.faces, f)
  }

  predicate FacesInv(mesh: TriMesh, s: PassState)
  {
    forall f :: 0 <= f < |s.faces| ==> FaceOk(mesh, s, f)
  }

  /** The faces after a step: both new half-edges claim their faces, and a hull side unbinds the face of `org`. */
  function StepCells(faces: seq<Face>, k: nat, face: nat, neighborFace: nat, hull: bool): seq<Face>
    requires face < |faces| && neighborFace < |faces|
  {
    var claimed := Claim(Claim(faces, face, k), neighborFace, k + 1);
    if hull then claimed[face := claimed[face].(edge := Some(k), bounded := false)] else claimed
  }

  lemma StepShape(mesh: TriMesh, ids: seq<int>, s: PassState, v: Visit)
    requires Fits(mesh, ids, s) && InMesh(mesh, v)
    ensures var r := Step(mesh, ids, s, v);
      var k := |s.edges|;
      var face, neighborFace := FaceOf(mesh, ids, Org(mesh, v)), FaceOf(mesh, ids, Dest(mesh, v));
      && face < |s.faces| && neighborFace < |s.faces|
      && r.edges == s.edges + [r.edges[k], r.edges[k + 1]]
      && r.edges[k].face == FaceAt(face) && r.edges[k + 1].face == FaceAt(neighborFace)
      && !Infinite(mesh, r.edges[k + 1])
      && Infinite(mesh, r.edges[k]) == Hull(mesh, v)
      && r.faces == StepCells(s.faces, k, face, neighborFace, Hull(mesh, v))
  {
    CornersFit(mesh, ids, |s.faces|, v);
  }

  /** A face that is right before the two half-edges `a` and `b` are added is right after. */
  lemma CellAfter(mesh: TriMesh, edges: seq<HalfEdge>, faces: seq<Face>, a: HalfEdge, b: HalfEdge,
                  face: nat, neighborFace: nat, hull: bool, f: nat)
    requires face < |faces| && neighborFace < |faces| && f < |faces|
    requires CellOk(mesh, edges, faces, f)
    requires a.face == FaceAt(face) && b.face == FaceAt(neighborFace)
    requires !Infinite(mesh, b) && Infinite(mesh, a) == hull
    ensures CellOk(mesh, edges + [a, b], StepCells(faces, |edges|, face, neighborFace, hull), f)
  {
    var k := |edges|;
    var faces2 := Claim(Claim(faces, face, k), neighborFace, k + 1);
    if hull && f == face {
      assert StepCells(faces, k, face, neighborFace, hull)[f] == faces2[f].(edge := Some(k), bounded := false);
    } else {
      assert StepCells(faces, k, face, neighborFace, hull)[f] == faces2[f];
    }
  }

  lemma StepFaceAt(mesh: TriMesh, ids: seq<int>, s: PassState, v: Visit, f: nat)
    requires Fits(mesh, ids, s) && InMesh(mesh, v) && f < |s.faces| && FaceOk(mesh, s, f)
    ensures FaceOk(mesh, Step(mesh, ids, s, v), f)
  {
    StepShape(mesh, ids, s, v);
    var r := Step(mesh, ids, s, v);
    var k := |s.edges|;
    CellAfter(mesh, s.edges, s.faces, r.edges[k], r.edges[k + 1],
              FaceOf(mesh, ids, Org(mesh, v)), FaceOf(mesh, ids, Dest(mesh, v)), Hull(mesh, v), f);
  }

  lemma StepFaces(mesh: TriMesh, ids: seq<int>, s: PassState, v: Visit)
    requires Fits(mesh, ids, s) && InMesh(mesh, v) && FacesInv(mesh, s)
    ensures FacesInv(mesh, Step(mesh, ids, s, v))
  {
    forall f | 0 <= f < |s.faces|
      ensures FaceOk(mesh, Step(mesh, ids, s, v), f)
    {
      StepFaceAt(mesh, ids, s, v, f);
    }
  }

  /** The ids `2q + 1` of the twins of the handled sides `vs[q]` on the hull: the rays, in order. */
  function HullTwins(mesh: TriMesh, vs: seq<Visit>): (r: seq<nat>)
    requires Shaped(mesh) && AllInMesh(mesh, vs)
    ensures |r| == HullCount(mesh, vs)
  {
    if vs == [] then []
    else
      var n := |vs| - 1;
      AllInMeshPrefix(mesh, vs, n);
      var rest := HullTwins(mesh, vs[..n]);
      if Hull(mesh, vs[n]) then rest + [2 * n + 1] else rest
  }

  /** Every entry of `r` is the twin id of a handled side on the hull, and `r` is increasing. */
  predicate RaysOk(mesh: TriMesh, vs: seq<Visit>, r: seq<nat>)
    requires Shaped(mesh) && AllInMesh(mesh, vs)
  {
    && (forall i :: 0 <= i < |r| ==> r[i] % 2 == 1 && r[i] / 2 < |vs| && Hull(mesh, vs[r[i] / 2]))
    && (forall i, j :: 0 <= i < j < |r| ==> r[i] < r[j])
  }

  lemma {:induction false} HullTwinsSound(mesh: TriMesh, vs: seq<Visit>)
    requires Shaped(mesh) && AllInMesh(mesh, vs)
    ensures RaysOk(mesh, vs, HullTwins(mesh, vs))
    decreases |vs|
  {
    if vs != [] {
      var n := |vs| - 1;
      AllInMeshPrefix(mesh, vs, n);
      HullTwinsSound(mesh, vs[..n]);
      var rest := HullTwins(mesh, vs[..n]);
      forall i | 0 <= i < |rest|
        ensures rest[i] % 2 == 1 && rest[i] / 2 < |vs| && Hull(mesh, vs[rest[i] / 2])
      {
        var j := rest[i] / 2;
        assert j < n && Hull(mesh, vs[..n][j]);
        assert vs[..n][j] == vs[j];
      }
    }
  }

  /** Every handled side on the hull contributes its twin to the rays. */
  lemma {:induction false} HullTwinsComplete(mesh: TriMesh, vs: seq<Visit>, q: nat)
    requires Shaped(mesh) && AllInMesh(mesh, vs) && q < |vs| && Hull(mesh, vs[q])
    ensures 2 * q + 1 in HullTwins(mesh, vs)
    decreases |vs|
  {
    var n := |vs| - 1;
    AllInMeshPrefix(mesh, vs, n);
    if q < n {
      assert vs[..n][q] == vs[q];
      HullTwinsComplete(mesh, vs[..n], q);
    }
  }

  /**
    The faces of the pass over `vs`, started with no half-edges and fresh
    bounded faces without edges, keep `FaceOk`.
   */
  lemma {:induction false} RunFaces(mesh: TriMesh, ids: seq<int>, s0: PassState, vs: seq<Visit>)
    requires Fits(mesh, ids, s0) && AllInMesh(mesh, vs)
    requires s0.edges == []
    requires forall f :: 0 <= f < |s0.faces| ==> s0.faces[f] == Face(f, f, true, None)
    ensures FacesInv(mesh, Run(mesh, ids, s0, vs))
    decreases |vs|
  {
    if vs != [] {
      var n := |vs| - 1;
      AllInMeshPrefix(mesh, vs, n);
      RunFaces(mesh, ids, s0, vs[..n]);
      StepFaces(mesh, ids, Run(mesh, ids, s0, vs[..n]), vs[n]);
    } else {
      assert forall f :: 0 <= f < |s0.faces| ==> FaceOk(mesh, s0, f);
    }
  }

  /** The rays so far are the twins of the hull sides among the handled sides `vs`. */
  predicate RaysInv(mesh: TriMesh, vs: seq<Visit>, s: PassState)
    requires Shaped(mesh) && AllInMesh(mesh, vs)
  {
    |s.edges| == 2 * |vs| && s.rays == HullTwins(mesh, vs)
  }

  lemma StepRays(mesh: TriMesh, ids: seq<int>, s: PassState, vs: seq<Visit>, v: Visit)
    requires Fits(mesh, ids, s) && AllInMesh(mesh, vs) && InMesh(mesh, v) && RaysInv(mesh, vs, s)
    ensures AllInMesh(mesh, vs + [v])
    ensures RaysInv(mesh, vs + [v], Step(mesh, ids, s, v))
  {
    HullCountAppend(mesh, vs, v);
    assert (vs + [v])[..|vs|] == vs;
  }

  /** The rays of the pass over `vs`, started with none, are the twins of the hull sides in order. */
  lemma {:induction false} RunRays(mesh: TriMesh, ids: seq<int>, s0: PassState, vs: seq<Visit>)
    requires Fits(mesh, ids, s0) && AllInMesh(mesh, vs)
    requires s0.edges == [] && s0.rays == []
    ensures RaysInv(mesh, vs, Run(mesh, ids, s0, vs))
    decreases |vs|
  {
    if vs != [] {
      var n := |vs| - 1;
      AllInMeshPrefix(mesh, vs, n);
      assert vs[..n] + [vs[n]] == vs;
      RunRays(mesh, ids, s0, vs[..n]);
      StepRays(mesh, ids, Run(mesh, ids, s0, vs[..n]), vs[..n], vs[n]);
    }
  }
}
