/**
  `VoronoiBase.ComputeEdges`: the loop over the triangles and their three
  sides, and everything the finished pass establishes.
 */
module VoronoiEdges {
  import opened Common
  import opened Dcel
  import opened Primal
  import opened VoronoiPass
  import opened PassEdges
  import opened PassVertices
  import opened PassFaces

  /**
    The state the edge pass starts from: one dual vertex per triangle with its
    own id and no `leaving`, fresh bounded faces without edges, empty buckets,
    no half-edges and no rays.
   */
  predicate Initial(mesh: TriMesh, ids: seq<int>, s0: PassState)
  {
    && Fits(mesh, ids, s0)
    && |s0.vertices| == |mesh.triangles|
    && (forall x :: 0 <= x < |s0.vertices| ==> s0.vertices[x].leaving.None? && s0.vertices[x].id == x)
    && s0.edges == [] && s0.rays == []
    && (forall x :: 0 <= x < |s0.buckets| ==> s0.buckets[x] == [])
    && (forall f :: 0 <= f < |s0.faces| ==> s0.faces[f] == Face(f, f, true, None))
  }

  /** What the pass over every handled side establishes, with `base` the dual vertices it started from. */
  predicate Built(mesh: TriMesh, ids: seq<int>, base: seq<Vertex>, s: PassState)
    requires Shaped(mesh) && |base| == |mesh.triangles|
  {
    VisitsInMesh(mesh);
    var vs := Visits(mesh);
    && CornerIds(mesh, ids)
    && EdgesInv(mesh, ids, vs, s.edges)
    && BucketsInv(s) && LeavingInv(s)
    && VerticesInv(mesh, base, vs, s)
    && FacesInv(mesh, s)
    && RaysInv(mesh, vs, s)
  }

  /** The pass over every handled side, started from an initial state, establishes `Built`. */
  lemma RunBuilt(mesh: TriMesh, ids: seq<int>, s0: PassState)
    requires Initial(mesh, ids, s0)
    ensures (VisitsInMesh(mesh); Built(mesh, ids, s0.vertices, Run(mesh, ids, s0, Visits(mesh))))
  {
    VisitsInMesh(mesh);
    var vs := Visits(mesh);
    RunEdges(mesh, ids, s0, vs);
    RunLeaving(mesh, ids, s0, vs);
    RunVertices(mesh, ids, s0, vs);
    RunFaces(mesh, ids, s0, vs);
    RunRays(mesh, ids, s0, vs);
  }

  /** Side `i` of triangle `t` extends the handled sides exactly when the test selects it. */
  lemma SidesStep(mesh: TriMesh, t: nat, i: nat)
    requires Shaped(mesh) && t < |mesh.triangles| && i < 3
    ensures VisitsBefore(mesh, t) + SidesUpTo(mesh, t, i + 1) ==
      (VisitsBefore(mesh, t) + SidesUpTo(mesh, t, i)) + (if Selected(mesh, Visit(t, i)) then [Visit(t, i)] else [])
  {
    var a, b := VisitsBefore(mesh, t), SidesUpTo(mesh, t, i);
    if Selected(mesh, Visit(t, i)) {
      assert a + (b + [Visit(t, i)]) == (a + b) + [Visit(t, i)];
    }
  }

  /** Appending a handled side to the sides the pass has handled applies one more step. */
  lemma RunSnoc(mesh: TriMesh, ids: seq<int>, s0: PassState, ws: seq<Visit>, v: Visit)
    requires Fits(mesh, ids, s0) && AllInMesh(mesh, ws + [v])
    ensures AllInMesh(mesh, ws) && InMesh(mesh, v)
    ensures Run(mesh, ids, s0, ws + [v]) == Step(mesh, ids, Run(mesh, ids, s0, ws), v)
  {
    assert (ws + [v])[..|ws|] == ws && (ws + [v])[|ws|] == v;
    RunLast(mesh, ids, s0, ws + [v]);
  }

  lemma HandleSide(mesh: TriMesh, ids: seq<int>, s0: PassState, t: nat, i: nat)
    requires Fits(mesh, ids, s0) && t < |mesh.triangles| && i < 3
    ensures AllSelected(mesh, VisitsBefore(mesh, t) + SidesUpTo(mesh, t, i))
    ensures AllSelected(mesh, VisitsBefore(mesh, t) + SidesUpTo(mesh, t, i + 1))
    ensures Selected(mesh, Visit(t, i)) ==>
      Run(mesh, ids, s0, VisitsBefore(mesh, t) + SidesUpTo(mesh, t, i + 1))
        == Step(mesh, ids, Run(mesh, ids, s0, VisitsBefore(mesh, t) + SidesUpTo(mesh, t, i)), Visit(t, i))
    ensures !Selected(mesh, Visit(t, i)) ==>
      VisitsBefore(mesh, t) + SidesUpTo(mesh, t, i + 1) == VisitsBefore(mesh, t) + SidesUpTo(mesh, t, i)
  {
    HandledSoFar(mesh, t, i);
    HandledSoFar(mesh, t, i + 1);
    SidesStep(mesh, t, i);
    var ws := VisitsBefore(mesh, t) + SidesUpTo(mesh, t, i);
    var v := Visit(t, i);
    if Selected(mesh, v) {
      RunSnoc(mesh, ids, s0, ws, v);
    } else {
      assert ws + [] == ws;
    }
  }

  /** The inner loop of `ComputeEdges` over the three sides of triangle `t`. */
  method HandleTriangle(mesh: TriMesh, ids: seq<int>, s0: PassState, t: nat, s: PassState) returns (r: PassState)
    requires Fits(mesh, ids, s0) && t < |mesh.triangles|
    requires AllInMesh(mesh, VisitsBefore(mesh, t)) && s == Run(mesh, ids, s0, VisitsBefore(mesh, t))
    ensures AllInMesh(mesh, VisitsBefore(mesh, t + 1)) && r == Run(mesh, ids, s0, VisitsBefore(mesh, t + 1))
  {
    assert VisitsBefore(mesh, t) + SidesUpTo(mesh, t, 0) == VisitsBefore(mesh, t);
    HandledSoFar(mesh, t, 0);
    r := s;
    var i := 0;
    while i < 3
      invariant i <= 3
      invariant AllSelected(mesh, VisitsBefore(mesh, t) + SidesUpTo(mesh, t, i))
      invariant r == Run(mesh, ids, s0, VisitsBefore(mesh, t) + SidesUpTo(mesh, t, i))
    {
      var v := Visit(t, i);
      var nid := Neighbor(mesh, v);
      HandleSide(mesh, ids, s0, t, i);
      if t < nid || nid < 0 {
        r := Step(mesh, ids, r, v);
      }
      i := i + 1;
    }
    assert VisitsBefore(mesh, t + 1) == VisitsBefore(mesh, t) + SidesUpTo(mesh, t, 3);
  }

  /**
    `ComputeEdges`: for every triangle `t` in id order and every orientation
    `i`, the side is handled when `id < nid || nid < 0`; the result is the
    step applied to the handled sides in that order, and satisfies `Built`.
   */
  method ComputeEdges(mesh: TriMesh, ids: seq<int>, s0: PassState) returns (s: PassState)
    requires Initial(mesh, ids, s0)
    ensures Fits(mesh, ids, s)
    ensures (VisitsInMesh(mesh); s == Run(mesh, ids, s0, Visits(mesh)))
    ensures Built(mesh, ids, s0.vertices, s)
  {
    s := s0;
    var t := 0;
    while t < |mesh.triangles|
      invariant t <= |mesh.triangles|
      invariant AllInMesh(mesh, VisitsBefore(mesh, t))
      invariant s == Run(mesh, ids, s0, VisitsBefore(mesh, t))
    {
      s := HandleTriangle(mesh, ids, s0, t, s);
      t := t + 1;
    }
    RunBuilt(mesh, ids, s0);
  }
}
