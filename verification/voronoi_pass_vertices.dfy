/**
  The dual vertices, their `leaving` half-edges and the buckets `map` of
  leaving half-edges during the edge pass.
 */
module PassVertices {
  import opened Common
  import opened Dcel
  import opened Primal
  import opened VoronoiPass

  /** The ids of the half-edges that start at vertex `x`, in increasing order. */
  function Leaving(edges: seq<HalfEdge>, x: nat): (r: seq<nat>)
    ensures |r| <= |edges|
  {
    if edges == [] then []
    else
      var n := |edges| - 1;
      var rest := Leaving(edges[..n], x);
      if edges[n].origin == Some(x) then rest + [n] else rest
  }

  /** Every entry of `r` is a half-edge of `edges` starting at `x`, and `r` is increasing. */
  predicate LeavingOk(edges: seq<HalfEdge>, x: nat, r: seq<nat>)
  {
    && (forall i :: 0 <= i < |r| ==> r[i] < |edges| && edges[r[i]].origin == Some(x))
    && (forall i, j :: 0 <= i < j < |r| ==> r[i] < r[j])
  }

  lemma {:induction false} LeavingSound(edges: seq<HalfEdge>, x: nat)
    ensures LeavingOk(edges, x, Leaving(edges, x))
    decreases |edges|
  {
    if edges != [] {
      var n := |edges| - 1;
      LeavingSound(edges[..n], x);
    }
  }

  /** No half-edge starting at `x` is missing from `Leaving(edges, x)`. */
  lemma {:induction false} LeavingComplete(edges: seq<HalfEdge>, x: nat, e: nat)
    requires e < |edges| && edges[e].origin == Some(x)
    ensures e in Leaving(edges, x)
    decreases |edges|
  {
    var n := |edges| - 1;
    if e < n {
      LeavingComplete(edges[..n], x, e);
    }
  }

  /** The last element of `r`, if any. */
  function Last(r: seq<nat>): Option<nat>
  {
    if r == [] then None else Some(r[|r| - 1])
  }

  lemma LeavingSnoc(edges: seq<HalfEdge>, a: HalfEdge, x: nat)
    ensures Leaving(edges + [a], x) == Leaving(edges, x) + (if a.origin == Some(x) then [|edges|] else [])
  {
    assert (edges + [a])[..|edges|] == edges;
  }

  lemma LeavingAppend(edges: seq<HalfEdge>, a: HalfEdge, b: HalfEdge, x: nat)
    ensures Leaving(edges + [a, b], x)
      == Leaving(edges, x) + (if a.origin == Some(x) then [|edges|] else []) + (if b.origin == Some(x) then [|edges| + 1] else [])
  {
    assert edges + [a, b] == (edges + [a]) + [b];
    LeavingSnoc(edges + [a], b, x);
    LeavingSnoc(edges, a, x);
  }

  /** Each bucket holds the half-edges leaving its dual vertex, in creation order. */
  predicate BucketsInv(s: PassState)
  {
    forall x :: 0 <= x < |s.buckets| ==> s.buckets[x] == Leaving(s.edges, x)
  }

  /** Each vertex's `leaving` is the last half-edge created from it, and is unset while there is none. */
  predicate LeavingInv(s: PassState)
  {
    forall x :: 0 <= x < |s.vertices| ==> s.vertices[x].leaving == Last(Leaving(s.edges, x))
  }

  lemma StepBuckets(mesh: TriMesh, ids: seq<int>, s: PassState, v: Visit)
    requires Fits(mesh, ids, s) && InMesh(mesh, v) && Selected(mesh, v) && BucketsInv(s)
    ensures BucketsInv(Step(mesh, ids, s, v))
  {
    var r := Step(mesh, ids, s, v);
    var k := |s.edges|;
    StepLeavingShape(mesh, ids, s, v);
    forall x | 0 <= x < |r.buckets|
      ensures r.buckets[x] == Leaving(r.edges, x)
    {
      LeavingAppend(s.edges, r.edges[k], r.edges[k + 1], x);
    }
  }

  /** What `Step` does to the half-edges and the `leaving` pointers. */
  lemma StepLeavingShape(mesh: TriMesh, ids: seq<int>, s: PassState, v: Visit)
    requires Fits(mesh, ids, s) && InMesh(mesh, v) && Selected(mesh, v)
    ensures var r := Step(mesh, ids, s, v);
      && |r.edges| == |s.edges| + 2
      && r.edges == s.edges + [r.edges[|s.edges|], r.edges[|s.edges| + 1]]
      && r.edges[|s.edges| + 1].origin == Some(v.tri)
      && (Hull(mesh, v) ==> r.edges[|s.edges|].origin == Some(|s.vertices|))
      && (!Hull(mesh, v) ==> r.edges[|s.edges|].origin == Some(Neighbor(mesh, v) as nat) && v.tri < Neighbor(mesh, v))
  {
  }

  lemma StepLeavingAt(mesh: TriMesh, ids: seq<int>, s: PassState, v: Visit, x: nat)
    requires Fits(mesh, ids, s) && InMesh(mesh, v) && Selected(mesh, v) && LeavingInv(s)
    requires x < |Step(mesh, ids, s, v).vertices|
    ensures Step(mesh, ids, s, v).vertices[x].leaving == Last(Leaving(Step(mesh, ids, s, v).edges, x))
  {
    var r := Step(mesh, ids, s, v);
    var k := |s.edges|;
    StepLeavingShape(mesh, ids, s, v);
    LeavingAppend(s.edges, r.edges[k], r.edges[k + 1], x);
    if Hull(mesh, v) {
      if x == |s.vertices| {
        assert r.vertices[x].leaving == Some(k);
      } else if x == v.tri {
        assert r.vertices[x].leaving == Some(k + 1);
      } else {
        assert r.vertices[x] == s.vertices[x];
      }
    } else {
      if x == v.tri {
        assert r.vertices[x].leaving == Some(k + 1);
      } else if x == Neighbor(mesh, v) {
        assert r.vertices[x].leaving == Some(k);
      } else {
        assert r.vertices[x] == s.vertices[x];
      }
    }
  }

  lemma StepLeaving(mesh: TriMesh, ids: seq<int>, s: PassState, v: Visit)
    requires Fits(mesh, ids, s) && InMesh(mesh, v) && Selected(mesh, v) && LeavingInv(s)
    ensures LeavingInv(Step(mesh, ids, s, v))
  {
    var r := Step(mesh, ids, s, v);
    forall x | 0 <= x < |r.vertices|
      ensures r.vertices[x].leaving == Last(Leaving(r.edges, x))
    {
      StepLeavingAt(mesh, ids, s, v, x);
    }
  }

  /**
    The buckets and the `leaving` pointers of the pass over handled sides,
    started with no half-edges, empty buckets and unset pointers: every bucket
    entry starts at the bucket's vertex and every half-edge from a finite dual
    vertex is in that vertex's bucket, and `leaving` is a half-edge starting at
    its vertex exactly when one exists.
   */
  lemma {:induction false} RunLeaving(mesh: TriMesh, ids: seq<int>, s0: PassState, vs: seq<Visit>)
    requires Fits(mesh, ids, s0) && AllSelected(mesh, vs)
    requires s0.edges == []
    requires forall x :: 0 <= x < |s0.buckets| ==> s0.buckets[x] == []
    requires forall x :: 0 <= x < |s0.vertices| ==> s0.vertices[x].leaving.None?
    ensures BucketsInv(Run(mesh, ids, s0, vs)) && LeavingInv(Run(mesh, ids, s0, vs))
    decreases |vs|
  {
    if vs != [] {
      var n := |vs| - 1;
      AllInMeshPrefix(mesh, vs, n);
      assert AllSelected(mesh, vs[..n]) by {
        assert forall q :: 0 <= q < n ==> vs[..n][q] == vs[q];
      }
      RunLeaving(mesh, ids, s0, vs[..n]);
      StepBuckets(mesh, ids, Run(mesh, ids, s0, vs[..n]), vs[n]);
      StepLeaving(mesh, ids, Run(mesh, ids, s0, vs[..n]), vs[n]);
    }
  }

  // ---------------------------------------------------------------------
  // Positions and labels of the dual vertices.
  // ---------------------------------------------------------------------

  /** A vertex with its `leaving` pointer cleared: what the pass fixes apart from `leaving`. */
  function Bare(v: Vertex): Vertex
  {
    v.(leaving := None)
  }

  /**
    The infinite vertex at the far end of the ray of hull side `v`, with id
    `id`: the circumcenter of its triangle moved by the ray offset, label 0.
   */
  function RayEnd(mesh: TriMesh, base: seq<Vertex>, v: Visit, id: nat): Vertex
    requires Shaped(mesh) && InMesh(mesh, v) && v.tri < |base|
  {
    var off := RayOffset(mesh.vertices[Org(mesh, v)].pos, mesh.vertices[Dest(mesh, v)].pos);
    Vertex(id, base[v.tri].x + off.x, base[v.tri].y + off.y, 0, None)
  }

  /**
    Apart from `leaving`, the circumcenters are those of `base`, and the far
    end of the `q`-th handled side on the hull is its ray end with id `EndOf`.
   */
  predicate VerticesInv(mesh: TriMesh, base: seq<Vertex>, vs: seq<Visit>, s: PassState)
    requires Shaped(mesh) && AllInMesh(mesh, vs) && |base| == |mesh.triangles|
  {
    && |s.vertices| == |mesh.triangles| + HullCount(mesh, vs)
    && (forall x :: 0 <= x < |base| ==> Bare(s.vertices[x]) == Bare(base[x]))
    && (forall x :: |base| <= x < |s.vertices| ==> s.vertices[x].id == x)
    && (forall q :: 0 <= q < |vs| && Hull(mesh, vs[q]) ==>
          EndOf(mesh, vs, q) < |s.vertices| && Bare(s.vertices[EndOf(mesh, vs, q)]) == RayEnd(mesh, base, vs[q], EndOf(mesh, vs, q)))
  }

  /**
    What the step does to the vertex array: apart from `leaving` the old
    vertices stay, and a hull side appends its ray end.
   */
  lemma StepVertexShape(mesh: TriMesh, ids: seq<int>, base: seq<Vertex>, s: PassState, vs: seq<Visit>, v: Visit)
    requires Fits(mesh, ids, s) && AllInMesh(mesh, vs) && InMesh(mesh, v) && |base| == |mesh.triangles|
    requires VerticesInv(mesh, base, vs, s)
    ensures var r := Step(mesh, ids, s, v);
      && |r.vertices| == |s.vertices| + (if Hull(mesh, v) then 1 else 0)
      && (forall x :: 0 <= x < |s.vertices| ==> Bare(r.vertices[x]) == Bare(s.vertices[x]))
      && (Hull(mesh, v) ==> Bare(r.vertices[|s.vertices|]) == RayEnd(mesh, base, v, |s.vertices|))
  {
    assert Bare(s.vertices[v.tri]) == Bare(base[v.tri]);
  }

  /** `VerticesInv` survives any change of the vertex array of the shape `StepVertexShape` describes. */
  lemma VerticesInvOfShape(mesh: TriMesh, base: seq<Vertex>, s: PassState, r: PassState, vs: seq<Visit>, v: Visit)
    requires Shaped(mesh) && AllInMesh(mesh, vs) && InMesh(mesh, v) && |base| == |mesh.triangles|
    requires VerticesInv(mesh, base, vs, s)
    requires |r.vertices| == |s.vertices| + (if Hull(mesh, v) then 1 else 0)
    requires forall x :: 0 <= x < |s.vertices| ==> Bare(r.vertices[x]) == Bare(s.vertices[x])
    requires Hull(mesh, v) ==> Bare(r.vertices[|s.vertices|]) == RayEnd(mesh, base, v, |s.vertices|)
    ensures AllInMesh(mesh, vs + [v])
    ensures VerticesInv(mesh, base, vs + [v], r)
  {
    HullCountAppend(mesh, vs, v);
    EndOfAppend(mesh, vs, v);
    var ws := vs + [v];
    forall x | |base| <= x < |r.vertices|
      ensures r.vertices[x].id == x
    {
      if x < |s.vertices| {
        assert Bare(r.vertices[x]).id == Bare(s.vertices[x]).id;
      }
    }
    forall q | 0 <= q < |ws| && Hull(mesh, ws[q])
      ensures EndOf(mesh, ws, q) < |r.vertices|
      ensures Bare(r.vertices[EndOf(mesh, ws, q)]) == RayEnd(mesh, base, ws[q], EndOf(mesh, ws, q))
    {
      if q < |vs| {
        assert ws[q] == vs[q];
      } else {
        assert ws[q] == v;
      }
    }
  }

  lemma StepVertices(mesh: TriMesh, ids: seq<int>, base: seq<Vertex>, s: PassState, vs: seq<Visit>, v: Visit)
    requires Fits(mesh, ids, s) && AllInMesh(mesh, vs) && InMesh(mesh, v) && |base| == |mesh.triangles|
    requires VerticesInv(mesh, base, vs, s)
    ensures AllInMesh(mesh, vs + [v])
    ensures VerticesInv(mesh, base, vs + [v], Step(mesh, ids, s, v))
  {
    StepVertexShape(mesh, ids, base, s, vs, v);
    VerticesInvOfShape(mesh, base, s, Step(mesh, ids, s, v), vs, v);
  }

  lemma {:induction false} RunVertices(mesh: TriMesh, ids: seq<int>, s0: PassState, vs: seq<Visit>)
    requires Fits(mesh, ids, s0) && AllInMesh(mesh, vs) && |s0.vertices| == |mesh.triangles|
    ensures VerticesInv(mesh, s0.vertices, vs, Run(mesh, ids, s0, vs))
    decreases |vs|
  {
    if vs != [] {
      var n := |vs| - 1;
      AllInMeshPrefix(mesh, vs, n);
      assert vs[..n] + [vs[n]] == vs;
      RunVertices(mesh, ids, s0, vs[..n]);
      StepVertices(mesh, ids, s0.vertices, Run(mesh, ids, s0, vs[..n]), vs[..n], vs[n]);
    }
  }
}
