/**
  The diagram `Generate` returns satisfies `Diagram`: one lemma per part,
  from the state the edge pass leaves and the `next` pointers `ConnectEdges` sets.
 */
module GenerateDiagram {
  import opened Common
  import opened Dcel
  import opened Primal
  import opened VoronoiVertices
  import opened VoronoiPass
  import opened PassEdges
  import opened PassVertices
  import opened PassFaces
  import opened VoronoiEdges
  import opened VoronoiConnect
  import opened VoronoiDiagram
  import opened GenerateFacts

  /** `d` is `m` with only `next` pointers changed. */
  predicate SameButNext(m: Mesh, d: Mesh)
  {
    && d.vertices == m.vertices && d.faces == m.faces && |d.edges| == |m.edges|
    && forall e :: 0 <= e < |d.edges| ==> d.edges[e] == m.edges[e].(next := d.edges[e].next)
  }

  lemma DiagramSizes(mesh: TriMesh, cc: (Point, Point, Point) -> Point, ids: seq<int>, base: seq<Vertex>, s: PassState, d: Mesh)
    requires Passed(mesh, cc, ids, base, s) && SameButNext(Unlinked(s), d)
    ensures Sizes(mesh, d)
  {
    UnlinkedSizes(mesh, cc, ids, base, s);
  }

  lemma DiagramEdges(mesh: TriMesh, cc: (Point, Point, Point) -> Point, ids: seq<int>, base: seq<Vertex>, s: PassState, d: Mesh)
    requires Passed(mesh, cc, ids, base, s) && SameButNext(Unlinked(s), d)
    ensures Sizes(mesh, d) && DualEdges(mesh, d)
  {
    DiagramSizes(mesh, cc, ids, base, s, d);
    VisitsInMesh(mesh);
    var vs := Visits(mesh);
    forall e | 0 <= e < |d.edges|
      ensures && d.edges[e].id == e
        && d.edges[e].twin == Some(if e % 2 == 0 then e + 1 else e - 1)
        && d.edges[e].origin == Some(if e % 2 == 0 then EndOf(mesh, vs, e / 2) else vs[e / 2].tri)
        && d.edges[e].face == FaceAt(Cell(mesh, if e % 2 == 0 then Org(mesh, vs[e / 2]) else Dest(mesh, vs[e / 2])))
    {
      UnlinkedEdge(mesh, cc, ids, base, s, e);
    }
  }

  lemma CircumcenterVertex(mesh: TriMesh, cc: (Point, Point, Point) -> Point, base: seq<Vertex>, vs: seq<Visit>, s: PassState, t: nat)
    requires Shaped(mesh) && AllInMesh(mesh, vs) && BaseOk(mesh, cc, base)
    requires VerticesInv(mesh, base, vs, s) && t < |mesh.triangles|
    ensures t < |s.vertices|
    ensures Point(s.vertices[t].x, s.vertices[t].y) == Circumcenter(mesh, cc, t)
    ensures s.vertices[t].region == mesh.triangles[t].region
  {
    assert Bare(s.vertices[t]) == Bare(base[t]);
  }

  lemma InfiniteVertex(mesh: TriMesh, cc: (Point, Point, Point) -> Point, base: seq<Vertex>, vs: seq<Visit>, s: PassState, q: nat)
    requires Shaped(mesh) && AllInMesh(mesh, vs) && BaseOk(mesh, cc, base)
    requires VerticesInv(mesh, base, vs, s) && q < |vs| && Hull(mesh, vs[q])
    ensures |mesh.triangles| <= EndOf(mesh, vs, q) < |s.vertices|
    ensures Point(s.vertices[EndOf(mesh, vs, q)].x, s.vertices[EndOf(mesh, vs, q)].y) == RayPoint(mesh, cc, vs[q])
    ensures s.vertices[EndOf(mesh, vs, q)].region == 0
  {
    var x := EndOf(mesh, vs, q);
    assert Bare(s.vertices[x]) == RayEnd(mesh, base, vs[q], x);
    assert Point(base[vs[q].tri].x, base[vs[q].tri].y) == Circumcenter(mesh, cc, vs[q].tri);
  }

  lemma DiagramVertices(mesh: TriMesh, cc: (Point, Point, Point) -> Point, ids: seq<int>, base: seq<Vertex>, s: PassState, d: Mesh)
    requires Passed(mesh, cc, ids, base, s) && SameButNext(Unlinked(s), d)
    ensures Sizes(mesh, d) && DualVertices(mesh, cc, d)
  {
    DiagramSizes(mesh, cc, ids, base, s, d);
    VisitsInMesh(mesh);
    var vs := Visits(mesh);
    assert VerticesInv(mesh, base, vs, s);
    forall t | 0 <= t < |mesh.triangles|
      ensures && Point(d.vertices[t].x, d.vertices[t].y) == Circumcenter(mesh, cc, t)
        && d.vertices[t].region == mesh.triangles[t].region
    {
      CircumcenterVertex(mesh, cc, base, vs, s, t);
    }
    forall q | 0 <= q < |vs| && Hull(mesh, vs[q])
      ensures && |mesh.triangles| <= EndOf(mesh, vs, q) < |d.vertices|
        && Point(d.vertices[EndOf(mesh, vs, q)].x, d.vertices[EndOf(mesh, vs, q)].y) == RayPoint(mesh, cc, vs[q])
        && d.vertices[EndOf(mesh, vs, q)].region == 0
    {
      InfiniteVertex(mesh, cc, base, vs, s, q);
    }
  }

  /** The last half-edge leaving `x` starts at `x` and no later half-edge does; with none, no half-edge does. */
  lemma LastLeaving(edges: seq<HalfEdge>, x: nat)
    ensures match Last(Leaving(edges, x))
      case None => forall e :: 0 <= e < |edges| ==> edges[e].origin != Some(x)
      case Some(l) => l < |edges| && edges[l].origin == Some(x) && forall e :: l < e < |edges| ==> edges[e].origin != Some(x)
  {
    var r := Leaving(edges, x);
    LeavingSound(edges, x);
    forall e | 0 <= e < |edges| && edges[e].origin == Some(x)
      ensures r != [] && e <= r[|r| - 1]
    {
      LeavingComplete(edges, x, e);
      var i :| 0 <= i < |r| && r[i] == e;
      assert i == |r| - 1 || r[i] < r[|r| - 1];
    }
  }

  lemma LeavingOfUnlinked(s: PassState, d: Mesh)
    requires LeavingInv(s) && SameButNext(Unlinked(s), d) && WellFormed(d)
    ensures LeavingLast(d)
  {
    assert forall e :: 0 <= e < |d.edges| ==> d.edges[e].origin == s.edges[e].origin;
    forall x | 0 <= x < |d.vertices|
      ensures match d.vertices[x].leaving
        case None => forall e :: 0 <= e < |d.edges| ==> d.edges[e].origin != Some(x)
        case Some(l) => d.edges[l].origin == Some(x) && forall e :: l < e < |d.edges| ==> d.edges[e].origin != Some(x)
    {
      LastLeaving(s.edges, x);
    }
  }

  lemma DiagramLeaving(mesh: TriMesh, cc: (Point, Point, Point) -> Point, ids: seq<int>, base: seq<Vertex>, s: PassState, d: Mesh)
    requires Passed(mesh, cc, ids, base, s) && SameButNext(Unlinked(s), d) && WellFormed(d)
    ensures LeavingLast(d)
  {
    VisitsInMesh(mesh);
    assert LeavingInv(s);
    LeavingOfUnlinked(s, d);
  }

  /** `CellOk` reads only `origin` and `face` of the half-edges. */
  lemma CellOkNext(mesh: TriMesh, edges: seq<HalfEdge>, edges': seq<HalfEdge>, faces: seq<Face>, f: nat)
    requires f < |faces| && CellOk(mesh, edges, faces, f)
    requires |edges'| == |edges|
    requires forall e :: 0 <= e < |edges| ==> edges'[e].origin == edges[e].origin && edges'[e].face == edges[e].face
    ensures CellOk(mesh, edges', faces, f)
  {
    assert forall e :: 0 <= e < |edges| ==> Infinite(mesh, edges'[e]) == Infinite(mesh, edges[e]);
  }

  lemma DiagramCells(mesh: TriMesh, cc: (Point, Point, Point) -> Point, ids: seq<int>, base: seq<Vertex>, s: PassState, d: Mesh)
    requires Passed(mesh, cc, ids, base, s) && SameButNext(Unlinked(s), d)
    ensures Cells(mesh, d)
  {
    VisitsInMesh(mesh);
    assert FacesInv(mesh, s);
    forall f | 0 <= f < |d.faces|
      ensures CellOk(mesh, d.edges, d.faces, f)
    {
      assert FaceOk(mesh, s, f);
      CellOkNext(mesh, s.edges, d.edges, s.faces, f);
    }
  }

  /** The ray `2q + 1` of a hull side has a twin that starts at the side's infinite vertex. */
  lemma HullSideRay(mesh: TriMesh, d: Mesh, q: nat)
    requires Valid(mesh) && WellFormed(d) && Sizes(mesh, d) && DualEdges(mesh, d)
    requires (VisitsInMesh(mesh); q < |Visits(mesh)| && Hull(mesh, Visits(mesh)[q]))
    ensures 2 * q + 1 < |d.edges| && Ray(mesh, d, 2 * q + 1)
  {
    VisitsInMesh(mesh);
    var vs := Visits(mesh);
    assert d.edges[2 * q + 1].twin == Some(2 * q);
    assert d.edges[2 * q].origin == Some(EndOf(mesh, vs, 2 * q / 2));
  }

  /** A half-edge whose twin starts at an infinite vertex is the twin `2q + 1` of a hull side `q`. */
  lemma RayIsHullTwin(mesh: TriMesh, d: Mesh, e: nat)
    requires Valid(mesh) && WellFormed(d) && Sizes(mesh, d) && DualEdges(mesh, d)
    requires e < |d.edges| && Ray(mesh, d, e)
    ensures (VisitsInMesh(mesh); e % 2 == 1 && Hull(mesh, Visits(mesh)[e / 2]))
  {
    VisitsInMesh(mesh);
    var vs := Visits(mesh);
    if e % 2 == 1 {
      assert d.edges[e].twin == Some(e - 1);
      assert d.edges[e - 1].origin == Some(EndOf(mesh, vs, (e - 1) / 2));
      assert (e - 1) / 2 == e / 2;
    }
  }

  lemma HullTwinsAreRays(mesh: TriMesh, d: Mesh, rays: seq<nat>)
    requires Valid(mesh) && WellFormed(d) && Sizes(mesh, d) && DualEdges(mesh, d)
    requires (VisitsInMesh(mesh); RaysOk(mesh, Visits(mesh), rays))
    ensures forall i :: 0 <= i < |rays| ==> rays[i] < |d.edges| && Ray(mesh, d, rays[i])
  {
    forall i | 0 <= i < |rays|
      ensures rays[i] < |d.edges| && Ray(mesh, d, rays[i])
    {
      var q := rays[i] / 2;
      assert rays[i] == 2 * q + 1;
      HullSideRay(mesh, d, q);
    }
  }

  lemma RaysAreHullTwins(mesh: TriMesh, d: Mesh, rays: seq<nat>)
    requires Valid(mesh) && WellFormed(d) && Sizes(mesh, d) && DualEdges(mesh, d)
    requires (VisitsInMesh(mesh); rays == HullTwins(mesh, Visits(mesh)))
    ensures forall e :: 0 <= e < |d.edges| && Ray(mesh, d, e) ==> e in rays
  {
    VisitsInMesh(mesh);
    forall e | 0 <= e < |d.edges| && Ray(mesh, d, e)
      ensures e in rays
    {
      RayIsHullTwin(mesh, d, e);
      HullTwinsComplete(mesh, Visits(mesh), e / 2);
    }
  }

  lemma RaysOfHullTwins(mesh: TriMesh, d: Mesh, rays: seq<nat>)
    requires Valid(mesh) && WellFormed(d) && Sizes(mesh, d) && DualEdges(mesh, d)
    requires (VisitsInMesh(mesh); rays == HullTwins(mesh, Visits(mesh)))
    ensures RaysSound(mesh, d, rays)
  {
    VisitsInMesh(mesh);
    HullTwinsSound(mesh, Visits(mesh));
    HullTwinsAreRays(mesh, d, rays);
    RaysAreHullTwins(mesh, d, rays);
  }

  lemma DiagramRays(mesh: TriMesh, cc: (Point, Point, Point) -> Point, ids: seq<int>, base: seq<Vertex>, s: PassState, d: Mesh)
    requires Passed(mesh, cc, ids, base, s) && SameButNext(Unlinked(s), d) && WellFormed(d)
    ensures RaysSound(mesh, d, s.rays)
  {
    DiagramEdges(mesh, cc, ids, base, s, d);
    VisitsInMesh(mesh);
    assert RaysInv(mesh, Visits(mesh), s);
    RaysOfHullTwins(mesh, d, s.rays);
  }

  /** `NextIs` reads only `twin`, `origin` and `face` of the half-edges. */
  lemma NextIsNext(mesh: TriMesh, m: Mesh, d: Mesh, e: nat, r: Option<nat>)
    requires WellFormed(m) && WellFormed(d) && SameButNext(m, d) && e < |m.edges|
    requires NextIs(mesh, m, e, r)
    ensures NextIs(mesh, d, e, r)
  {
    var y := m.edges[m.edges[e].twin.value].origin.value;
    assert forall n :: 0 <= n < |m.edges| ==> StartsOn(m, n, y, m.edges[e].face) == StartsOn(d, n, y, d.edges[e].face);
  }

  /** `ConnectEdges` after a pass that left every `next` unset changes only `next`, to what the lookup found. */
  lemma Relinked(mesh: TriMesh, cc: (Point, Point, Point) -> Point, ids: seq<int>, base: seq<Vertex>, s: PassState, d: Mesh)
    requires Passed(mesh, cc, ids, base, s)
    requires WellFormed(Unlinked(s)) && BucketsInRange(Unlinked(s), s.buckets)
    requires forall e :: 0 <= e < |s.edges| ==> NextFor(Unlinked(s), s.buckets, e).Success?
    requires d.vertices == s.vertices && d.faces == s.faces && |d.edges| == |s.edges|
    requires forall e :: 0 <= e < |s.edges| ==> d.edges[e] == Connected(Unlinked(s), s.buckets, e)
    ensures SameButNext(Unlinked(s), d)
    ensures forall e :: 0 <= e < |s.edges| ==> d.edges[e].next == NextFor(Unlinked(s), s.buckets, e).value
  {
    VisitsInMesh(mesh);
    forall e | 0 <= e < |s.edges|
      ensures d.edges[e] == s.edges[e].(next := d.edges[e].next)
      ensures d.edges[e].next == NextFor(Unlinked(s), s.buckets, e).value
    {
      UnlinkedEdge(mesh, cc, ids, base, s, e);
    }
  }

  lemma DiagramLinked(mesh: TriMesh, cc: (Point, Point, Point) -> Point, ids: seq<int>, base: seq<Vertex>, s: PassState, d: Mesh)
    requires Passed(mesh, cc, ids, base, s) && WellFormed(d)
    requires WellFormed(Unlinked(s)) && BucketsInRange(Unlinked(s), s.buckets)
    requires SameButNext(Unlinked(s), d)
    requires forall e :: 0 <= e < |s.edges| ==>
      NextFor(Unlinked(s), s.buckets, e).Success? && d.edges[e].next == NextFor(Unlinked(s), s.buckets, e).value
    ensures Linked(mesh, d)
  {
    NextForUnlinked(mesh, cc, ids, base, s);
    forall e | 0 <= e < |d.edges|
      ensures NextOk(mesh, d, e)
    {
      NextIsNext(mesh, Unlinked(s), d, e, d.edges[e].next);
    }
  }
}
