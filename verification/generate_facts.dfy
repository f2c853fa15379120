/**
  From the state the edge pass leaves to the diagram `Generate` returns: the
  invariants of the passes, restated about the finished half-edge structure.
 */
module GenerateFacts {
  import opened Common
  import opened Dcel
  import opened Primal
  import opened VoronoiVertices
  import opened VoronoiPass
  import opened PassEdges
  import opened PassVertices
  import opened PassFaces
  import opened VoronoiEdges
  import opened VoronoiConnect
  import opened VoronoiDiagram

  /** The dual vertices as `ComputeVertices` returns them. */
  predicate BaseOk(mesh: TriMesh, cc: (Point, Point, Point) -> Point, base: seq<Vertex>)
    requires Shaped(mesh)
  {
    && |base| == |mesh.triangles|
    && forall t :: 0 <= t < |base| ==>
         && base[t].id == t
         && Point(base[t].x, base[t].y) == Circumcenter(mesh, cc, t)
         && base[t].region == mesh.triangles[t].region
         && base[t].leaving.None?
  }

  /** The face ids as the numbering loop of `Generate` assigns them. */
  predicate Numbered(mesh: TriMesh, ids: seq<int>)
  {
    && |ids| == |mesh.vertices|
    && forall p :: 0 <= p < |mesh.vertices| ==> ids[p] == Renumbered(mesh.vertices, p)
  }

  /** The corners of the triangles are not undead, so their face ids fit the faces created. */
  lemma NumberedFit(mesh: TriMesh, ids: seq<int>)
    requires Valid(mesh) && Numbered(mesh, ids)
    ensures FaceIdsFit(mesh, ids, |mesh.vertices| - mesh.undeads)
  {
    forall t, k | 0 <= t < |mesh.triangles| && 0 <= k < 3
      ensures 0 <= ids[mesh.triangles[t].corners[k]] < |mesh.vertices| - mesh.undeads
    {
      RenumberedRange(mesh.vertices, mesh.triangles[t].corners[k]);
    }
  }

  /** What holds once the edge pass is over, with `base` the dual vertices it started from. */
  predicate Passed(mesh: TriMesh, cc: (Point, Point, Point) -> Point, ids: seq<int>, base: seq<Vertex>, s: PassState)
  {
    && Valid(mesh) && Numbered(mesh, ids) && BaseOk(mesh, cc, base)
    && Fits(mesh, ids, s) && |s.faces| == |mesh.vertices| - mesh.undeads
    && Built(mesh, ids, base, s)
  }

  /** The half-edge structure the edge pass leaves, before `ConnectEdges`. */
  function Unlinked(s: PassState): Mesh
  {
    Mesh(s.vertices, s.edges, s.faces)
  }

  lemma UnlinkedSizes(mesh: TriMesh, cc: (Point, Point, Point) -> Point, ids: seq<int>, base: seq<Vertex>, s: PassState)
    requires Passed(mesh, cc, ids, base, s)
    ensures Sizes(mesh, Unlinked(s))
  {
    VisitsInMesh(mesh);
  }

  /** Half-edge `e` before `ConnectEdges`, as the closed form of the pass gives it. */
  lemma UnlinkedEdge(mesh: TriMesh, cc: (Point, Point, Point) -> Point, ids: seq<int>, base: seq<Vertex>, s: PassState, e: nat)
    requires Passed(mesh, cc, ids, base, s)
    requires (VisitsInMesh(mesh); e < 2 * |Visits(mesh)|)
    ensures (VisitsInMesh(mesh); var vs := Visits(mesh);
      && |s.edges| == 2 * |vs|
      && s.edges[e].id == e
      && s.edges[e].twin == Some(if e % 2 == 0 then e + 1 else e - 1)
      && s.edges[e].next.None?
      && s.edges[e].origin == Some(if e % 2 == 0 then EndOf(mesh, vs, e / 2) else vs[e / 2].tri)
      && s.edges[e].origin.value < |s.vertices|
      && s.edges[e].face == FaceAt(Cell(mesh, if e % 2 == 0 then Org(mesh, vs[e / 2]) else Dest(mesh, vs[e / 2]))))
  {
    VisitsInMesh(mesh);
    var vs := Visits(mesh);
    HalfEdgeShape(mesh, ids, |s.faces|, vs, e);
  }

  /** Every vertex has its position as id. */
  lemma VertexIds(mesh: TriMesh, cc: (Point, Point, Point) -> Point, ids: seq<int>, base: seq<Vertex>, s: PassState)
    requires Passed(mesh, cc, ids, base, s)
    ensures forall x :: 0 <= x < |s.vertices| ==> s.vertices[x].id == x
  {
    VisitsInMesh(mesh);
    forall x | 0 <= x < |s.vertices|
      ensures s.vertices[x].id == x
    {
      if x < |base| {
        assert Bare(s.vertices[x]) == Bare(base[x]);
      }
    }
  }

  lemma LeavingInRange(s: PassState)
    requires LeavingInv(s) && BucketsInv(s)
    ensures forall x :: 0 <= x < |s.vertices| ==> InRange(s.vertices[x].leaving, |s.edges|)
    ensures forall x, i :: 0 <= x < |s.buckets| && 0 <= i < |s.buckets[x]| ==> s.buckets[x][i] < |s.edges|
  {
    forall x | 0 <= x < |s.vertices|
      ensures InRange(s.vertices[x].leaving, |s.edges|)
    {
      LeavingSound(s.edges, x);
    }
    forall x, i | 0 <= x < |s.buckets| && 0 <= i < |s.buckets[x]|
      ensures s.buckets[x][i] < |s.edges|
    {
      LeavingSound(s.edges, x);
    }
  }

  lemma EdgesInRange(mesh: TriMesh, cc: (Point, Point, Point) -> Point, ids: seq<int>, base: seq<Vertex>, s: PassState)
    requires Passed(mesh, cc, ids, base, s)
    ensures forall e :: 0 <= e < |s.edges| ==> EdgeRefsInRange(Unlinked(s), s.edges[e])
  {
    VisitsInMesh(mesh);
    forall e | 0 <= e < |s.edges|
      ensures EdgeRefsInRange(Unlinked(s), s.edges[e])
    {
      UnlinkedEdge(mesh, cc, ids, base, s, e);
    }
  }

  /** The half-edge structure is well formed and every bucket entry is one of its half-edges. */
  lemma UnlinkedWellFormed(mesh: TriMesh, cc: (Point, Point, Point) -> Point, ids: seq<int>, base: seq<Vertex>, s: PassState)
    requires Passed(mesh, cc, ids, base, s)
    ensures WellFormed(Unlinked(s))
    ensures BucketsInRange(Unlinked(s), s.buckets)
  {
    assert LeavingInv(s) && BucketsInv(s) && FacesInv(mesh, s);
    LeavingInRange(s);
    EdgesInRange(mesh, cc, ids, base, s);
    forall f | 0 <= f < |s.faces|
      ensures InRange(s.faces[f].edge, |s.edges|)
    {
      assert FaceOk(mesh, s, f) && CellOk(mesh, s.edges, s.faces, f);
    }
  }

  // ---------------------------------------------------------------------
  // The lookup of `ConnectEdges` on the structure the pass leaves.
  // ---------------------------------------------------------------------

  /** Every face is generated by its own index and every half-edge borders a face of the arena. */
  predicate FacesByIndex(m: Mesh)
  {
    && (forall f :: 0 <= f < |m.faces| ==> m.faces[f].generator == f)
    && (forall n :: 0 <= n < |m.edges| ==> m.edges[n].face.FaceAt? && m.edges[n].face.index < |m.faces|)
  }

  /**
    Scanning the increasing, complete list of the half-edges that start at `y`
    for the generator `g` finds the first half-edge, by id, that starts at `y`
    and borders face `g`, or finds none when there is none.
   */
  lemma FirstMatchLeast(m: Mesh, bucket: seq<nat>, y: nat, g: nat)
    requires WellFormed(m) && FacesByIndex(m) && g < |m.faces|
    requires LeavingOk(m.edges, y, bucket)
    requires forall n :: 0 <= n < |m.edges| && m.edges[n].origin == Some(y) ==> n in bucket
    ensures forall j :: 0 <= j < |bucket| ==> bucket[j] < |m.edges|
    ensures FirstMatch(m, bucket, g, 0).Success?
    ensures match FirstMatch(m, bucket, g, 0).value
      case None => forall n :: 0 <= n < |m.edges| ==> !StartsOn(m, n, y, FaceAt(g))
      case Some(p) =>
        && p < |bucket| && StartsOn(m, bucket[p], y, FaceAt(g))
        && forall k :: 0 <= k < bucket[p] ==> !StartsOn(m, k, y, FaceAt(g))
  {
    var r := FirstMatch(m, bucket, g, 0);
    var end := if r.value.Some? then r.value.value else |bucket|;
    forall n | 0 <= n < |m.edges| && StartsOn(m, n, y, FaceAt(g))
      ensures r.value.Some? && bucket[r.value.value] <= n
    {
      var j :| 0 <= j < |bucket| && bucket[j] == n;
      assert GeneratorOf(m, m.edges[bucket[j]]) == Success(g);
      assert !(j < end);
    }
    if r.value.Some? {
      var p := r.value.value;
      var h := m.edges[bucket[p]];
      assert GeneratorOf(m, h) == Success(g);
      assert h.face == FaceAt(g);
    }
  }

  lemma PassedFacesByIndex(mesh: TriMesh, cc: (Point, Point, Point) -> Point, ids: seq<int>, base: seq<Vertex>, s: PassState)
    requires Passed(mesh, cc, ids, base, s)
    ensures FacesByIndex(Unlinked(s))
  {
    VisitsInMesh(mesh);
    assert FacesInv(mesh, s);
    forall f | 0 <= f < |s.faces|
      ensures s.faces[f].generator == f
    {
      assert FaceOk(mesh, s, f) && CellOk(mesh, s.edges, s.faces, f);
    }
    forall n | 0 <= n < |s.edges|
      ensures s.edges[n].face.FaceAt? && s.edges[n].face.index < |s.faces|
    {
      UnlinkedEdge(mesh, cc, ids, base, s, n);
      CornersFit(mesh, ids, |s.faces|, Visits(mesh)[n / 2]);
    }
  }

  /**
    With vertex ids equal to positions, faces generated by their index and
    buckets listing the half-edges leaving each finite vertex in order, the
    lookup for `e` does not throw and finds the `next` the diagram prescribes.
   */
  lemma NextForLeast(mesh: TriMesh, m: Mesh, buckets: seq<seq<nat>>, e: nat)
    requires WellFormed(m) && BucketsInRange(m, buckets) && FacesByIndex(m)
    requires |buckets| == |mesh.triangles|
    requires forall x :: 0 <= x < |m.vertices| ==> m.vertices[x].id == x
    requires forall x :: 0 <= x < |buckets| ==> buckets[x] == Leaving(m.edges, x)
    requires e < |m.edges| && m.edges[e].twin.Some? && m.edges[m.edges[e].twin.value].origin.Some?
    ensures NextFor(m, buckets, e).Success?
    ensures NextIs(mesh, m, e, NextFor(m, buckets, e).value)
  {
    var y := m.edges[m.edges[e].twin.value].origin.value;
    if y < |mesh.triangles| {
      LeavingSound(m.edges, y);
      forall n | 0 <= n < |m.edges| && m.edges[n].origin == Some(y)
        ensures n in buckets[y]
      {
        LeavingComplete(m.edges, y, n);
      }
      FirstMatchLeast(m, buckets[y], y, m.edges[e].face.index);
    }
  }

  /** Every lookup of `ConnectEdges` on the structure the pass leaves finds the prescribed `next`. */
  lemma NextForUnlinked(mesh: TriMesh, cc: (Point, Point, Point) -> Point, ids: seq<int>, base: seq<Vertex>, s: PassState)
    requires Passed(mesh, cc, ids, base, s)
    ensures WellFormed(Unlinked(s)) && BucketsInRange(Unlinked(s), s.buckets)
    ensures forall e :: 0 <= e < |s.edges| ==>
      NextFor(Unlinked(s), s.buckets, e).Success? && NextIs(mesh, Unlinked(s), e, NextFor(Unlinked(s), s.buckets, e).value)
  {
    var m := Unlinked(s);
    VisitsInMesh(mesh);
    UnlinkedWellFormed(mesh, cc, ids, base, s);
    PassedFacesByIndex(mesh, cc, ids, base, s);
    VertexIds(mesh, cc, ids, base, s);
    assert BucketsInv(s);
    forall e | 0 <= e < |s.edges|
      ensures NextFor(m, s.buckets, e).Success? && NextIs(mesh, m, e, NextFor(m, s.buckets, e).value)
    {
      UnlinkedEdge(mesh, cc, ids, base, s, e);
      UnlinkedEdge(mesh, cc, ids, base, s, s.edges[e].twin.value);
      NextForLeast(mesh, m, s.buckets, e);
    }
  }
}
