/**
  `DcelMesh.IsConsistent`: the topology oracle of the half-edge container.

  The C# method runs five `foreach` scans in sequence; each may return false
  early, and each dereferences pointers that may be null, which throws. Every
  scan is modelled as a sequence of per-element outcomes, and `Sweep` keeps the
  first outcome that is not `Pass`, exactly as the early return does.
 */
module DcelConsistency {
  import opened Common
  import opened Dcel

  /** The outcome of one element's check: go on, return false, or throw. */
  datatype Check = Pass | Fail | Crash

  function Then(a: Check, b: Check): Check
  {
    if a == Pass then b else a
  }

  /** A scan with early exit: the first outcome that is not `Pass`. */
  function Sweep(cs: seq<Check>): Check
  {
    if |cs| == 0 then Pass else Then(cs[0], Sweep(cs[1..]))
  }

  lemma {:induction false} SweepPasses(cs: seq<Check>)
    ensures Sweep(cs) == Pass <==> forall i :: 0 <= i < |cs| ==> cs[i] == Pass
  {
    if |cs| > 0 {
      SweepPasses(cs[1..]);
      assert forall i :: 1 <= i < |cs| ==> cs[i] == cs[1..][i - 1];
    }
  }

  /** Checks that pass, appended after a scan, do not change its outcome. */
  lemma {:induction false} SweepIgnoresTrailingPasses(cs: seq<Check>, ps: seq<Check>)
    requires forall i :: 0 <= i < |ps| ==> ps[i] == Pass
    ensures Sweep(cs + ps) == Sweep(cs)
  {
    if |cs| == 0 {
      assert cs + ps == ps;
      SweepPasses(ps);
    } else {
      assert (cs + ps)[1..] == cs[1..] + ps;
      SweepIgnoresTrailingPasses(cs[1..], ps);
    }
  }

  // ---------------------------------------------------------------------
  // The per-element checks, in the order of the C# method.
  // ---------------------------------------------------------------------

  /** Vertex scan: a live vertex needs a leaving half-edge that starts at it. */
  function VertexCheck(m: Mesh, v: nat): Check
    requires WellFormed(m) && v < |m.vertices|
  {
    var vertex := m.vertices[v];
    if vertex.id < 0 then Pass
    else if vertex.leaving.None? then Fail
    else
      var leaving := m.edges[vertex.leaving.value];
      if leaving.origin.None? then Crash
      else if VertexId(m, leaving.origin) != vertex.id then Fail
      else Pass
  }

  /** Face scan: a live face needs a half-edge that borders it. */
  function FaceCheck(m: Mesh, f: nat): Check
    requires WellFormed(m) && f < |m.faces|
  {
    var face := m.faces[f];
    if face.id < 0 then Pass
    else if face.edge.None? then Fail
    else
      var r := m.edges[face.edge.value].face;
      if r.NoFace? then Crash
      else if face.id != FaceId(m, r) then Fail
      else Pass
  }

  /** Null-pointer scan of a half-edge; `next` only matters for closed meshes. */
  function EdgeCheck(m: Mesh, e: nat, closed: bool): Check
    requires WellFormed(m) && e < |m.edges|
  {
    var edge := m.edges[e];
    if edge.id < 0 then Pass
    else if edge.twin.None? || edge.origin.None? || edge.face.NoFace? then Fail
    else if closed && edge.next.None? then Fail
    else Pass
  }

  /** Topology scan of a half-edge: twin involution and, when closed, loop agreement. */
  function TopologyCheck(m: Mesh, e: nat, closed: bool): Check
    requires WellFormed(m) && e < |m.edges|
  {
    var edge := m.edges[e];
    if edge.id < 0 then Pass
    else if edge.twin.None? then Crash
    else
      var twin := m.edges[edge.twin.value];
      if twin.twin.None? then Crash
      else if edge.id != m.edges[twin.twin.value].id then Fail
      else if !closed then Pass
      else if edge.next.None? then Crash
      else
        var next := m.edges[edge.next.value];
        if next.origin.None? || twin.origin.None? then Crash
        else if VertexId(m, next.origin) != VertexId(m, twin.origin) then Fail
        else if next.twin.None? then Crash
        else
          var back := m.edges[next.twin.value];
          if back.next.None? then Crash
          else
            var after := m.edges[back.next.value];
            if after.origin.None? then Crash
            else if VertexId(m, after.origin) != VertexId(m, twin.origin) then Fail
            else Pass
  }

  /**
    The bounded face walk: follow `next` from `cur` while its id differs from
    `id` and fewer than `depth` steps were taken; fail if `id` was not reached.
   */
  function Walk(m: Mesh, cur: Option<nat>, id: int, k: int, depth: int): Check
    requires WellFormed(m) && InRange(cur, |m.edges|) && k <= depth
    decreases depth - k
  {
    if cur.None? then Crash
    else if m.edges[cur.value].id != id && k < depth then Walk(m, m.edges[cur.value].next, id, k + 1, depth)
    else if m.edges[cur.value].id != id then Fail
    else Pass
  }

  /** Face-closure scan: the cycle of a live face returns to `face.edge` within `depth` steps. */
  function FaceWalk(m: Mesh, f: nat, depth: int): Check
    requires WellFormed(m) && f < |m.faces| && 0 <= depth
  {
    var face := m.faces[f];
    if face.id < 0 then Pass
    else if face.edge.None? then Crash
    else
      var edge := m.edges[face.edge.value];
      Walk(m, edge.next, edge.id, 0, depth)
  }

  function VertexChecks(m: Mesh): seq<Check>
    requires WellFormed(m)
  {
    seq(|m.vertices|, v requires 0 <= v < |m.vertices| && WellFormed(m) => VertexCheck(m, v))
  }

  function FaceChecks(m: Mesh): seq<Check>
    requires WellFormed(m)
  {
    seq(|m.faces|, f requires 0 <= f < |m.faces| && WellFormed(m) => FaceCheck(m, f))
  }

  function EdgeChecks(m: Mesh, closed: bool): seq<Check>
    requires WellFormed(m)
  {
    seq(|m.edges|, e requires 0 <= e < |m.edges| && WellFormed(m) => EdgeCheck(m, e, closed))
  }

  function TopologyChecks(m: Mesh, closed: bool): seq<Check>
    requires WellFormed(m)
  {
    seq(|m.edges|, e requires 0 <= e < |m.edges| && WellFormed(m) => TopologyCheck(m, e, closed))
  }

  function FaceWalks(m: Mesh, depth: int): seq<Check>
    requires WellFormed(m) && 0 <= depth
  {
    seq(|m.faces|, f requires 0 <= f < |m.faces| && WellFormed(m) && 0 <= depth => FaceWalk(m, f, depth))
  }

  function Outcome(c: Check): Result<bool>
  {
    match c
    case Pass => Success(true)
    case Fail => Success(false)
    case Crash => Failure(NullReference)
  }

  /** `IsConsistent(closed, depth)`: the five scans in order; the face walk only when closed and depth > 0. */
  function IsConsistent(m: Mesh, closed: bool, depth: int): (r: Result<bool>)
    requires WellFormed(m)
    ensures r == Success(true) <==> Consistent(m, closed, depth)
  {
    ConsistentIff(m, closed, depth);
    Outcome(Scans(m, closed, depth))
  }

  function Scans(m: Mesh, closed: bool, depth: int): Check
    requires WellFormed(m)
  {
    Then(Sweep(VertexChecks(m)),
    Then(Sweep(FaceChecks(m)),
    Then(Sweep(EdgeChecks(m, closed)),
    Then(Sweep(TopologyChecks(m, closed)),
         if closed && depth > 0 then Sweep(FaceWalks(m, depth)) else Pass))))
  }

  // ---------------------------------------------------------------------
  // The declarative statement of consistency.
  // ---------------------------------------------------------------------

  /** Following `next` n times from `cur`; None once a null `next` is met. */
  function NextIter(m: Mesh, cur: Option<nat>, n: nat): (r: Option<nat>)
    requires WellFormed(m) && InRange(cur, |m.edges|)
    ensures InRange(r, |m.edges|)
    decreases n
  {
    if n == 0 then cur
    else if cur.None? then None
    else NextIter(m, m.edges[cur.value].next, n - 1)
  }

  /** Following `next` n times from `cur` ends at a half-edge whose id is `id`. */
  ghost predicate Reaches(m: Mesh, cur: Option<nat>, n: nat, id: int)
    requires WellFormed(m) && InRange(cur, |m.edges|)
  {
    var r := NextIter(m, cur, n);
    r.Some? && m.edges[r.value].id == id
  }

  ghost predicate VertexSound(m: Mesh, v: nat)
    requires WellFormed(m) && v < |m.vertices|
  {
    var vertex := m.vertices[v];
    vertex.id >= 0 ==>
      && vertex.leaving.Some?
      && m.edges[vertex.leaving.value].origin.Some?
      && VertexId(m, m.edges[vertex.leaving.value].origin) == vertex.id
  }

  ghost predicate FaceSound(m: Mesh, f: nat)
    requires WellFormed(m) && f < |m.faces|
  {
    var face := m.faces[f];
    face.id >= 0 ==>
      && face.edge.Some?
      && m.edges[face.edge.value].face != NoFace
      && FaceId(m, m.edges[face.edge.value].face) == face.id
  }

  ghost predicate EdgeLinked(m: Mesh, e: nat, closed: bool)
    requires WellFormed(m) && e < |m.edges|
  {
    var edge := m.edges[e];
    edge.id >= 0 ==>
      && edge.twin.Some? && edge.origin.Some? && edge.face != NoFace
      && (closed ==> edge.next.Some?)
  }

  /** `twin.twin` is the half-edge itself (by id); when closed, `next` starts where `twin` starts. */
  ghost predicate EdgeTopology(m: Mesh, e: nat, closed: bool)
    requires WellFormed(m) && e < |m.edges|
  {
    var edge := m.edges[e];
    edge.id >= 0 ==>
      && edge.twin.Some?
      && m.edges[edge.twin.value].twin.Some?
      && m.edges[m.edges[edge.twin.value].twin.value].id == edge.id
      && (closed ==>
            var twin := m.edges[edge.twin.value];
            && edge.next.Some?
            && twin.origin.Some?
            && m.edges[edge.next.value].origin.Some?
            && VertexId(m, m.edges[edge.next.value].origin) == VertexId(m, twin.origin)
            && m.edges[edge.next.value].twin.Some?
            && m.edges[m.edges[edge.next.value].twin.value].next.Some?
            && var after := m.edges[m.edges[m.edges[edge.next.value].twin.value].next.value];
            && after.origin.Some?
            && VertexId(m, after.origin) == VertexId(m, twin.origin))
  }

  /** The cycle of a live face returns to `face.edge` at most `depth` steps after `face.edge.next`. */
  ghost predicate FaceCloses(m: Mesh, f: nat, depth: int)
    requires WellFormed(m) && f < |m.faces|
  {
    var face := m.faces[f];
    face.id >= 0 ==>
      && face.edge.Some?
      && var edge := m.edges[face.edge.value];
      && exists n: nat :: n <= depth && Reaches(m, edge.next, n, edge.id)
  }

  /** Consistency as a property of the mesh; elements with a negative id are exempt throughout. */
  ghost predicate Consistent(m: Mesh, closed: bool, depth: int)
    requires WellFormed(m)
  {
    && (forall v: nat :: v < |m.vertices| ==> VertexSound(m, v))
    && (forall f: nat :: f < |m.faces| ==> FaceSound(m, f))
    && (forall e: nat :: e < |m.edges| ==> EdgeLinked(m, e, closed))
    && (forall e: nat :: e < |m.edges| ==> EdgeTopology(m, e, closed))
    && (closed && depth > 0 ==> forall f: nat :: f < |m.faces| ==> FaceCloses(m, f, depth))
  }

  // ---------------------------------------------------------------------
  // The scans compute the declarative statement.
  // ---------------------------------------------------------------------

  lemma {:induction false} WalkPasses(m: Mesh, cur: Option<nat>, id: int, k: int, depth: int)
    requires WellFormed(m) && InRange(cur, |m.edges|) && 0 <= k <= depth
    ensures Walk(m, cur, id, k, depth) == Pass <==> exists n: nat :: n <= depth - k && Reaches(m, cur, n, id)
    decreases depth - k
  {
    if cur.None? {
      forall n: nat | n <= depth - k
        ensures !Reaches(m, cur, n, id)
      {
        assert NextIter(m, cur, n) == None;
      }
    } else if m.edges[cur.value].id == id {
      assert Reaches(m, cur, 0, id);
    } else if k < depth {
      var nxt := m.edges[cur.value].next;
      WalkPasses(m, nxt, id, k + 1, depth);
      if Walk(m, cur, id, k, depth) == Pass {
        var n: nat :| n <= depth - (k + 1) && Reaches(m, nxt, n, id);
        assert NextIter(m, cur, n + 1) == NextIter(m, nxt, n);
        assert Reaches(m, cur, n + 1, id);
      } else {
        forall n: nat | n <= depth - k
          ensures !Reaches(m, cur, n, id)
        {
          if n > 0 {
            assert NextIter(m, cur, n) == NextIter(m, nxt, n - 1);
            assert !Reaches(m, nxt, n - 1, id);
          } else {
            assert NextIter(m, cur, 0) == cur;
          }
        }
      }
    } else {
      forall n: nat | n <= depth - k
        ensures !Reaches(m, cur, n, id)
      {
        assert n == 0;
      }
    }
  }

  lemma FaceWalkPasses(m: Mesh, f: nat, depth: int)
    requires WellFormed(m) && f < |m.faces| && 0 < depth
    ensures FaceWalk(m, f, depth) == Pass <==> FaceCloses(m, f, depth)
  {
    var face := m.faces[f];
    if face.id >= 0 && face.edge.Some? {
      var edge := m.edges[face.edge.value];
      WalkPasses(m, edge.next, edge.id, 0, depth);
    }
  }

  lemma VertexScanIff(m: Mesh)
    requires WellFormed(m)
    ensures Sweep(VertexChecks(m)) == Pass <==> forall v: nat :: v < |m.vertices| ==> VertexSound(m, v)
  {
    SweepPasses(VertexChecks(m));
    forall v: nat | v < |m.vertices|
      ensures VertexChecks(m)[v] == Pass <==> VertexSound(m, v)
    {
    }
  }

  lemma FaceScanIff(m: Mesh)
    requires WellFormed(m)
    ensures Sweep(FaceChecks(m)) == Pass <==> forall f: nat :: f < |m.faces| ==> FaceSound(m, f)
  {
    SweepPasses(FaceChecks(m));
    forall f: nat | f < |m.faces|
      ensures FaceChecks(m)[f] == Pass <==> FaceSound(m, f)
    {
    }
  }

  lemma EdgeScanIff(m: Mesh, closed: bool)
    requires WellFormed(m)
    ensures Sweep(EdgeChecks(m, closed)) == Pass <==> forall e: nat :: e < |m.edges| ==> EdgeLinked(m, e, closed)
  {
    SweepPasses(EdgeChecks(m, closed));
    forall e: nat | e < |m.edges|
      ensures EdgeChecks(m, closed)[e] == Pass <==> EdgeLinked(m, e, closed)
    {
    }
  }

  lemma TopologyScanIff(m: Mesh, closed: bool)
    requires WellFormed(m)
    ensures Sweep(TopologyChecks(m, closed)) == Pass <==> forall e: nat :: e < |m.edges| ==> EdgeTopology(m, e, closed)
  {
    SweepPasses(TopologyChecks(m, closed));
    forall e: nat | e < |m.edges|
      ensures TopologyChecks(m, closed)[e] == Pass <==> EdgeTopology(m, e, closed)
    {
    }
  }

  lemma WalkScanIff(m: Mesh, depth: int)
    requires WellFormed(m) && 0 < depth
    ensures Sweep(FaceWalks(m, depth)) == Pass <==> forall f: nat :: f < |m.faces| ==> FaceCloses(m, f, depth)
  {
    SweepPasses(FaceWalks(m, depth));
    forall f: nat | f < |m.faces|
      ensures FaceWalks(m, depth)[f] == Pass <==> FaceCloses(m, f, depth)
    {
      FaceWalkPasses(m, f, depth);
    }
  }

  lemma ConsistentIff(m: Mesh, closed: bool, depth: int)
    requires WellFormed(m)
    ensures Scans(m, closed, depth) == Pass <==> Consistent(m, closed, depth)
  {
    VertexScanIff(m);
    FaceScanIff(m);
    EdgeScanIff(m, closed);
    TopologyScanIff(m, closed);
    if closed && depth > 0 {
      WalkScanIff(m, depth);
    }
  }

  // ---------------------------------------------------------------------
  // Consequences, one per check of the C# method.
  // ---------------------------------------------------------------------

  /** A live vertex without a leaving half-edge, or whose leaving half-edge starts elsewhere, is never accepted. */
  lemma LiveVertexNeedsLeaving(m: Mesh, v: nat, closed: bool, depth: int)
    requires WellFormed(m) && v < |m.vertices| && m.vertices[v].id >= 0
    requires || m.vertices[v].leaving.None?
             || m.edges[m.vertices[v].leaving.value].origin.None?
             || VertexId(m, m.edges[m.vertices[v].leaving.value].origin) != m.vertices[v].id
    ensures IsConsistent(m, closed, depth) != Success(true)
  {
    assert !VertexSound(m, v);
  }

  /** A live face without a half-edge, or whose half-edge borders another face, is never accepted. */
  lemma LiveFaceNeedsEdge(m: Mesh, f: nat, closed: bool, depth: int)
    requires WellFormed(m) && f < |m.faces| && m.faces[f].id >= 0
    requires || m.faces[f].edge.None?
             || m.edges[m.faces[f].edge.value].face.NoFace?
             || FaceId(m, m.edges[m.faces[f].edge.value].face) != m.faces[f].id
    ensures IsConsistent(m, closed, depth) != Success(true)
  {
    assert !FaceSound(m, f);
  }

  /** A live half-edge with a null twin, origin or face (or a null next when closed) is never accepted. */
  lemma LiveEdgeNeedsPointers(m: Mesh, e: nat, closed: bool, depth: int)
    requires WellFormed(m) && e < |m.edges| && m.edges[e].id >= 0
    requires || m.edges[e].twin.None? || m.edges[e].origin.None? || m.edges[e].face.NoFace?
             || (closed && m.edges[e].next.None?)
    ensures IsConsistent(m, closed, depth) != Success(true)
  {
    assert !EdgeLinked(m, e, closed);
  }

  /** An accepted mesh has the twin involution on every live half-edge: `edge.id == edge.twin.twin.id`. */
  lemma AcceptedHasTwinInvolution(m: Mesh, closed: bool, depth: int)
    requires WellFormed(m) && IsConsistent(m, closed, depth) == Success(true)
    ensures forall e: nat :: e < |m.edges| && m.edges[e].id >= 0 ==>
              && m.edges[e].twin.Some?
              && m.edges[m.edges[e].twin.value].twin.Some?
              && m.edges[m.edges[m.edges[e].twin.value].twin.value].id == m.edges[e].id
  {
    forall e: nat | e < |m.edges| && m.edges[e].id >= 0
      ensures m.edges[e].twin.Some? && m.edges[m.edges[e].twin.value].twin.Some?
      ensures m.edges[m.edges[m.edges[e].twin.value].twin.value].id == m.edges[e].id
    {
      assert EdgeTopology(m, e, closed);
    }
  }

  /**
    An accepted closed mesh has, on every live half-edge, `next.origin == twin.origin`
    and `next.twin.next.origin == twin.origin` (compared by vertex id).
   */
  lemma AcceptedClosedLoopsAgree(m: Mesh, depth: int)
    requires WellFormed(m) && IsConsistent(m, true, depth) == Success(true)
    ensures forall e: nat :: e < |m.edges| && m.edges[e].id >= 0 ==>
              && m.edges[e].next.Some? && m.edges[e].twin.Some?
              && var next := m.edges[m.edges[e].next.value];
              && var twin := m.edges[m.edges[e].twin.value];
              && next.origin.Some? && twin.origin.Some? && next.twin.Some?
              && VertexId(m, next.origin) == VertexId(m, twin.origin)
              && m.edges[next.twin.value].next.Some?
              && m.edges[m.edges[next.twin.value].next.value].origin.Some?
              && VertexId(m, m.edges[m.edges[next.twin.value].next.value].origin) == VertexId(m, twin.origin)
  {
    forall e: nat | e < |m.edges| && m.edges[e].id >= 0
      ensures m.edges[e].next.Some? && m.edges[e].twin.Some?
      ensures var next := m.edges[m.edges[e].next.value];
              var twin := m.edges[m.edges[e].twin.value];
              && next.origin.Some? && twin.origin.Some? && next.twin.Some?
              && VertexId(m, next.origin) == VertexId(m, twin.origin)
              && m.edges[next.twin.value].next.Some?
              && m.edges[m.edges[next.twin.value].next.value].origin.Some?
              && VertexId(m, m.edges[m.edges[next.twin.value].next.value].origin) == VertexId(m, twin.origin)
    {
      assert EdgeTopology(m, e, true);
    }
  }

  /**
    The face walk: with `closed` and `depth > 0`, a live face whose cycle does not
    come back to `face.edge` within `depth` steps of `face.edge.next` is never
    accepted.
   */
  lemma FaceWalkBoundedByDepth(m: Mesh, f: nat, depth: int)
    requires WellFormed(m) && f < |m.faces| && m.faces[f].id >= 0 && depth > 0
    requires m.faces[f].edge.Some?
    requires forall n: nat :: n <= depth ==>
               !Reaches(m, m.edges[m.faces[f].edge.value].next, n, m.edges[m.faces[f].edge.value].id)
    ensures IsConsistent(m, true, depth) != Success(true)
  {
    assert !FaceCloses(m, f, depth);
  }

  /** With `depth <= 0`, or when not closed, the face walk is skipped and the depth makes no difference. */
  lemma DepthIrrelevant(m: Mesh, depth: int)
    requires WellFormed(m)
    ensures depth <= 0 ==> IsConsistent(m, true, depth) == IsConsistent(m, true, 0)
    ensures IsConsistent(m, false, depth) == IsConsistent(m, false, 0)
  {
  }

  // ---------------------------------------------------------------------
  // Elements with a negative id are skipped by every scan.
  // ---------------------------------------------------------------------

  function Append(m: Mesh, dv: seq<Vertex>, de: seq<HalfEdge>, df: seq<Face>): Mesh
  {
    Mesh(m.vertices + dv, m.edges + de, m.faces + df)
  }

  lemma {:induction false} WalkFrame(m: Mesh, dv: seq<Vertex>, de: seq<HalfEdge>, df: seq<Face>,
                                     cur: Option<nat>, id: int, k: int, depth: int)
    requires WellFormed(m) && WellFormed(Append(m, dv, de, df))
    requires InRange(cur, |m.edges|) && k <= depth
    ensures Walk(Append(m, dv, de, df), cur, id, k, depth) == Walk(m, cur, id, k, depth)
    decreases depth - k
  {
    var m' := Append(m, dv, de, df);
    if cur.Some? {
      assert m'.edges[cur.value] == m.edges[cur.value];
      if m.edges[cur.value].id != id && k < depth {
        WalkFrame(m, dv, de, df, m.edges[cur.value].next, id, k + 1, depth);
      }
    }
  }

  function Passes(n: nat): seq<Check>
  {
    seq(n, _ => Pass)
  }

  /**
    Appending vertices, half-edges and faces whose ids are negative leaves the
    verdict unchanged, whatever their fields hold: every scan skips them.
   */
  lemma DeadElementsIgnored(m: Mesh, dv: seq<Vertex>, de: seq<HalfEdge>, df: seq<Face>, closed: bool, depth: int)
    requires WellFormed(m) && WellFormed(Append(m, dv, de, df))
    requires forall i :: 0 <= i < |dv| ==> dv[i].id < 0
    requires forall i :: 0 <= i < |de| ==> de[i].id < 0
    requires forall i :: 0 <= i < |df| ==> df[i].id < 0
    ensures IsConsistent(Append(m, dv, de, df), closed, depth) == IsConsistent(m, closed, depth)
  {
    var m' := Append(m, dv, de, df);
    assert VertexChecks(m') == VertexChecks(m) + Passes(|dv|);
    assert FaceChecks(m') == FaceChecks(m) + Passes(|df|);
    assert EdgeChecks(m', closed) == EdgeChecks(m, closed) + Passes(|de|);
    assert TopologyChecks(m', closed) == TopologyChecks(m, closed) + Passes(|de|);
    SweepIgnoresTrailingPasses(VertexChecks(m), Passes(|dv|));
    SweepIgnoresTrailingPasses(FaceChecks(m), Passes(|df|));
    SweepIgnoresTrailingPasses(EdgeChecks(m, closed), Passes(|de|));
    SweepIgnoresTrailingPasses(TopologyChecks(m, closed), Passes(|de|));
    if closed && depth > 0 {
      forall f | 0 <= f < |m.faces|
        ensures FaceWalks(m', depth)[f] == FaceWalks(m, depth)[f]
      {
        var face := m.faces[f];
        if face.id >= 0 && face.edge.Some? {
          var edge := m.edges[face.edge.value];
          WalkFrame(m, dv, de, df, edge.next, edge.id, 0, depth);
        }
      }
      assert FaceWalks(m', depth) == FaceWalks(m, depth) + Passes(|df|);
      SweepIgnoresTrailingPasses(FaceWalks(m, depth), Passes(|df|));
    }
  }
}
