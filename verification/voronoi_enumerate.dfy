/**
  `VoronoiBase.EnumerateEdges`, which overrides the container's scan: a
  half-edge without a twin (a ray before the boundary is resolved) is
  reported from its origin to the origin of its `next`.
 */
module VoronoiEnumerate {
  import opened Common
  import opened Dcel
  import DcelEdges

  /** The override reports `e`: it has no twin, or its id is below its twin's. */
  predicate Reported(m: Mesh, e: nat)
    requires WellFormed(m) && e < |m.edges|
  {
    m.edges[e].twin.None? || DcelEdges.Reported(m, e)
  }

  /**
    Visiting `e` reads both origins of what it reports: `origin` and
    `next.origin` without a twin, `origin` and `twin.origin` otherwise.
   */
  predicate Readable(m: Mesh, e: nat)
    requires WellFormed(m) && e < |m.edges|
  {
    var edge := m.edges[e];
    if edge.twin.None? then edge.origin.Some? && edge.next.Some? && m.edges[edge.next.value].origin.Some?
    else DcelEdges.Readable(m, e)
  }

  /** The far end the override reports for `e`: `next.origin` without a twin, `twin.origin` otherwise. */
  function Far(m: Mesh, e: nat): Option<nat>
    requires WellFormed(m) && e < |m.edges|
  {
    var edge := m.edges[e];
    if edge.twin.None? then (if edge.next.Some? then m.edges[edge.next.value].origin else None)
    else m.edges[edge.twin.value].origin
  }

  function EdgeOf(m: Mesh, e: nat): Edge
    requires WellFormed(m) && e < |m.edges| && Readable(m, e) && Reported(m, e)
  {
    Edge(VertexId(m, m.edges[e].origin), VertexId(m, Far(m, e)))
  }

  ghost function ReportedFrom(m: Mesh, i: nat): set<nat>
    requires WellFormed(m)
  {
    set e: nat | i <= e < |m.edges| && Reported(m, e)
  }

  /** The scan of `edges[i..]`; a null reference on the way throws. */
  function EnumerateFrom(m: Mesh, i: nat): (r: Result<seq<Edge>>)
    requires WellFormed(m) && i <= |m.edges|
    ensures r.Success? <==> forall e: nat :: i <= e < |m.edges| ==> Readable(m, e)
    ensures r.Failure? ==> r.fault == NullReference
    decreases |m.edges| - i
  {
    if i == |m.edges| then
      Success([])
    else
      var edge := m.edges[i];
      var rest := EnumerateFrom(m, i + 1);
      if edge.twin.None? then
        if edge.origin.None? || edge.next.None? || m.edges[edge.next.value].origin.None? then
          assert !Readable(m, i);
          Failure(NullReference)
        else if rest.Failure? then rest
        else
          Success([Edge(VertexId(m, edge.origin), VertexId(m, m.edges[edge.next.value].origin))] + rest.value)
      else
        var twin := m.edges[edge.twin.value];
        if edge.id < twin.id then
          if edge.origin.None? || twin.origin.None? then
            assert !Readable(m, i);
            Failure(NullReference)
          else if rest.Failure? then rest
          else
            Success([Edge(VertexId(m, edge.origin), VertexId(m, twin.origin))] + rest.value)
        else
          rest
  }

  /** A successful scan of `edges[i..]` yields one edge per reported half-edge. */
  lemma {:induction false} EnumerateFromCount(m: Mesh, i: nat)
    requires WellFormed(m) && i <= |m.edges|
    requires EnumerateFrom(m, i).Success?
    ensures |EnumerateFrom(m, i).value| == |ReportedFrom(m, i)|
    decreases |m.edges| - i
  {
    if i == |m.edges| {
      assert ReportedFrom(m, i) == {};
    } else {
      EnumerateFromCount(m, i + 1);
      ReportedFromStep(m, i);
      ScanLength(m, i);
    }
  }

  lemma ReportedFromStep(m: Mesh, i: nat)
    requires WellFormed(m) && i < |m.edges|
    ensures |ReportedFrom(m, i)| == |ReportedFrom(m, i + 1)| + (if Reported(m, i) then 1 else 0)
  {
    if Reported(m, i) {
      assert ReportedFrom(m, i) == ReportedFrom(m, i + 1) + {i};
    } else {
      assert ReportedFrom(m, i) == ReportedFrom(m, i + 1);
    }
  }

  lemma ScanLength(m: Mesh, i: nat)
    requires WellFormed(m) && i < |m.edges|
    requires EnumerateFrom(m, i).Success?
    ensures EnumerateFrom(m, i + 1).Success?
    ensures |EnumerateFrom(m, i).value| == |EnumerateFrom(m, i + 1).value| + (if Reported(m, i) then 1 else 0)
  {
  }

  /** Every half-edge the override reports from `i` on contributes its edge, and nothing else is listed. */
  lemma {:induction false} EnumerateFromContents(m: Mesh, i: nat)
    requires WellFormed(m) && i <= |m.edges|
    requires EnumerateFrom(m, i).Success?
    ensures forall x :: x in EnumerateFrom(m, i).value <==>
              exists e: nat :: i <= e < |m.edges| && Reported(m, e) && x == EdgeOf(m, e)
    decreases |m.edges| - i
  {
    if i < |m.edges| {
      EnumerateFromContents(m, i + 1);
      var r := EnumerateFrom(m, i);
      var rest := EnumerateFrom(m, i + 1).value;
      if Reported(m, i) {
        assert r.value == [EdgeOf(m, i)] + rest;
      } else {
        assert r.value == rest;
      }
      forall x | x in r.value
        ensures exists e: nat :: i <= e < |m.edges| && Reported(m, e) && x == EdgeOf(m, e)
      {
        if x !in rest {
          assert Reported(m, i) && x == EdgeOf(m, i);
        }
      }
    }
  }

  /** A half-edge with a twin of larger id contributes its edge ahead of the rest of the scan. */
  lemma ScanReports(m: Mesh, i: nat)
    requires WellFormed(m) && i < |m.edges|
    requires m.edges[i].twin.Some? && m.edges[i].id < m.edges[m.edges[i].twin.value].id
    requires m.edges[i].origin.Some? && m.edges[m.edges[i].twin.value].origin.Some?
    requires EnumerateFrom(m, i + 1).Success?
    ensures EnumerateFrom(m, i) ==
      Success([Edge(VertexId(m, m.edges[i].origin), VertexId(m, m.edges[m.edges[i].twin.value].origin))] + EnumerateFrom(m, i + 1).value)
  {
  }

  /** A half-edge whose twin's id is not larger contributes nothing. */
  lemma ScanSkips(m: Mesh, i: nat)
    requires WellFormed(m) && i < |m.edges|
    requires m.edges[i].twin.Some? && m.edges[i].id >= m.edges[m.edges[i].twin.value].id
    ensures EnumerateFrom(m, i) == EnumerateFrom(m, i + 1)
  {
  }

  /**
    Half-edges `2q` and `2q + 1` are each other's twins, with their positions
    as ids and both origins set, and `x` is the edge from the first origin to
    the second.
   */
  predicate PairAt(m: Mesh, q: nat, x: Edge)
    requires WellFormed(m) && 2 * q + 1 < |m.edges|
  {
    && m.edges[2 * q].twin == Some(2 * q + 1) && m.edges[2 * q + 1].twin == Some(2 * q)
    && m.edges[2 * q].id == 2 * q && m.edges[2 * q + 1].id == 2 * q + 1
    && m.edges[2 * q].origin.Some? && m.edges[2 * q + 1].origin.Some?
    && x == Edge(VertexId(m, m.edges[2 * q].origin), VertexId(m, m.edges[2 * q + 1].origin))
  }

  /** When the half-edges come in such pairs, the scan from `2p` lists the pairs' edges from `p` on, in order. */
  lemma {:induction false} ScanPairs(m: Mesh, list: seq<Edge>, p: nat)
    requires WellFormed(m) && |m.edges| == 2 * |list| && p <= |list|
    requires forall q :: p <= q < |list| ==> PairAt(m, q, list[q])
    ensures EnumerateFrom(m, 2 * p) == Success(list[p..])
    decreases |list| - p
  {
    if p < |list| {
      ScanPairs(m, list, p + 1);
      assert PairAt(m, p, list[p]);
      ScanSkips(m, 2 * p + 1);
      ScanReports(m, 2 * p);
      assert list[p..] == [list[p]] + list[p + 1..];
    } else {
      assert list[p..] == [];
    }
  }

  /** `EnumerateEdges()` of the Voronoi diagram. */
  function EnumerateEdges(m: Mesh): (r: Result<seq<Edge>>)
    requires WellFormed(m)
    ensures r.Success? <==> forall e: nat :: e < |m.edges| ==> Readable(m, e)
  {
    EnumerateFrom(m, 0)
  }

  /** When every half-edge has a twin, the override reports exactly what the container's scan reports. */
  lemma {:induction false} AgreesWithBaseFrom(m: Mesh, i: nat)
    requires WellFormed(m) && i <= |m.edges|
    requires forall e :: 0 <= e < |m.edges| ==> m.edges[e].twin.Some?
    ensures EnumerateFrom(m, i) == DcelEdges.EnumerateFrom(m, i)
    decreases |m.edges| - i
  {
    if i < |m.edges| {
      AgreesWithBaseFrom(m, i + 1);
    }
  }

  lemma AgreesWithBase(m: Mesh)
    requires WellFormed(m)
    requires forall e :: 0 <= e < |m.edges| ==> m.edges[e].twin.Some?
    ensures EnumerateEdges(m) == DcelEdges.EnumerateEdges(m)
  {
    AgreesWithBaseFrom(m, 0);
  }
}
