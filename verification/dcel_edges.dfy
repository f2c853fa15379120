/**
  `DcelMesh.EnumerateEdges`: the undirected edges of the container, one per
  pair of twins, reported by the half-edge of the pair whose id is smaller.
 */
module DcelEdges {
  import opened Common
  import opened Dcel

  /** The scan reports half-edge `e`: it has a twin and its id is below the twin's. */
  predicate Reported(m: Mesh, e: nat)
    requires WellFormed(m) && e < |m.edges|
  {
    m.edges[e].twin.Some? && m.edges[e].id < m.edges[m.edges[e].twin.value].id
  }

  /** Visiting `e` reads `edge.twin.id`, and both origins when it is reported: none may be null. */
  predicate Readable(m: Mesh, e: nat)
    requires WellFormed(m) && e < |m.edges|
  {
    && m.edges[e].twin.Some?
    && (Reported(m, e) ==> m.edges[e].origin.Some? && m.edges[m.edges[e].twin.value].origin.Some?)
  }

  /** The edge reported for `e`: from its origin to its twin's origin. */
  function EdgeOf(m: Mesh, e: nat): Edge
    requires WellFormed(m) && e < |m.edges| && Readable(m, e) && Reported(m, e)
  {
    Edge(VertexId(m, m.edges[e].origin), VertexId(m, m.edges[m.edges[e].twin.value].origin))
  }

  /** The indices from `i` on whose half-edge is reported. */
  ghost function ReportedFrom(m: Mesh, i: nat): set<nat>
    requires WellFormed(m)
  {
    set e: nat | i <= e < |m.edges| && Reported(m, e)
  }

  /** The scan of `edges[i..]`; a null twin or origin throws. */
  function EnumerateFrom(m: Mesh, i: nat): (r: Result<seq<Edge>>)
    requires WellFormed(m) && i <= |m.edges|
    ensures r.Success? <==> forall e: nat :: i <= e < |m.edges| ==> Readable(m, e)
    ensures r.Failure? ==> r.fault == NullReference
    decreases |m.edges| - i
  {
    if i == |m.edges| then
      Success([])
    else
      var edge := m.edges[i];
      if edge.twin.None? then
        assert !Readable(m, i);
        Failure(NullReference)
      else
        var twin := m.edges[edge.twin.value];
        var rest := EnumerateFrom(m, i + 1);
        if edge.id < twin.id then
          if edge.origin.None? || twin.origin.None? then
            assert !Readable(m, i);
            Failure(NullReference)
          else if rest.Failure? then rest
          else
            Success([Edge(VertexId(m, edge.origin), VertexId(m, twin.origin))] + rest.value)
        else
          rest
  }

  /** `EnumerateEdges()` of the container. */
  function EnumerateEdges(m: Mesh): (r: Result<seq<Edge>>)
    requires WellFormed(m)
    ensures r.Success? <==> forall e: nat :: e < |m.edges| ==> Readable(m, e)
  {
    EnumerateFrom(m, 0)
  }

  /** A successful scan of `edges[i..]` yields one edge per reported half-edge. */
  lemma {:induction false} EnumerateFromCount(m: Mesh, i: nat)
    requires WellFormed(m) && i <= |m.edges|
    requires EnumerateFrom(m, i).Success?
    ensures |EnumerateFrom(m, i).value| == |ReportedFrom(m, i)|
    decreases |m.edges| - i
  {
    if i == |m.edges| {
      assert ReportedFrom(m, i) == {};
    } else {
      EnumerateFromCount(m, i + 1);
      ReportedFromStep(m, i);
      ScanLength(m, i);
    }
  }

  lemma ReportedFromStep(m: Mesh, i: nat)
    requires WellFormed(m) && i < |m.edges|
    ensures |ReportedFrom(m, i)| == |ReportedFrom(m, i + 1)| + (if Reported(m, i) then 1 else 0)
  {
    if Reported(m, i) {
      assert ReportedFrom(m, i) == ReportedFrom(m, i + 1) + {i};
    } else {
      assert ReportedFrom(m, i) == ReportedFrom(m, i + 1);
    }
  }

  lemma ScanLength(m: Mesh, i: nat)
    requires WellFormed(m) && i < |m.edges|
    requires EnumerateFrom(m, i).Success?
    ensures EnumerateFrom(m, i + 1).Success?
    ensures |EnumerateFrom(m, i).value| == |EnumerateFrom(m, i + 1).value| + (if Reported(m, i) then 1 else 0)
  {
  }

  /** A successful scan of `edges[i..]` lists exactly the edges of the reported half-edges. */
  lemma {:induction false} EnumerateFromContents(m: Mesh, i: nat)
    requires WellFormed(m) && i <= |m.edges|
    requires EnumerateFrom(m, i).Success?
    ensures forall x :: x in EnumerateFrom(m, i).value <==>
              exists e: nat :: i <= e < |m.edges| && Reported(m, e) && x == EdgeOf(m, e)
    decreases |m.edges| - i
  {
    if i < |m.edges| {
      EnumerateFromContents(m, i + 1);
      var r := EnumerateFrom(m, i);
      var rest := EnumerateFrom(m, i + 1).value;
      if Reported(m, i) {
        assert r.value == [EdgeOf(m, i)] + rest;
      } else {
        assert r.value == rest;
      }
      forall x | x in r.value
        ensures exists e: nat :: i <= e < |m.edges| && Reported(m, e) && x == EdgeOf(m, e)
      {
        if x !in rest {
          assert Reported(m, i) && x == EdgeOf(m, i);
        }
      }
    }
  }

  // ---------------------------------------------------------------------
  // One entry per pair of twins.
  // ---------------------------------------------------------------------

  /** Twins are paired: each half-edge has a twin other than itself whose twin is the half-edge. */
  predicate Paired(m: Mesh)
    requires WellFormed(m)
  {
    forall e :: 0 <= e < |m.edges| ==>
      && m.edges[e].twin.Some?
      && m.edges[e].twin.value != e
      && m.edges[m.edges[e].twin.value].twin == Some(e)
  }

  ghost function TwinImage(m: Mesh, a: set<nat>): set<nat>
    requires WellFormed(m) && Paired(m)
    requires forall e :: e in a ==> e < |m.edges|
  {
    set e | e in a :: m.edges[e].twin.value
  }

  lemma {:induction false} TwinImageSize(m: Mesh, a: set<nat>)
    requires WellFormed(m) && Paired(m)
    requires forall e :: e in a ==> e < |m.edges|
    ensures |TwinImage(m, a)| == |a|
    decreases |a|
  {
    if a != {} {
      var x :| x in a;
      var a' := a - {x};
      TwinImageSize(m, a');
      var t := m.edges[x].twin.value;
      assert TwinImage(m, a) == TwinImage(m, a') + {t};
      assert m.edges[t].twin == Some(x);
      assert forall y :: y in a' ==> m.edges[m.edges[y].twin.value].twin == Some(y);
      assert t !in TwinImage(m, a');
    }
  }

  predicate Below(e: nat, n: nat)
  {
    e < n
  }

  lemma {:induction false} RangeSize(n: nat)
    ensures |set e: nat | e < n && Below(e, n)| == n
  {
    if n > 0 {
      var k := n - 1;
      RangeSize(k);
      assert (set e: nat | e < n && Below(e, n)) == (set e: nat | e < k && Below(e, k)) + {k};
    }
  }

  lemma SubsetSize(a: set<nat>, b: set<nat>)
    requires a <= b
    ensures |a| <= |b|
  {
    assert b == a + (b - a);
  }

  /** Of each pair of twins with different ids exactly one half-edge is reported, so half of them are. */
  lemma HalfReported(m: Mesh)
    requires WellFormed(m) && Paired(m)
    requires forall e :: 0 <= e < |m.edges| ==> m.edges[e].id != m.edges[m.edges[e].twin.value].id
    ensures 2 * |ReportedFrom(m, 0)| == |m.edges|
  {
    var n := |m.edges|;
    var a := ReportedFrom(m, 0);
    var b := set e: nat | e < n && !Reported(m, e);
    TwinImageSize(m, a);
    TwinImageSize(m, b);
    assert TwinImage(m, a) <= b;
    assert TwinImage(m, b) <= a;
    SubsetSize(TwinImage(m, a), b);
    SubsetSize(TwinImage(m, b), a);
    RangeSize(n);
    assert (set e: nat | e < n && Below(e, n)) == a + b;
    assert a !! b;
  }

  /**
    When twins are paired and the two half-edges of a pair have different ids,
    the enumeration succeeds and reports exactly one edge per pair: half as many
    edges as there are half-edges, each pair through its smaller-id half-edge.
   */
  lemma OneEdgePerTwinPair(m: Mesh)
    requires WellFormed(m) && Paired(m)
    requires forall e :: 0 <= e < |m.edges| ==> m.edges[e].origin.Some?
    requires forall e :: 0 <= e < |m.edges| ==> m.edges[e].id != m.edges[m.edges[e].twin.value].id
    ensures EnumerateEdges(m).Success?
    ensures 2 * |EnumerateEdges(m).value| == |m.edges|
    ensures forall e: nat :: e < |m.edges| ==>
              (EdgeOf(m, e) in EnumerateEdges(m).value <== Reported(m, e))
    ensures forall e: nat :: e < |m.edges| ==>
              Reported(m, e) != Reported(m, m.edges[e].twin.value)
  {
    HalfReported(m);
    EnumerateFromCount(m, 0);
    EnumerateFromContents(m, 0);
  }
}
