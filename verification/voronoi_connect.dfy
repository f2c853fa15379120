/**
  `VoronoiBase.ConnectEdges`: the `next` pointer of every half-edge, found in
  the bucket of half-edges leaving its destination.

  The loop writes only `next`, and every lookup reads `face`, `twin`,
  `origin` and `generator`, so each half-edge's lookup sees the mesh as it was
  before the loop: the model computes every `next` from the input mesh.
 */
module VoronoiConnect {
  import opened Common
  import opened Dcel

  /** Every bucket entry designates a half-edge of the arena. */
  predicate BucketsInRange(m: Mesh, buckets: seq<seq<nat>>)
  {
    forall x, i :: 0 <= x < |buckets| && 0 <= i < |buckets[x]| ==> buckets[x][i] < |m.edges|
  }

  /**
    `h.face.generator.id`, or the null dereference it hits. The sentinel
    `Face.Empty` has no generator in the arena and is taken as a null one.
   */
  function GeneratorOf(m: Mesh, h: HalfEdge): (r: Result<int>)
    requires h.face.FaceAt? ==> h.face.index < |m.faces|
    ensures r.Success? <==> h.face.FaceAt?
  {
    if h.face.FaceAt? then Success(m.faces[h.face.index].generator) else Failure(NullReference)
  }

  /**
    The scan `foreach (var next in map[id])` from position `i` of `bucket`:
    the position of the first entry whose face has generator `g`, none when
    there is no such entry, or the null dereference met on the way.
   */
  function FirstMatch(m: Mesh, bucket: seq<nat>, g: int, i: nat): (r: Result<Option<nat>>)
    requires WellFormed(m) && i <= |bucket|
    requires forall j :: 0 <= j < |bucket| ==> bucket[j] < |m.edges|
    ensures r.Success? && r.value.Some? ==>
      i <= r.value.value < |bucket| && GeneratorOf(m, m.edges[bucket[r.value.value]]) == Success(g)
    ensures r.Success? ==>
      forall j :: i <= j < (if r.value.Some? then r.value.value else |bucket|) ==>
        GeneratorOf(m, m.edges[bucket[j]]).Success? && GeneratorOf(m, m.edges[bucket[j]]) != Success(g)
    ensures r.Failure? ==> r.fault == NullReference
    ensures (forall j :: i <= j < |bucket| ==> m.edges[bucket[j]].face.FaceAt?) ==> r.Success?
    decreases |bucket| - i
  {
    if i == |bucket| then Success(None)
    else
      match GeneratorOf(m, m.edges[bucket[i]])
      case Failure(f) => Failure(f)
      case Success(h) => if h == g then Success(Some(i)) else FirstMatch(m, bucket, g, i + 1)
  }

  /**
    The `next` `ConnectEdges` finds for half-edge `e`: `Success(Some(n))` sets
    it to `n`; `Success(None)` leaves it as it is, because the destination
    `edge.twin.origin` is an infinite vertex (its id is at least the number of
    buckets) or no half-edge in its bucket lies on a face with the same
    generator; a failure is the exception the lookup throws.
   */
  function NextFor(m: Mesh, buckets: seq<seq<nat>>, e: nat): Result<Option<nat>>
    requires WellFormed(m) && BucketsInRange(m, buckets) && e < |m.edges|
  {
    var edge := m.edges[e];
    match GeneratorOf(m, edge)
    case Failure(f) => Failure(f)
    case Success(g) =>
      if edge.twin.None? || m.edges[edge.twin.value].origin.None? then Failure(NullReference)
      else
        var id := m.vertices[m.edges[edge.twin.value].origin.value].id;
        if id >= |buckets| then Success(None)
        else if id < 0 then Failure(IndexOutOfRange)
        else
          match FirstMatch(m, buckets[id], g, 0)
          case Failure(f) => Failure(f)
          case Success(p) => Success(if p.Some? then Some(buckets[id][p.value]) else None)
  }

  /** Half-edge `e` after `ConnectEdges`. */
  function Connected(m: Mesh, buckets: seq<seq<nat>>, e: nat): HalfEdge
    requires WellFormed(m) && BucketsInRange(m, buckets) && e < |m.edges|
    requires NextFor(m, buckets, e).Success?
  {
    var n := NextFor(m, buckets, e).value;
    if n.Some? then m.edges[e].(next := n) else m.edges[e]
  }

  /**
    `ConnectEdges`: succeeds exactly when no lookup throws, and otherwise
    throws what the first failing half-edge's lookup throws; on success only
    `next` pointers change, each as `NextFor` says, and the mesh stays well formed.
   */
  method ConnectEdges(m: Mesh, buckets: seq<seq<nat>>) returns (r: Result<Mesh>)
    requires WellFormed(m) && BucketsInRange(m, buckets)
    ensures r.Success? <==> forall e :: 0 <= e < |m.edges| ==> NextFor(m, buckets, e).Success?
    ensures r.Failure? ==>
      exists e :: && 0 <= e < |m.edges| && NextFor(m, buckets, e) == Failure(r.fault)
                  && forall d :: 0 <= d < e ==> NextFor(m, buckets, d).Success?
    ensures r.Success? ==>
      && r.value.vertices == m.vertices && r.value.faces == m.faces
      && |r.value.edges| == |m.edges|
      && (forall e :: 0 <= e < |m.edges| ==> r.value.edges[e] == Connected(m, buckets, e))
      && WellFormed(r.value)
  {
    var edges := m.edges;
    var e := 0;
    while e < |m.edges|
      invariant e <= |m.edges| && |edges| == |m.edges|
      invariant forall d :: 0 <= d < e ==> NextFor(m, buckets, d).Success?
      invariant forall d :: 0 <= d < e ==> edges[d] == Connected(m, buckets, d)
      invariant forall d :: e <= d < |m.edges| ==> edges[d] == m.edges[d]
    {
      var found := NextFor(m, buckets, e);
      if found.Failure? {
        return Failure(found.fault);
      }
      if found.value.Some? {
        edges := edges[e := edges[e].(next := found.value)];
      }
      e := e + 1;
    }
    r := Success(Mesh(m.vertices, edges, m.faces));
    assert forall d :: 0 <= d < |edges| ==> EdgeRefsInRange(r.value, edges[d]) by {
      forall d | 0 <= d < |edges|
        ensures EdgeRefsInRange(r.value, edges[d])
      {
        assert EdgeRefsInRange(m, m.edges[d]);
      }
    }
  }
}
