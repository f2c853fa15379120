/**
  `DcelMesh.ResolveBoundaryEdges`: every half-edge without a twin gets a new
  twin on the sentinel face; the new twins are stored by the id of their origin
  vertex, then numbered after the existing half-edges; each is linked to the
  new twin stored under the origin of its own twin.

  The C# code iterates `Dictionary.Values`, whose order .NET leaves
  unspecified; the model takes that order as the parameter `order`, a
  permutation of the twin-less half-edges (each new twin is identified by the
  half-edge it pairs with), together with its inverse `rank`.
 */
module DcelBoundary {
  import opened Common
  import opened Dcel
  import opened DcelEdges

  /** Half-edge `e` has no twin yet. */
  predicate Open(m: Mesh, e: nat)
    requires e < |m.edges|
  {
    m.edges[e].twin.None?
  }

  /** `edge.next.origin` can be read and is not null: the origin its new twin gets. */
  predicate HasTwinOrigin(m: Mesh, e: nat)
    requires WellFormed(m) && e < |m.edges|
  {
    m.edges[e].next.Some? && m.edges[m.edges[e].next.value].origin.Some?
  }

  function TwinOrigin(m: Mesh, e: nat): nat
    requires WellFormed(m) && e < |m.edges| && HasTwinOrigin(m, e)
  {
    m.edges[m.edges[e].next.value].origin.value
  }

  /** The dictionary key of the new twin of `e`: the id of its origin vertex. */
  function Key(m: Mesh, e: nat): int
    requires WellFormed(m) && e < |m.edges| && HasTwinOrigin(m, e)
  {
    m.vertices[TwinOrigin(m, e)].id
  }

  /**
    `order` lists every twin-less half-edge exactly once, and `rank` gives each
    twin-less half-edge its position in `order`.
   */
  predicate IsOrderOfOpen(m: Mesh, order: seq<nat>, rank: seq<nat>)
  {
    && |rank| == |m.edges|
    && (forall q :: 0 <= q < |order| ==> order[q] < |m.edges| && m.edges[order[q]].twin.None? && rank[order[q]] == q)
    && (forall e {:trigger rank[e]} :: 0 <= e < |m.edges| && m.edges[e].twin.None? ==> rank[e] < |order| && order[rank[e]] == e)
  }

  // ---------------------------------------------------------------------
  // First loop: create the twins and store them by origin id.
  // ---------------------------------------------------------------------

  /** The loop over `edges[e..]` with dictionary `keys` (origin id to the half-edge the twin pairs with). */
  function Collect(m: Mesh, e: nat, keys: map<int, nat>): Result<map<int, nat>>
    requires WellFormed(m) && e <= |m.edges|
    decreases |m.edges| - e
  {
    if e == |m.edges| then Success(keys)
    else if !Open(m, e) then Collect(m, e + 1, keys)
    else if m.edges[e].next.None? then Failure(NullReference)              // edge.next.origin
    else if m.edges[m.edges[e].next.value].origin.None? then Failure(NullReference)  // twin.origin.id
    else if Key(m, e) in keys then Failure(DuplicateKey)                    // map.Add
    else Collect(m, e + 1, keys[Key(m, e) := e])
  }

  /** `keys` holds exactly the twins created for the twin-less half-edges below `i`. */
  ghost predicate KeysUpTo(m: Mesh, i: nat, keys: map<int, nat>)
    requires WellFormed(m) && i <= |m.edges|
  {
    && (forall k :: k in keys ==> keys[k] < i && Open(m, keys[k]) && HasTwinOrigin(m, keys[k]) && Key(m, keys[k]) == k)
    && (forall e: nat :: e < i && Open(m, e) ==> HasTwinOrigin(m, e) && Key(m, e) in keys && keys[Key(m, e)] == e)
  }

  /** Every twin-less half-edge from `i` on has a readable `next.origin`. */
  ghost predicate ReadyFrom(m: Mesh, i: nat)
    requires WellFormed(m)
  {
    forall e: nat :: i <= e < |m.edges| && Open(m, e) ==> HasTwinOrigin(m, e)
  }

  /** No twin-less half-edge from `i` on shares its key with an earlier twin-less one. */
  ghost predicate DistinctFrom(m: Mesh, i: nat)
    requires WellFormed(m)
  {
    forall e1: nat, e2: nat ::
      e1 < e2 < |m.edges| && i <= e2 && Open(m, e1) && Open(m, e2) && HasTwinOrigin(m, e1) && HasTwinOrigin(m, e2)
      ==> Key(m, e1) != Key(m, e2)
  }

  /** Storing the twin of `i` extends the dictionary invariant by one position. */
  lemma KeysExtend(m: Mesh, i: nat, keys: map<int, nat>)
    requires WellFormed(m) && i < |m.edges| && KeysUpTo(m, i, keys)
    requires Open(m, i) && HasTwinOrigin(m, i) && Key(m, i) !in keys
    ensures KeysUpTo(m, i + 1, keys[Key(m, i) := i])
  {
  }

  /** When the key of `i` is fresh, checking distinctness from `i` on is checking it from `i + 1` on. */
  lemma DistinctStep(m: Mesh, i: nat, keys: map<int, nat>)
    requires WellFormed(m) && i < |m.edges| && KeysUpTo(m, i, keys)
    requires Open(m, i) && HasTwinOrigin(m, i) && Key(m, i) !in keys
    ensures DistinctFrom(m, i) <==> DistinctFrom(m, i + 1)
  {
    forall e1: nat | e1 < i && Open(m, e1)
      ensures HasTwinOrigin(m, e1) && Key(m, e1) != Key(m, i)
    {
    }
  }

  lemma {:induction false} CollectSpec(m: Mesh, i: nat, keys: map<int, nat>)
    requires WellFormed(m) && i <= |m.edges| && KeysUpTo(m, i, keys)
    ensures Collect(m, i, keys).Success? <==> ReadyFrom(m, i) && DistinctFrom(m, i)
    ensures Collect(m, i, keys).Success? ==> KeysUpTo(m, |m.edges|, Collect(m, i, keys).value)
    decreases |m.edges| - i
  {
    if i == |m.edges| {
    } else if !Open(m, i) {
      CollectSpec(m, i + 1, keys);
      assert ReadyFrom(m, i) <==> ReadyFrom(m, i + 1);
      assert DistinctFrom(m, i) <==> DistinctFrom(m, i + 1);
    } else if !HasTwinOrigin(m, i) {
      assert !ReadyFrom(m, i);
    } else if Key(m, i) in keys {
      var e1 := keys[Key(m, i)];
      assert !DistinctFrom(m, i) by {
        assert e1 < i && Open(m, e1) && HasTwinOrigin(m, e1) && Key(m, e1) == Key(m, i);
      }
    } else {
      KeysExtend(m, i, keys);
      CollectSpec(m, i + 1, keys[Key(m, i) := i]);
      DistinctStep(m, i, keys);
      assert ReadyFrom(m, i) <==> ReadyFrom(m, i + 1);
    }
  }

  // ---------------------------------------------------------------------
  // Second loop: number the twins and link each to the twin stored under
  // the origin id of the half-edge it pairs with.
  // ---------------------------------------------------------------------

  /** The new twin at position q of `order`, whose `next` is the new twin of `target`. */
  function NewTwin(m: Mesh, order: seq<nat>, rank: seq<nat>, q: nat, target: nat): HalfEdge
    requires WellFormed(m) && IsOrderOfOpen(m, order, rank) && q < |order|
    requires target < |m.edges| && Open(m, target)
    requires HasTwinOrigin(m, order[q])
  {
    HalfEdge(|m.edges| + q, Some(TwinOrigin(m, order[q])), Some(order[q]),
             Some(|m.edges| + rank[target]), EmptyFace)
  }

  /** The origin of the half-edge a new twin pairs with can be looked up in the dictionary. */
  predicate Linkable(m: Mesh, keys: map<int, nat>, e: nat)
    requires WellFormed(m) && e < |m.edges|
  {
    m.edges[e].origin.Some? && VertexId(m, m.edges[e].origin) in keys
  }

  /** The dictionary entry the new twin at position p of `order` links to. */
  function Target(m: Mesh, order: seq<nat>, rank: seq<nat>, keys: map<int, nat>, p: nat): nat
    requires WellFormed(m) && IsOrderOfOpen(m, order, rank) && p < |order| && Linkable(m, keys, order[p])
  {
    keys[VertexId(m, m.edges[order[p]].origin)]
  }

  function Link(m: Mesh, order: seq<nat>, rank: seq<nat>, keys: map<int, nat>, q: nat): (r: Result<seq<HalfEdge>>)
    requires WellFormed(m) && IsOrderOfOpen(m, order, rank) && q <= |order|
    requires forall k :: k in keys ==> keys[k] < |m.edges| && Open(m, keys[k])
    requires ReadyFrom(m, 0)
    ensures r.Success? <==> forall p :: q <= p < |order| ==> Linkable(m, keys, order[p])
    ensures r.Success? ==> |r.value| == |order| - q
    decreases |order| - q
  {
    if q == |order| then Success([])
    else
      var e := order[q];
      if !Linkable(m, keys, e) then
        // edge.twin.origin.id throws on a null origin; map[...] on an absent key
        if m.edges[e].origin.None? then Failure(NullReference) else Failure(KeyNotFound)
      else
        var rest := Link(m, order, rank, keys, q + 1);
        if rest.Failure? then rest
        else
          Success([NewTwin(m, order, rank, q, Target(m, order, rank, keys, q))] + rest.value)
  }

  /** The i-th twin `Link` returns is the new twin of `order[q + i]`. */
  lemma {:induction false} LinkElements(m: Mesh, order: seq<nat>, rank: seq<nat>, keys: map<int, nat>, q: nat, i: nat)
    requires WellFormed(m) && IsOrderOfOpen(m, order, rank) && q <= |order|
    requires forall k :: k in keys ==> keys[k] < |m.edges| && Open(m, keys[k])
    requires ReadyFrom(m, 0)
    requires Link(m, order, rank, keys, q).Success? && i < |order| - q
    ensures Linkable(m, keys, order[q + i])
    ensures Link(m, order, rank, keys, q).value[i] == NewTwin(m, order, rank, q + i, Target(m, order, rank, keys, q + i))
    decreases i
  {
    if i > 0 {
      LinkElements(m, order, rank, keys, q + 1, i - 1);
    }
  }

  /** The existing half-edges after the first loop: each twin-less one points at its new twin. */
  function Patch(m: Mesh, order: seq<nat>, rank: seq<nat>): (r: seq<HalfEdge>)
    requires IsOrderOfOpen(m, order, rank)
    ensures |r| == |m.edges|
  {
    seq(|m.edges|, e requires 0 <= e < |m.edges| && IsOrderOfOpen(m, order, rank) =>
      if Open(m, e) then m.edges[e].(twin := Some(|m.edges| + rank[e])) else m.edges[e])
  }

  /** `ResolveBoundaryEdges()`, with `order` the iteration order of the dictionary's values. */
  function ResolveBoundaryEdges(m: Mesh, order: seq<nat>, rank: seq<nat>): Result<Mesh>
    requires WellFormed(m) && IsOrderOfOpen(m, order, rank)
  {
    CollectSpec(m, 0, map[]);
    var keys := Collect(m, 0, map[]);
    if keys.Failure? then Failure(keys.fault)
    else
      var twins := Link(m, order, rank, keys.value, 0);
      if twins.Failure? then Failure(twins.fault)
      else Success(Mesh(m.vertices, Patch(m, order, rank) + twins.value, m.faces))
  }

  // ---------------------------------------------------------------------
  // What the operation guarantees.
  // ---------------------------------------------------------------------

  /**
    The conditions under which the C# method does not throw: every twin-less
    half-edge has a successor with an origin, the origins of the new twins have
    distinct ids, and the origin of every twin-less half-edge is one of them.
   */
  ghost predicate Resolvable(m: Mesh)
    requires WellFormed(m)
  {
    && ReadyFrom(m, 0)
    && DistinctFrom(m, 0)
    && forall e: nat :: e < |m.edges| && Open(m, e) ==> Closes(m, e)
  }

  /** The origin of `e` is the origin of some new twin, so the lookup for `e`'s own new twin finds one. */
  ghost predicate Closes(m: Mesh, e: nat)
    requires WellFormed(m) && e < |m.edges|
  {
    && m.edges[e].origin.Some?
    && exists e2: nat :: e2 < |m.edges| && Open(m, e2) && HasTwinOrigin(m, e2) && Key(m, e2) == VertexId(m, m.edges[e].origin)
  }

  lemma LinkableIff(m: Mesh, keys: map<int, nat>, e: nat)
    requires WellFormed(m) && e < |m.edges| && KeysUpTo(m, |m.edges|, keys)
    ensures Linkable(m, keys, e) <==> Closes(m, e)
  {
    if m.edges[e].origin.Some? {
      var k := VertexId(m, m.edges[e].origin);
      if k in keys {
        assert Key(m, keys[k]) == k;
      }
    }
  }

  /**
    With the dictionary complete, the second loop succeeds exactly when the origin
    of every twin-less half-edge is the key of some new twin (`Closes`).
   */
  lemma LinkSucceedsIff(m: Mesh, order: seq<nat>, rank: seq<nat>, ks: map<int, nat>)
    requires WellFormed(m) && IsOrderOfOpen(m, order, rank)
    requires ReadyFrom(m, 0) && KeysUpTo(m, |m.edges|, ks)
    ensures forall k :: k in ks ==> ks[k] < |m.edges| && Open(m, ks[k])
    ensures Link(m, order, rank, ks, 0).Success? <==> forall e: nat :: e < |m.edges| && Open(m, e) ==> Closes(m, e)
  {
    forall p | 0 <= p < |order|
      ensures Linkable(m, ks, order[p]) <==> Closes(m, order[p])
    {
      LinkableIff(m, ks, order[p]);
    }
    forall e: nat | e < |m.edges| && Open(m, e)
      ensures order[rank[e]] == e
      ensures Linkable(m, ks, order[rank[e]]) <==> Closes(m, e)
    {
    }
  }

  lemma ResolveSucceedsIff(m: Mesh, order: seq<nat>, rank: seq<nat>)
    requires WellFormed(m) && IsOrderOfOpen(m, order, rank)
    ensures ResolveBoundaryEdges(m, order, rank).Success? <==> Resolvable(m)
  {
    CollectSpec(m, 0, map[]);
    var keys := Collect(m, 0, map[]);
    if keys.Success? {
      LinkSucceedsIff(m, order, rank, keys.value);
    }
  }

  /** The successful result, spelled out. */
  lemma ResolveShape(m: Mesh, order: seq<nat>, rank: seq<nat>) returns (ks: map<int, nat>)
    requires WellFormed(m) && IsOrderOfOpen(m, order, rank)
    requires ResolveBoundaryEdges(m, order, rank).Success?
    ensures forall k :: k in ks ==> ks[k] < |m.edges| && Open(m, ks[k]) && HasTwinOrigin(m, ks[k]) && Key(m, ks[k]) == k
    ensures ReadyFrom(m, 0)
    ensures Link(m, order, rank, ks, 0).Success?
    ensures ResolveBoundaryEdges(m, order, rank).value
         == Mesh(m.vertices, Patch(m, order, rank) + Link(m, order, rank, ks, 0).value, m.faces)
  {
    CollectSpec(m, 0, map[]);
    ks := Collect(m, 0, map[]).value;
  }

  /** The new twin at position `q` of `order` in the concatenated half-edge list. */
  lemma TwinAt(m: Mesh, order: seq<nat>, rank: seq<nat>, ks: map<int, nat>, q: nat)
    requires WellFormed(m) && IsOrderOfOpen(m, order, rank)
    requires ReadyFrom(m, 0)
    requires forall k :: k in ks ==> ks[k] < |m.edges| && Open(m, ks[k])
    requires Link(m, order, rank, ks, 0).Success?
    requires q < |order|
    ensures Linkable(m, ks, order[q])
    ensures (Patch(m, order, rank) + Link(m, order, rank, ks, 0).value)[|m.edges| + q]
         == NewTwin(m, order, rank, q, Target(m, order, rank, ks, q))
  {
    LinkElements(m, order, rank, ks, 0, q);
  }

  /** The existing half-edges of the successful result. */
  lemma ResolvedOld(m: Mesh, order: seq<nat>, rank: seq<nat>)
    requires WellFormed(m) && IsOrderOfOpen(m, order, rank)
    requires ResolveBoundaryEdges(m, order, rank).Success?
    ensures var r := ResolveBoundaryEdges(m, order, rank).value;
      && r.vertices == m.vertices && r.faces == m.faces
      && |r.edges| == |m.edges| + |order|
      && (forall e :: 0 <= e < |m.edges| ==> r.edges[e] == Patch(m, order, rank)[e])
  {
    var ks := ResolveShape(m, order, rank);
  }

  /** The new twins of the successful result, and the dictionary they were linked through. */
  lemma ResolvedNew(m: Mesh, order: seq<nat>, rank: seq<nat>) returns (ks: map<int, nat>)
    requires WellFormed(m) && IsOrderOfOpen(m, order, rank)
    requires ResolveBoundaryEdges(m, order, rank).Success?
    ensures ReadyFrom(m, 0)
    ensures forall k :: k in ks ==> ks[k] < |m.edges| && Open(m, ks[k])
    ensures var r := ResolveBoundaryEdges(m, order, rank).value;
      && |r.edges| == |m.edges| + |order|
      && (forall q :: 0 <= q < |order| ==> Linkable(m, ks, order[q]))
      && (forall q {:trigger Target(m, order, rank, ks, q)} :: 0 <= q < |order| ==>
            && Key(m, Target(m, order, rank, ks, q)) == VertexId(m, m.edges[order[q]].origin)
            && r.edges[|m.edges| + q] == NewTwin(m, order, rank, q, Target(m, order, rank, ks, q)))
  {
    ks := ResolveShape(m, order, rank);
    forall q | 0 <= q < |order|
      ensures Linkable(m, ks, order[q])
      ensures (Patch(m, order, rank) + Link(m, order, rank, ks, 0).value)[|m.edges| + q]
           == NewTwin(m, order, rank, q, Target(m, order, rank, ks, q))
    {
      TwinAt(m, order, rank, ks, q);
    }
  }

  /** A successful run changes no vertex, no face and no half-edge that already had a twin. */
  lemma ResolveKeepsTheRest(m: Mesh, order: seq<nat>, rank: seq<nat>)
    requires WellFormed(m) && IsOrderOfOpen(m, order, rank)
    requires ResolveBoundaryEdges(m, order, rank).Success?
    ensures var r := ResolveBoundaryEdges(m, order, rank).value;
      && r.vertices == m.vertices && r.faces == m.faces
      && |r.edges| == |m.edges| + |order|
      && (forall e: nat :: e < |m.edges| && !Open(m, e) ==> r.edges[e] == m.edges[e])
  {
    ResolvedOld(m, order, rank);
    var r := ResolveBoundaryEdges(m, order, rank).value;
    forall e: nat | e < |m.edges| && !Open(m, e)
      ensures r.edges[e] == m.edges[e]
    {
      assert r.edges[e] == Patch(m, order, rank)[e];
    }
  }

  /**
    After a successful run every previously twin-less half-edge has a twin that
    starts at `edge.next.origin`, borders the sentinel face and has the edge as
    its twin; the twin is the new half-edge at the edge's position in
    dictionary order, and the edge itself changes only in its twin.
   */
  lemma ResolvePairsOpenEdges(m: Mesh, order: seq<nat>, rank: seq<nat>)
    requires WellFormed(m) && IsOrderOfOpen(m, order, rank)
    requires ResolveBoundaryEdges(m, order, rank).Success?
    ensures var r := ResolveBoundaryEdges(m, order, rank).value;
      forall e: nat :: e < |m.edges| && Open(m, e) ==>
        && m.edges[e].next.Some?
        && var t := |m.edges| + rank[e];
        && t < |r.edges|
        && r.edges[e] == m.edges[e].(twin := Some(t))
        && r.edges[t].twin == Some(e)
        && r.edges[t].origin == m.edges[m.edges[e].next.value].origin
        && r.edges[t].face == EmptyFace
  {
    ResolvedOld(m, order, rank);
    var ks := ResolvedNew(m, order, rank);
    var r := ResolveBoundaryEdges(m, order, rank).value;
    var n := |m.edges|;
    forall e: nat | e < n && Open(m, e)
      ensures r.edges[e] == m.edges[e].(twin := Some(n + rank[e]))
      ensures n + rank[e] < |r.edges|
      ensures r.edges[n + rank[e]].twin == Some(e)
      ensures m.edges[e].next.Some?
      ensures r.edges[n + rank[e]].origin == m.edges[m.edges[e].next.value].origin
      ensures r.edges[n + rank[e]].face == EmptyFace
    {
      assert r.edges[e] == Patch(m, order, rank)[e];
      var q := rank[e];
      assert order[q] == e;
      var target := Target(m, order, rank, ks, q);
      assert r.edges[n + q] == NewTwin(m, order, rank, q, target);
    }
  }

  /**
    The new twins are appended after the existing half-edges in dictionary
    order and take the ids `edges.Count, edges.Count + 1, …`.
   */
  lemma ResolveNumbersNewTwins(m: Mesh, order: seq<nat>, rank: seq<nat>)
    requires WellFormed(m) && IsOrderOfOpen(m, order, rank)
    requires ResolveBoundaryEdges(m, order, rank).Success?
    ensures var r := ResolveBoundaryEdges(m, order, rank).value;
      forall t :: |m.edges| <= t < |r.edges| ==>
        r.edges[t].id == t && r.edges[t].twin == Some(order[t - |m.edges|])
  {
    var ks := ResolvedNew(m, order, rank);
    var r := ResolveBoundaryEdges(m, order, rank).value;
    forall t | |m.edges| <= t < |r.edges|
      ensures r.edges[t].id == t && r.edges[t].twin == Some(order[t - |m.edges|])
    {
      var target := Target(m, order, rank, ks, t - |m.edges|);
      assert r.edges[t] == NewTwin(m, order, rank, t - |m.edges|, target);
    }
  }

  /**
    After a successful run each new twin's `next` is the new twin stored under
    the origin id of the half-edge it pairs with, so no new twin is left
    without a successor. Whether every new twin is also some new twin's
    successor depends on the origins: see `ResolveContoursClose`.
   */
  lemma ResolveLinksNewTwins(m: Mesh, order: seq<nat>, rank: seq<nat>)
    requires WellFormed(m) && IsOrderOfOpen(m, order, rank)
    requires ResolveBoundaryEdges(m, order, rank).Success?
    ensures var r := ResolveBoundaryEdges(m, order, rank).value;
      forall q :: 0 <= q < |order| ==>
        && r.edges[|m.edges| + q].twin == Some(order[q])
        && m.edges[order[q]].origin.Some?
        && r.edges[|m.edges| + q].next.Some?
        && var t := r.edges[|m.edges| + q].next.value;
        && |m.edges| <= t < |r.edges|
        && r.edges[t].origin.Some? && r.edges[t].origin.value < |m.vertices|
        && m.vertices[r.edges[t].origin.value].id == VertexId(m, m.edges[order[q]].origin)
  {
    var ks := ResolvedNew(m, order, rank);
    var r := ResolveBoundaryEdges(m, order, rank).value;
    var n := |m.edges|;
    forall q | 0 <= q < |order|
      ensures r.edges[n + q].twin == Some(order[q])
      ensures m.edges[order[q]].origin.Some?
      ensures r.edges[n + q].next.Some?
      ensures n <= r.edges[n + q].next.value < |r.edges|
      ensures r.edges[r.edges[n + q].next.value].origin.Some?
      ensures r.edges[r.edges[n + q].next.value].origin.value < |m.vertices|
      ensures m.vertices[r.edges[r.edges[n + q].next.value].origin.value].id == VertexId(m, m.edges[order[q]].origin)
    {
      var target := Target(m, order, rank, ks, q);
      assert r.edges[n + q] == NewTwin(m, order, rank, q, target);
      var q2 := rank[target];
      assert order[q2] == target;
      var target2 := Target(m, order, rank, ks, q2);
      assert r.edges[n + q2] == NewTwin(m, order, rank, q2, target2);
    }
  }

  /** A successful run leaves a mesh whose references all stay inside the arena. */
  lemma ResolveKeepsWellFormed(m: Mesh, order: seq<nat>, rank: seq<nat>)
    requires WellFormed(m) && IsOrderOfOpen(m, order, rank)
    requires ResolveBoundaryEdges(m, order, rank).Success?
    ensures WellFormed(ResolveBoundaryEdges(m, order, rank).value)
  {
    ResolvedOld(m, order, rank);
    var ks := ResolvedNew(m, order, rank);
    var r := ResolveBoundaryEdges(m, order, rank).value;
    forall e | 0 <= e < |r.edges|
      ensures EdgeRefsInRange(r, r.edges[e])
    {
      if e < |m.edges| {
        assert r.edges[e] == Patch(m, order, rank)[e];
      } else {
        var q := e - |m.edges|;
        var target := Target(m, order, rank, ks, q);
        assert r.edges[e] == NewTwin(m, order, rank, q, target);
        assert rank[target] < |order|;
        assert EdgeRefsInRange(m, m.edges[m.edges[order[q]].next.value]);
      }
    }
  }

  // ---------------------------------------------------------------------
  // When the boundary contours close.
  // ---------------------------------------------------------------------

  /** No two twin-less half-edges start at vertices with the same id. */
  ghost predicate OpenOriginsDistinct(m: Mesh)
    requires WellFormed(m)
  {
    forall e1: nat, e2: nat {:trigger Open(m, e1), Open(m, e2)} ::
      e1 < |m.edges| && e2 < |m.edges| && e1 != e2 && Open(m, e1) && Open(m, e2)
      && m.edges[e1].origin.Some? && m.edges[e2].origin.Some?
      ==> VertexId(m, m.edges[e1].origin) != VertexId(m, m.edges[e2].origin)
  }

  ghost function Values(s: seq<nat>): set<nat>
  {
    set i | 0 <= i < |s| :: s[i]
  }

  /** A sequence without repetitions has as many values as elements. */
  lemma {:induction false} DistinctValues(s: seq<nat>)
    requires forall i, j :: 0 <= i < j < |s| ==> s[i] != s[j]
    ensures |Values(s)| == |s|
  {
    if s != [] {
      var k := |s| - 1;
      var init := s[..k];
      DistinctValues(init);
      assert Values(s) == Values(init) + {s[k]};
      forall v | v in Values(init)
        ensures v != s[k]
      {
        var j :| 0 <= j < k && init[j] == v;
      }
    }
  }

  /** `n` distinct values below `n` take every value below `n`. */
  lemma Pigeonhole(s: seq<nat>, n: nat)
    requires |s| == n
    requires forall i :: 0 <= i < |s| ==> s[i] < n
    requires forall i, j :: 0 <= i < j < |s| ==> s[i] != s[j]
    ensures forall p :: 0 <= p < n ==> p in s
  {
    var range := set e: nat | e < n && Below(e, n);
    DistinctValues(s);
    RangeSize(n);
    assert Values(s) <= range;
    assert range == Values(s) + (range - Values(s));
    forall p | 0 <= p < n
      ensures p in s
    {
      assert p in range;
      assert p in Values(s);
    }
  }

  /** With distinct origin ids, two new twins are linked through different dictionary entries. */
  lemma TargetsDistinct(m: Mesh, order: seq<nat>, rank: seq<nat>, ks: map<int, nat>, q1: nat, q2: nat)
    requires WellFormed(m) && IsOrderOfOpen(m, order, rank) && OpenOriginsDistinct(m)
    requires forall k :: k in ks ==> ks[k] < |m.edges| && Open(m, ks[k]) && HasTwinOrigin(m, ks[k]) && Key(m, ks[k]) == k
    requires q1 < q2 < |order| && Linkable(m, ks, order[q1]) && Linkable(m, ks, order[q2])
    ensures rank[Target(m, order, rank, ks, q1)] != rank[Target(m, order, rank, ks, q2)]
  {
    var t1 := Target(m, order, rank, ks, q1);
    var t2 := Target(m, order, rank, ks, q2);
    assert Key(m, t1) == VertexId(m, m.edges[order[q1]].origin);
    assert Key(m, t2) == VertexId(m, m.edges[order[q2]].origin);
    assert rank[order[q1]] == q1 && rank[order[q2]] == q2;
    assert Open(m, order[q1]) && Open(m, order[q2]);
    assert VertexId(m, m.edges[order[q1]].origin) != VertexId(m, m.edges[order[q2]].origin);
    assert order[rank[t1]] == t1 && order[rank[t2]] == t2;
  }

  /** Some half-edge at position `n` or later has the one at position `t` as `next`. */
  ghost predicate HasPredecessor(edges: seq<HalfEdge>, n: nat, t: nat)
  {
    exists u :: n <= u < |edges| && edges[u].next == Some(t)
  }

  /** A position at which `v` occurs in `s`. */
  ghost function IndexOf(s: seq<nat>, v: nat): (q: nat)
    requires v in s
    ensures q < |s| && s[q] == v
  {
    var q :| 0 <= q < |s| && s[q] == v; q
  }

  /**
    Half-edges where the one at position `q` links to position `s[q]` of a
    block that starts at `n`, and `s` has no repetitions: no two share a
    successor, and `prev` names a predecessor for every position.
   */
  lemma SuccessorsPermute(twins: seq<HalfEdge>, s: seq<nat>, n: nat) returns (prev: seq<nat>)
    requires |twins| == |s|
    requires forall q :: 0 <= q < |s| ==> s[q] < |s| && twins[q].next == Some(n + s[q])
    requires forall i, j :: 0 <= i < j < |s| ==> s[i] != s[j]
    ensures forall u1, u2 :: 0 <= u1 < u2 < |twins| ==> twins[u1].next != twins[u2].next
    ensures |prev| == |twins|
    ensures forall t :: 0 <= t < |prev| ==> prev[t] < |twins| && twins[prev[t]].next == Some(n + t)
  {
    Pigeonhole(s, |s|);
    prev := seq(|s|, t requires 0 <= t < |s| => IndexOf(s, t));
    forall u1, u2 | 0 <= u1 < u2 < |twins|
      ensures twins[u1].next != twins[u2].next
    {
      assert s[u1] != s[u2];
    }
    forall t | 0 <= t < |prev|
      ensures prev[t] < |twins| && twins[prev[t]].next == Some(n + t)
    {
      assert s[prev[t]] == t;
    }
  }

  /** Offsets without repetitions make `next` a permutation of the appended block. */
  lemma OffsetsPermute(prefix: seq<HalfEdge>, twins: seq<HalfEdge>, s: seq<nat>, n: nat, edges: seq<HalfEdge>)
    requires |prefix| == n && edges == prefix + twins && |twins| == |s|
    requires forall q :: 0 <= q < |s| ==> s[q] < |s| && twins[q].next == Some(n + s[q])
    requires forall i, j :: 0 <= i < j < |s| ==> s[i] != s[j]
    ensures forall u1, u2 :: n <= u1 < u2 < |edges| ==> edges[u1].next != edges[u2].next
    ensures forall t :: n <= t < |edges| ==> HasPredecessor(edges, n, t)
  {
    var prev := SuccessorsPermute(twins, s, n);
    forall u1, u2 | n <= u1 < u2 < |edges|
      ensures edges[u1].next != edges[u2].next
    {
      assert edges[u1] == twins[u1 - n] && edges[u2] == twins[u2 - n];
      assert twins[u1 - n].next != twins[u2 - n].next;
    }
    forall t | n <= t < |edges|
      ensures HasPredecessor(edges, n, t)
    {
      var q := prev[t - n];
      assert edges[n + q] == twins[q];
      assert edges[n + q].next == Some(t);
    }
  }

  /** The new twins link by offsets without repetitions when the origins are distinct. */
  lemma LinkOffsetsDistinct(m: Mesh, order: seq<nat>, rank: seq<nat>, ks: map<int, nat>, twins: seq<HalfEdge>) returns (s: seq<nat>)
    requires WellFormed(m) && IsOrderOfOpen(m, order, rank) && OpenOriginsDistinct(m)
    requires forall k :: k in ks ==> ks[k] < |m.edges| && Open(m, ks[k]) && HasTwinOrigin(m, ks[k]) && Key(m, ks[k]) == k
    requires ReadyFrom(m, 0)
    requires Link(m, order, rank, ks, 0) == Success(twins)
    ensures |twins| == |s|
    ensures forall q :: 0 <= q < |s| ==> s[q] < |s| && twins[q].next == Some(|m.edges| + s[q])
    ensures forall i, j :: 0 <= i < j < |s| ==> s[i] != s[j]
  {
    s := LinkOffsets(m, order, rank, ks, twins);
    OffsetsDistinct(m, order, rank, ks, s);
  }

  /** With distinct origins, `next` permutes the new twins appended after `prefix`. */
  lemma LinkCloses(m: Mesh, order: seq<nat>, rank: seq<nat>, ks: map<int, nat>, twins: seq<HalfEdge>,
                   prefix: seq<HalfEdge>, edges: seq<HalfEdge>)
    requires WellFormed(m) && IsOrderOfOpen(m, order, rank) && OpenOriginsDistinct(m)
    requires forall k :: k in ks ==> ks[k] < |m.edges| && Open(m, ks[k]) && HasTwinOrigin(m, ks[k]) && Key(m, ks[k]) == k
    requires ReadyFrom(m, 0)
    requires Link(m, order, rank, ks, 0) == Success(twins)
    requires |prefix| == |m.edges| && edges == prefix + twins
    ensures forall u1, u2 :: |m.edges| <= u1 < u2 < |edges| ==> edges[u1].next != edges[u2].next
    ensures forall t :: |m.edges| <= t < |edges| ==> HasPredecessor(edges, |m.edges|, t)
  {
    var s := LinkOffsetsDistinct(m, order, rank, ks, twins);
    OffsetsPermute(prefix, twins, s, |m.edges|, edges);
  }

  /**
    When the twin-less half-edges start at vertices with distinct ids, `next`
    permutes the new twins of a successful run: no two share a successor, and
    every new twin is the successor of one, so the boundary falls into closed
    contours of new twins.
   */
  lemma ResolveContoursClose(m: Mesh, order: seq<nat>, rank: seq<nat>)
    requires WellFormed(m) && IsOrderOfOpen(m, order, rank)
    requires ResolveBoundaryEdges(m, order, rank).Success?
    requires OpenOriginsDistinct(m)
    ensures var r := ResolveBoundaryEdges(m, order, rank).value;
      && (forall u1, u2 :: |m.edges| <= u1 < u2 < |r.edges| ==> r.edges[u1].next != r.edges[u2].next)
      && (forall t :: |m.edges| <= t < |r.edges| ==> HasPredecessor(r.edges, |m.edges|, t))
  {
    var ks := ResolveShape(m, order, rank);
    var twins := Link(m, order, rank, ks, 0).value;
    LinkCloses(m, order, rank, ks, twins, Patch(m, order, rank), ResolveBoundaryEdges(m, order, rank).value.edges);
  }

  /** The `next` of the new twin at position `q` of `order`: the new twin of its dictionary entry. */
  lemma LinkedNext(m: Mesh, order: seq<nat>, rank: seq<nat>, ks: map<int, nat>, q: nat)
    requires WellFormed(m) && IsOrderOfOpen(m, order, rank)
    requires ReadyFrom(m, 0)
    requires forall k :: k in ks ==> ks[k] < |m.edges| && Open(m, ks[k])
    requires Link(m, order, rank, ks, 0).Success?
    requires q < |order|
    ensures Linkable(m, ks, order[q])
    ensures rank[Target(m, order, rank, ks, q)] < |order|
    ensures Link(m, order, rank, ks, 0).value[q].next == Some(|m.edges| + rank[Target(m, order, rank, ks, q)])
  {
    LinkElements(m, order, rank, ks, 0, q);
  }

  /** Every twin `Link` returns links to the new twin of its dictionary entry. */
  lemma LinkedTargets(m: Mesh, order: seq<nat>, rank: seq<nat>, ks: map<int, nat>, twins: seq<HalfEdge>)
    requires WellFormed(m) && IsOrderOfOpen(m, order, rank)
    requires ReadyFrom(m, 0)
    requires forall k :: k in ks ==> ks[k] < |m.edges| && Open(m, ks[k])
    requires Link(m, order, rank, ks, 0) == Success(twins)
    ensures |twins| == |order|
    ensures forall q :: 0 <= q < |order| ==>
      && Linkable(m, ks, order[q])
      && rank[Target(m, order, rank, ks, q)] < |order|
      && twins[q].next == Some(|m.edges| + rank[Target(m, order, rank, ks, q)])
  {
    forall q | 0 <= q < |order|
      ensures Linkable(m, ks, order[q])
      ensures rank[Target(m, order, rank, ks, q)] < |order|
      ensures twins[q].next == Some(|m.edges| + rank[Target(m, order, rank, ks, q)])
    {
      LinkedNext(m, order, rank, ks, q);
    }
  }

  /** The positions in `order` of the dictionary entries the new twins link to. */
  function TargetRanks(m: Mesh, order: seq<nat>, rank: seq<nat>, ks: map<int, nat>): (s: seq<nat>)
    requires WellFormed(m) && IsOrderOfOpen(m, order, rank)
    requires forall k :: k in ks ==> ks[k] < |m.edges|
    requires forall q :: 0 <= q < |order| ==> Linkable(m, ks, order[q])
    ensures |s| == |order|
    ensures forall q :: 0 <= q < |s| ==> s[q] == rank[Target(m, order, rank, ks, q)]
  {
    seq(|order|, q requires 0 <= q < |order| && Linkable(m, ks, order[q]) => rank[Target(m, order, rank, ks, q)])
  }

  /** The twin at position `q` that `Link` returns links to the twin at position `s[q]`. */
  lemma LinkOffsets(m: Mesh, order: seq<nat>, rank: seq<nat>, ks: map<int, nat>, twins: seq<HalfEdge>) returns (s: seq<nat>)
    requires WellFormed(m) && IsOrderOfOpen(m, order, rank)
    requires ReadyFrom(m, 0)
    requires forall k :: k in ks ==> ks[k] < |m.edges| && Open(m, ks[k])
    requires Link(m, order, rank, ks, 0) == Success(twins)
    ensures |s| == |order| == |twins|
    ensures forall q :: 0 <= q < |s| ==> s[q] < |s| && twins[q].next == Some(|m.edges| + s[q])
    ensures forall q :: 0 <= q < |s| ==> Linkable(m, ks, order[q]) && s[q] == rank[Target(m, order, rank, ks, q)]
  {
    LinkedTargets(m, order, rank, ks, twins);
    s := TargetRanks(m, order, rank, ks);
    RanksAreNext(m, order, rank, ks, s, twins);
  }

  /** Substituting `s` for the ranks of the targets. */
  lemma RanksAreNext(m: Mesh, order: seq<nat>, rank: seq<nat>, ks: map<int, nat>, s: seq<nat>, twins: seq<HalfEdge>)
    requires WellFormed(m) && IsOrderOfOpen(m, order, rank)
    requires forall k :: k in ks ==> ks[k] < |m.edges|
    requires |twins| == |order| == |s|
    requires forall q :: 0 <= q < |order| ==>
      && Linkable(m, ks, order[q])
      && rank[Target(m, order, rank, ks, q)] < |order|
      && twins[q].next == Some(|m.edges| + rank[Target(m, order, rank, ks, q)])
    requires forall q :: 0 <= q < |s| ==> s[q] == rank[Target(m, order, rank, ks, q)]
    ensures forall q :: 0 <= q < |s| ==> s[q] < |s| && twins[q].next == Some(|m.edges| + s[q])
  {
  }

  /** With distinct origin ids no two new twins link to the same one. */
  lemma OffsetsDistinct(m: Mesh, order: seq<nat>, rank: seq<nat>, ks: map<int, nat>, s: seq<nat>)
    requires WellFormed(m) && IsOrderOfOpen(m, order, rank) && OpenOriginsDistinct(m)
    requires forall k :: k in ks ==> ks[k] < |m.edges| && Open(m, ks[k]) && HasTwinOrigin(m, ks[k]) && Key(m, ks[k]) == k
    requires |s| == |order|
    requires forall q :: 0 <= q < |s| ==> Linkable(m, ks, order[q]) && s[q] == rank[Target(m, order, rank, ks, q)]
    ensures forall i, j :: 0 <= i < j < |s| ==> s[i] != s[j]
  {
    forall q1, q2 | 0 <= q1 < q2 < |s|
      ensures s[q1] != s[q2]
    {
      TargetsDistinct(m, order, rank, ks, q1, q2);
    }
  }
}
