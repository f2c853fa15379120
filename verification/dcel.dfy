/**
  The doubly-connected edge list: vertices, half-edges and faces kept in three
  arenas and addressed by index. Every pointer field of the C# classes becomes
  an `Option<nat>` index into the arena of the pointed-to kind.
 */
module Dcel {
  import opened Common

  /** A diagram vertex; `region` is the C# `label` field; `leaving` is one half-edge that starts here. */
  datatype Vertex = Vertex(id: int, x: real, y: real, region: int, leaving: Option<nat>)

  /**
    The face a half-edge borders: none (null), the shared sentinel `Face.Empty`,
    which is not stored in any arena and has id -1, or a face of the arena.
   */
  datatype FaceRef = NoFace | EmptyFace | FaceAt(index: nat)

  /** A directed half-edge. */
  datatype HalfEdge = HalfEdge(id: int, origin: Option<nat>, twin: Option<nat>, next: Option<nat>, face: FaceRef)

  /** A face (Voronoi cell); `generator` is the id of the primal vertex it belongs to. */
  datatype Face = Face(id: int, generator: int, bounded: bool, edge: Option<nat>)

  /** The three arenas of a DCEL. */
  datatype Mesh = Mesh(vertices: seq<Vertex>, edges: seq<HalfEdge>, faces: seq<Face>)

  /** An undirected edge reported by enumeration: the ids of its two end vertices. */
  datatype Edge = Edge(p0: int, p1: int)

  /** The id of the sentinel face `Face.Empty`. */
  const EmptyFaceId: int := -1

  predicate InRange(r: Option<nat>, n: nat)
  {
    r.Some? ==> r.value < n
  }

  predicate EdgeRefsInRange(m: Mesh, h: HalfEdge)
  {
    && InRange(h.origin, |m.vertices|)
    && InRange(h.twin, |m.edges|)
    && InRange(h.next, |m.edges|)
    && (h.face.FaceAt? ==> h.face.index < |m.faces|)
  }

  /**
    Every index stored in the mesh designates an element of its arena: the
    arena form of "a non-null reference always points to an object".
   */
  predicate WellFormed(m: Mesh)
  {
    && (forall v :: 0 <= v < |m.vertices| ==> InRange(m.vertices[v].leaving, |m.edges|))
    && (forall e :: 0 <= e < |m.edges| ==> EdgeRefsInRange(m, m.edges[e]))
    && (forall f :: 0 <= f < |m.faces| ==> InRange(m.faces[f].edge, |m.edges|))
  }

  /** The id of the vertex an in-range, non-null vertex reference designates. */
  function VertexId(m: Mesh, r: Option<nat>): int
    requires r.Some? && r.value < |m.vertices|
  {
    m.vertices[r.value].id
  }

  /** The id of the face a non-null face reference designates. */
  function FaceId(m: Mesh, r: FaceRef): int
    requires r.FaceAt? ==> r.index < |m.faces|
    requires r != NoFace
  {
    if r.EmptyFace? then EmptyFaceId else m.faces[r.index].id
  }
}
