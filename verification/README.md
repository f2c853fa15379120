# Voronoi diagram as a DCEL — a Dafny model of Triangle.NET's `DcelMesh` and `VoronoiBase`

Triangle.NET builds the Voronoi diagram of a Delaunay triangulation as its
geometric dual and stores it in a doubly-connected edge list (DCEL):
vertices, half-edges and faces that refer to each other.

This project models two classes:

- `DcelMesh`, the container. Its `IsConsistent(closed, depth)` is the
  topological oracle. `ResolveBoundaryEdges()` stitches twins onto twin-less
  half-edges so that open boundaries close. `EnumerateEdges()` lists the
  undirected edges.
- `VoronoiBase`, the generator. `Generate` runs four passes and the class
  overrides `EnumerateEdges()`:
  - `ComputeVertices`: one dual vertex per triangle, at its circumcenter.
  - The face pass: one dual face per live primal vertex, with the primal
    vertices renumbered.
  - `ComputeEdges`: one pair of twin half-edges per primal edge. A hull
    side yields a ray to a new infinite vertex.
  - `ConnectEdges`: resolves every `next` pointer through per-vertex buckets
    of leaving half-edges.

The model is an arena. A `Dcel.Mesh` holds three sequences, and every
reference is an index, with `None` for C#'s `null`. Each C# exception on
the modelled paths is a `Common.Fault` in a `Result`:

- a null dereference;
- `Dictionary.Add` of a present key;
- a lookup of an absent key;
- a negative array index.

Each fault is raised where the code would throw, and the first failing
element wins.

The generator passes are methods with loops. Each `ComputeEdges` iteration
is the pure function `VoronoiPass.Step`, and the whole pass is `Run` over
the handled sides `Primal.Visits(mesh)`.

The result of `Generate` is described declaratively, by the predicate
`VoronoiDiagram.Diagram`:

- the sizes of the three sequences;
- each half-edge's id, twin, origin and face, in closed form;
- each dual vertex's position and region;
- the `leaving` pointers;
- each face's `edge` and `bounded` flag;
- the list of rays;
- every `next` pointer, as the least matching half-edge leaving the
  destination.

`Voronoi.Generate` proves that predicate for every valid triangle mesh.
All of it but the positions and regions of the vertices is collected in
`VoronoiDiagram.DualTopology`. The lemmas about the consistency check and
the edge enumeration assume only that part, because neither reads a
coordinate.

One might expect `IsConsistent(closed: true, depth: 0)` to hold right
after generation. It does not, because of the rays. A ray is
the half-edge from a triangle's circumcenter to an infinite vertex, the
`twin` that VoronoiBase.cs:209-220 adds to `rays`. It keeps a `null`
`next`, because `ConnectEdges` skips destinations with `id >= length`
(VoronoiBase.cs:269). Its twin starts at the infinite vertex, ends at a
circumcenter, and does get a successor.

`DiagramChecks.ClosedCheckRejectsRays` proves that the closed check
rejects every generated diagram with a hull side, and every finite
triangulation has one. The open check
(`closed: false`) is characterised exactly by `DiagramChecks.OpenCheckIff`.

## Model

| member | source | states |
|---|---|---|
| DcelConsistency.IsConsistent | src/Triangle/Topology/DCEL/DcelMesh.cs:81-210 | returns true exactly when the declarative `Consistent` holds: every live vertex, face and half-edge has the required pointers; `twin.twin` is the half-edge itself; when closed, the next-origin and loop rules hold; when closed with depth > 0, every face's `next` cycle returns within `depth` steps |
| DcelConsistency.SweepPasses | src/Triangle/Topology/DCEL/DcelMesh.cs:81-210 | a sequence of element checks passes exactly when every element passes, so one failing element decides the verdict |
| DcelConsistency.WalkPasses | src/Triangle/Topology/DCEL/DcelMesh.cs:190-205 | the bounded `next` walk succeeds exactly when the start id is reached within the remaining step budget |
| DcelConsistency.FaceWalkPasses | src/Triangle/Topology/DCEL/DcelMesh.cs:183-206 | a face's walk passes exactly when its cycle closes within `depth` steps |
| DcelConsistency.VertexScanIff | src/Triangle/Topology/DCEL/DcelMesh.cs:84-100 | the vertex scan passes exactly when every live vertex has a leaving half-edge that starts at it |
| DcelConsistency.FaceScanIff | src/Triangle/Topology/DCEL/DcelMesh.cs:103-119 | the face scan passes exactly when every live face has a half-edge that borders it |
| DcelConsistency.EdgeScanIff | src/Triangle/Topology/DCEL/DcelMesh.cs:122-148 | the pointer scan passes exactly when every live half-edge has a twin, an origin and a face, and also a next when closed |
| DcelConsistency.TopologyScanIff | src/Triangle/Topology/DCEL/DcelMesh.cs:151-178 | the topology scan passes exactly when every live half-edge satisfies the twin involution and, when closed, both loop rules |
| DcelConsistency.WalkScanIff | src/Triangle/Topology/DCEL/DcelMesh.cs:180-207 | the face-walk scan passes exactly when every live face closes within `depth` |
| DcelConsistency.ConsistentIff | src/Triangle/Topology/DCEL/DcelMesh.cs:81-210 | the five scans in source order pass exactly when the declarative condition holds |
| DcelConsistency.LiveVertexNeedsLeaving | src/Triangle/Topology/DCEL/DcelMesh.cs:91-99 | a live vertex with no leaving half-edge, or one starting elsewhere, makes the check fail for every `closed` and `depth` |
| DcelConsistency.LiveFaceNeedsEdge | src/Triangle/Topology/DCEL/DcelMesh.cs:110-118 | a live face with no half-edge, or one on another face, makes the check fail |
| DcelConsistency.LiveEdgeNeedsPointers | src/Triangle/Topology/DCEL/DcelMesh.cs:129-147 | a live half-edge with a null twin, origin or face, or a null next when closed, makes the check fail |
| DcelConsistency.AcceptedHasTwinInvolution | src/Triangle/Topology/DCEL/DcelMesh.cs:158-164 | an accepted mesh has `edge.id == edge.twin.twin.id` on every live half-edge |
| DcelConsistency.AcceptedClosedLoopsAgree | src/Triangle/Topology/DCEL/DcelMesh.cs:166-177 | an accepted closed mesh has `next.origin == twin.origin` and `next.twin.next.origin == twin.origin` by id on every live half-edge |
| DcelConsistency.FaceWalkBoundedByDepth | src/Triangle/Topology/DCEL/DcelMesh.cs:180-206 | a face whose cycle does not close within `depth` steps fails the closed check |
| DcelConsistency.DepthIrrelevant | src/Triangle/Topology/DCEL/DcelMesh.cs:180 | for every well-formed mesh, the verdict with `depth <= 0` is the verdict with depth 0, and when not closed the depth makes no difference |
| DcelConsistency.DeadElementsIgnored | src/Triangle/Topology/DCEL/DcelMesh.cs:86-89 | appending vertices, half-edges and faces with negative ids never changes the verdict, whatever their fields hold |
| DcelBoundary.CollectSpec | src/Triangle/Topology/DCEL/DcelMesh.cs:225-234 | the first loop succeeds exactly when every twin-less half-edge has a readable `next.origin` and their keys are distinct; it then maps each key to its half-edge |
| DcelBoundary.KeysExtend | src/Triangle/Topology/DCEL/DcelMesh.cs:229-232 | adding the new twin of a twin-less half-edge under a fresh key keeps the dictionary invariant |
| DcelBoundary.Link | src/Triangle/Topology/DCEL/DcelMesh.cs:236-244 | the second loop succeeds exactly when every new twin's `map[edge.twin.origin.id]` lookup succeeds, and yields one half-edge per dictionary entry |
| DcelBoundary.LinkElements | src/Triangle/Topology/DCEL/DcelMesh.cs:238-244 | the i-th half-edge the second loop appends is the new twin of the i-th dictionary entry, with its id and `next` set |
| DcelBoundary.LinkableIff | src/Triangle/Topology/DCEL/DcelMesh.cs:241 | a new twin's successor lookup succeeds exactly when some twin-less half-edge's new twin starts at that edge's origin |
| DcelBoundary.LinkSucceedsIff | src/Triangle/Topology/DCEL/DcelMesh.cs:236-244 | with the dictionary complete, the second loop succeeds exactly when the origin of every twin-less half-edge is the key of some new twin (`Closes`) |
| DcelBoundary.ResolveSucceedsIff | src/Triangle/Topology/DCEL/DcelMesh.cs:219-245 | `ResolveBoundaryEdges` throws nothing exactly when the mesh is resolvable: `next.origin` is readable, keys are distinct, and the origin of every twin-less half-edge is the key of some new twin |
| DcelBoundary.ResolveShape | src/Triangle/Topology/DCEL/DcelMesh.cs:219-245 | a successful result is the old half-edges, each with its twin set, followed by the new twins in dictionary order, with vertices and faces unchanged |
| DcelBoundary.ResolveKeepsTheRest | src/Triangle/Topology/DCEL/DcelMesh.cs:225-234 | vertices, faces and every half-edge that already had a twin are unchanged, and the list grows by one per twin-less half-edge |
| DcelBoundary.ResolvePairsOpenEdges | src/Triangle/Topology/DCEL/DcelMesh.cs:227-231 | every twin-less half-edge gets a twin that starts at `edge.next.origin`, lies on the sentinel empty face and has the edge as twin; the edge changes only in `twin` |
| DcelBoundary.ResolveNumbersNewTwins | src/Triangle/Topology/DCEL/DcelMesh.cs:236-243 | the new twins are appended after the old half-edges with ids `edges.Count, edges.Count + 1, …` |
| DcelBoundary.ResolveLinksNewTwins | src/Triangle/Topology/DCEL/DcelMesh.cs:238-244 | every new twin gets as `next` a new twin that starts at the origin of its own twin, so no new twin is left without a successor |
| DcelBoundary.ResolveContoursClose | src/Triangle/Topology/DCEL/DcelMesh.cs:225-244 | when the twin-less half-edges start at vertices with distinct ids, no two new twins share a `next` and every new twin is the `next` of some new twin, so the boundary falls into closed contours |
| DcelBoundary.ResolveKeepsWellFormed | src/Triangle/Topology/DCEL/DcelMesh.cs:219-245 | every reference of the resolved mesh stays inside the arena |
| DcelEdges.EnumerateFrom | src/Triangle/Topology/DCEL/DcelMesh.cs:257-266 | the scan succeeds exactly when every half-edge it reads has a twin, and both origins where it reports; otherwise it throws a null dereference |
| DcelEdges.EnumerateEdges | src/Triangle/Topology/DCEL/DcelMesh.cs:253-269 | the enumeration succeeds exactly when no read meets a null reference |
| DcelEdges.EnumerateFromCount | src/Triangle/Topology/DCEL/DcelMesh.cs:262-265 | one edge per half-edge whose id is below its twin's |
| DcelEdges.EnumerateFromContents | src/Triangle/Topology/DCEL/DcelMesh.cs:262-265 | the listed edges are exactly the origin-to-twin-origin edges of the reported half-edges |
| DcelEdges.HalfReported | src/Triangle/Topology/DCEL/DcelMesh.cs:261-265 | with paired twins of different ids, exactly half of the half-edges are reported |
| DcelEdges.OneEdgePerTwinPair | src/Triangle/Topology/DCEL/DcelMesh.cs:253-269 | with paired twins, origins set and distinct ids, the enumeration succeeds, reports half as many edges as half-edges, and reports exactly one half-edge of each pair |
| Primal.SidesUpTo | src/Triangle/Voronoi/VoronoiBase.cs:178-185 | the sides of a triangle the inner loop handles are exactly those below the orientation where `id < nid \|\| nid < 0`, in order |
| Primal.VisitsBefore | src/Triangle/Voronoi/VoronoiBase.cs:172-185 | the sides handled in earlier triangles are exactly the selected sides of triangles with a smaller id, in order |
| Primal.VisitsExactly | src/Triangle/Voronoi/VoronoiBase.cs:167-185 | a side is handled exactly when the test selects it, and none is handled twice |
| Primal.SharedSideVisitedOnce | src/Triangle/Voronoi/VoronoiBase.cs:167-185 | a side shared by two mutually adjacent triangles is handled from exactly one of them |
| Primal.HullSideVisited | src/Triangle/Voronoi/VoronoiBase.cs:185 | every hull side, with `nid < 0`, is handled |
| Primal.RayOffsetOutward | src/Triangle/Voronoi/VoronoiBase.cs:200-203 | the ray offset is perpendicular to the hull side and as long as it, and points away from the apex of a counterclockwise triangle |
| VoronoiVertices.ComputeVertices | src/Triangle/Voronoi/VoronoiBase.cs:112-140 | triangle `i` gets id `i`; its dual vertex has id `i`, lies at the circumcenter, has the triangle's label and no leaving half-edge; every bucket starts empty |
| VoronoiVertices.NumberFaces | src/Triangle/Voronoi/VoronoiBase.cs:80-94 | each primal vertex gets the id given by `Renumbered`, and face `f` is the fresh face of the generator with id `f` |
| VoronoiVertices.RenumberedRange | src/Triangle/Voronoi/VoronoiBase.cs:83-94 | a new id lies below the vertex count, and below `count` exactly when the vertex is not undead |
| VoronoiVertices.RenumberedInjective | src/Triangle/Voronoi/VoronoiBase.cs:83-94 | no two primal vertices receive the same id |
| VoronoiVertices.RenumberedIsBijection | src/Triangle/Voronoi/VoronoiBase.cs:67-94 | the renumbering is a bijection onto `0 .. n-1`: live vertices take exactly the ids below `count`, undead ones the rest |
| VoronoiPass.Claim | src/Triangle/Voronoi/VoronoiBase.cs:210-211 | creating a half-edge on a face sets the face's `edge` only when it had none, and leaves every other face alone |
| VoronoiPass.Run | src/Triangle/Voronoi/VoronoiBase.cs:172-248 | the pass over `vs` adds two half-edges per handled side and one vertex per hull side, and keeps the face count |
| PassEdges.RunEdges | src/Triangle/Voronoi/VoronoiBase.cs:198-245 | the half-edges of the pass are, in order, `edge` and `twin` of each handled side, in closed form |
| PassEdges.EdgesShape | src/Triangle/Voronoi/VoronoiBase.cs:224-245 | half-edge `e` has id `e`, twin `e ± 1`, no `next`, origin the far end (even `e`) or the triangle's vertex (odd `e`), and a face in range |
| PassVertices.LeavingSound | src/Triangle/Voronoi/VoronoiBase.cs:218-232 | every entry of the list of half-edges leaving a vertex starts at that vertex, and the list is increasing |
| PassVertices.LeavingComplete | src/Triangle/Voronoi/VoronoiBase.cs:218-232 | no half-edge starting at a vertex is missing from its list |
| PassVertices.RunLeaving | src/Triangle/Voronoi/VoronoiBase.cs:218-236 | after the pass each vertex's bucket is the increasing list of half-edges leaving it, and its `leaving` is the last of them, unset when there is none |
| PassVertices.RunVertices | src/Triangle/Voronoi/VoronoiBase.cs:202-208 | the finite vertices change only in `leaving`, and the `j`-th hull side adds vertex `count + j` at circumcenter plus ray offset, with label 0 |
| PassFaces.StepFaceAt | src/Triangle/Voronoi/VoronoiBase.cs:210-216 | one step keeps each face's `edge` on the face, keeps it the first such half-edge while bounded, and makes the face unbounded exactly when a ray side starts on it |
| PassFaces.RunFaces | src/Triangle/Voronoi/VoronoiBase.cs:191-216 | after the pass every face has its generator's id, its first half-edge (or an infinite one when unbounded) as `edge`, and `bounded` false exactly when one of its half-edges starts at an infinite vertex |
| PassFaces.HullTwinsSound | src/Triangle/Voronoi/VoronoiBase.cs:220 | the rays are the odd ids of the hull sides' twins, strictly increasing |
| PassFaces.HullTwinsComplete | src/Triangle/Voronoi/VoronoiBase.cs:220 | every hull side's twin is a ray |
| PassFaces.RunRays | src/Triangle/Voronoi/VoronoiBase.cs:218-220 | the pass's ray list is the twins of the hull sides, in handling order |
| VoronoiEdges.HandleTriangle | src/Triangle/Voronoi/VoronoiBase.cs:178-247 | the inner loop over the three orientations extends the pass by exactly the selected sides of triangle `t` |
| VoronoiEdges.ComputeEdges | src/Triangle/Voronoi/VoronoiBase.cs:149-249 | the pass applies the step to the handled sides in order, and its state describes the half-edges, vertices, leaving pointers, buckets, faces and rays |
| VoronoiConnect.FirstMatch | src/Triangle/Voronoi/VoronoiBase.cs:273-280 | the bucket scan returns the first entry whose face has the given generator, or none after checking every entry; a null face throws |
| VoronoiConnect.ConnectEdges | src/Triangle/Voronoi/VoronoiBase.cs:255-283 | succeeds exactly when no lookup throws, and otherwise throws the first failure; on success only `next` pointers change, each as the lookup finds it |
| Voronoi.Generate | src/Triangle/Voronoi/VoronoiBase.cs:62-103 | on a valid triangle mesh no pass throws, and the result is the dual diagram: sizes, edges, vertices, leaving pointers, cells, rays and `next` pointers as `Diagram` describes them (its two parts `DualTopology` and `DualVertices`) |
| GenerateDiagram.DiagramEdges | src/Triangle/Voronoi/VoronoiBase.cs:224-245 | the diagram's half-edge `2q` runs from the far end of side `q` on the cell of its origin, and `2q + 1` is its twin from the triangle's vertex on the cell of its destination |
| GenerateDiagram.DiagramVertices | src/Triangle/Voronoi/VoronoiBase.cs:124-137 | finite vertices sit at circumcenters with the triangle's label; the `j`-th hull side's end is vertex `count + j` at the ray point |
| GenerateDiagram.DiagramLeaving | src/Triangle/Voronoi/VoronoiBase.cs:235-236 | each vertex's `leaving` is the last half-edge created from it, and none when it has none |
| GenerateDiagram.DiagramCells | src/Triangle/Voronoi/VoronoiBase.cs:191-216 | every face keeps the cell invariant once `next` pointers are set |
| GenerateDiagram.RayIsHullTwin | src/Triangle/Voronoi/VoronoiBase.cs:198-220 | a half-edge whose twin starts at an infinite vertex is the twin of a hull side |
| GenerateDiagram.DiagramRays | src/Triangle/Voronoi/VoronoiBase.cs:220 | the ray list has `hullsize` entries, increasing, and holds exactly the half-edges whose twin starts at an infinite vertex |
| GenerateDiagram.DiagramLinked | src/Triangle/Voronoi/VoronoiBase.cs:255-283 | each `next` is the least half-edge leaving the destination on the same face; it is none when there is no such half-edge or the destination is infinite |
| DiagramChecks.ClosedCheckRejectsRays | src/Triangle/Topology/DCEL/DcelMesh.cs:144-147 | every generated diagram with a hull side fails `IsConsistent(closed: true, depth)` |
| DiagramChecks.EdgesPass | src/Triangle/Topology/DCEL/DcelMesh.cs:122-178 | every half-edge of a generated diagram passes the open pointer and topology scans |
| DiagramChecks.VerticesPass | src/Triangle/Topology/DCEL/DcelMesh.cs:84-100 | a vertex of a generated diagram passes the vertex scan exactly when its `leaving` is set |
| DiagramChecks.FacesPass | src/Triangle/Topology/DCEL/DcelMesh.cs:103-119 | a face of a generated diagram passes the face scan exactly when its `edge` is set |
| DiagramChecks.OpenCheckIff | src/Triangle/Topology/DCEL/DcelMesh.cs:81-210 | `IsConsistent(closed: false)` accepts a generated diagram exactly when every vertex has a leaving half-edge and every face an edge |
| DiagramChecks.DiagramEdgesListed | src/Triangle/Voronoi/VoronoiBase.cs:286-306 | the override and the base enumeration both list one edge per handled side, in pass order, from the far end to the triangle's vertex, half as many edges as half-edges |
| VoronoiEnumerate.EnumerateFrom | src/Triangle/Voronoi/VoronoiBase.cs:290-303 | the override's scan succeeds exactly when every read reference is non-null (a twin-less half-edge needs origin, next and next's origin); otherwise it throws a null dereference |
| VoronoiEnumerate.EnumerateEdges | src/Triangle/Voronoi/VoronoiBase.cs:286-306 | the override succeeds exactly when no read meets a null reference |
| VoronoiEnumerate.EnumerateFromCount | src/Triangle/Voronoi/VoronoiBase.cs:295-302 | one edge per twin-less half-edge and per half-edge whose id is below its twin's |
| VoronoiEnumerate.EnumerateFromContents | src/Triangle/Voronoi/VoronoiBase.cs:295-302 | the listed edges are exactly the reported half-edges' edges, to `next.origin` when twin-less |
| VoronoiEnumerate.ScanPairs | src/Triangle/Voronoi/VoronoiBase.cs:290-303 | when half-edges come as twin pairs `2q`, `2q + 1` numbered by position, the scan lists each pair's edge in order |
| VoronoiEnumerate.AgreesWithBase | src/Triangle/Voronoi/VoronoiBase.cs:286-306 | when every half-edge has a twin, the override returns exactly what the base enumeration returns |

## Left out

- Circumcenters: `predicates.FindCircumcenter` (VoronoiBase.cs:129) is the parameter `cc`. Coordinates are exact reals, and IEEE double rounding is not modelled.
- The element factory: its constructors are not part of this model, and their default behaviour is assumed:
  - `CreateVertex` gives label 0.
  - `CreateFace(v)` gives a bounded face with the generator's id and no edge.
  - `CreateHalfEdge(origin, face)` sets `face.edge` when it is null.
- `factory.Initialize` (VoronoiBase.cs:74): a capacity hint with no observable effect.
- The triangle mesh and `Otri`: a triangle is given as its three corners and three neighbour ids, with neighbour `-1` off the hull. `Org`, `Dest` and `Apex` follow the orientation convention of `Otri`.
- Primal vertex order: `mesh.vertices.Values` is iterated in dictionary order. Here that order is the sequence order.
- DcelBoundary.ResolveBoundaryEdges: on an exception the model returns only the fault. The half-edges the C# has already changed are not modelled: twins assigned before `map.Add` throws (DcelMesh.cs:229-232), and new twins created and linked before a failed lookup (DcelMesh.cs:238-243).
- DcelBoundary.ResolveContoursClose: without distinct origin ids no closed contours are promised. Two twin-less half-edges that start at one vertex give new twins with the same `next`, and some new twin is then nobody's `next`.
- VoronoiConnect.ConnectEdges: on an exception the model returns only the fault. The `next` pointers set before the failing lookup are not modelled.
- The order of the dictionary's values in `ResolveBoundaryEdges`: it is a parameter `order`, any permutation of the twin-less half-edges.
- The sentinel `Face.Empty`: it is the reference `EmptyFace`, which is not stored in the arena. `ConnectEdges` treats its generator as null.
- Array pre-sizing: the vertex array of `Generate` is pre-sized to `triangles.Count + hullsize`. Here infinite vertices are appended in creation order, which is the same when `hullsize` counts the hull sides.
- Voronoi.Generate: requires a valid triangle mesh. That means:
  - triangles with three corners and neighbours;
  - `undeads` counting the undead vertices;
  - no undead corner;
  - `hullsize` counting the hull sides.

  The out-of-range array writes a corrupt mesh would cause are not modelled.
- DcelConsistency.IsConsistent: requires every stored index to be inside the arena (`WellFormed`). A C# reference always designates an object, so this excludes no input of the source.
- Integer width: ids and counters are unbounded integers, so 32-bit overflow of `k`, `j` or ids is not modelled.
- `Edges` and the list accessors: these are plain getters.
- `edges.Clear()` and `rays.Clear()`: `Generate` returns a fresh diagram and ray list, which is what clearing achieves.
