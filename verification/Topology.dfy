/**
 The vertex of `pkg/topology/topology.go`, as a value: none of the passes modelled on it changes a vertex
 once it has been built. A vertex without children is a compute node, any other vertex is a switch.
 */
module Topology {

  datatype Vertex = Vertex(name: string, id: string, vertices: map<string, Vertex>)

  /** What a vertex stands for once switch IDs are forgotten: a compute node is its ID,
      a switch is the set of things below it. */
  datatype Shape = Node(id: string) | Switch(below: set<Shape>)

  function Unfold(v: Vertex): Shape
    decreases v, 1
  {
    if v.vertices == map[] then Node(v.id) else Switch(ShapesBelow(v))
  }

  function ShapesBelow(v: Vertex): set<Shape>
    decreases v, 0
  {
    set k | k in v.vertices :: Unfold(v.vertices[k])
  }

  function ShapeOf(v: Vertex): Shape {
    Unfold(v)
  }

  /** The IDs of the compute nodes at or below a vertex. */
  function Leaves(v: Vertex): set<string> {
    if v.vertices == map[] then {v.id}
    else set k, x | k in v.vertices && x in Leaves(v.vertices[k]) :: x
  }

  function ShapeLeaves(s: Shape): set<string> {
    match s
    case Node(id) => {id}
    case Switch(below) => set t, x | t in below && x in ShapeLeaves(t) :: x
  }

  lemma LeavesOfUnfolding(v: Vertex)
    ensures ShapeLeaves(Unfold(v)) == Leaves(v)
  {
    if v.vertices != map[] {
      forall k | k in v.vertices
        ensures Unfold(v.vertices[k]) in ShapesBelow(v) && ShapeLeaves(Unfold(v.vertices[k])) == Leaves(v.vertices[k])
      {
        LeavesOfUnfolding(v.vertices[k]);
      }
    }
  }

  /** Every path down from `v` ends in a compute node after exactly `r` steps, and every child is filed under its ID. */
  ghost predicate Ranked(v: Vertex, r: nat) {
    if r == 0 then v.vertices == map[]
    else v.vertices != map[] && forall k :: k in v.vertices ==> v.vertices[k].id == k && Ranked(v.vertices[k], r - 1)
  }

  lemma RankUnique(v: Vertex, r: nat, q: nat)
    requires Ranked(v, r) && Ranked(v, q)
    ensures r == q
  {
    if r > 0 && q > 0 {
      var k :| k in v.vertices;
      RankUnique(v.vertices[k], r - 1, q - 1);
    }
  }

  /** A catalogue files each vertex of a graph under its ID, along with everything below it:
      IDs identify vertices, and a child is filed under its own ID. */
  type Catalogue = map<string, Vertex>

  ghost predicate Holds(g: Catalogue, v: Vertex) {
    v.id in g && g[v.id] == v
  }

  ghost predicate Closed(g: Catalogue) {
    forall v, k :: Holds(g, v) && k in v.vertices ==> v.vertices[k].id == k && Holds(g, v.vertices[k])
  }

  /** What the merger demands of a layer: its vertices all have rank `r` and belong to one graph. */
  ghost predicate Layered(layer: seq<Vertex>, r: nat, g: Catalogue) {
    forall v :: v in layer ==> Ranked(v, r) && Holds(g, v)
  }
}
