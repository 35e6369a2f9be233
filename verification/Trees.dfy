/** Trees of vertices: what the translation expects of the graph it is given. */
module Trees {
  import opened Topology

  /** `v` and everything below it. */
  ghost function Subs(v: Vertex): set<Vertex> {
    {v} + set k, w | k in v.vertices && w in Subs(v.vertices[k]) :: w
  }

  lemma {:induction false} SubsTransitive(u: Vertex, v: Vertex, w: Vertex)
    requires v in Subs(u) && w in Subs(v)
    ensures w in Subs(u)
    decreases u
  {
    if v != u {
      var k :| k in u.vertices && v in Subs(u.vertices[k]);
      SubsTransitive(u.vertices[k], v, w);
    }
  }

  lemma SubsSelf(v: Vertex)
    ensures v in Subs(v)
  {}

  lemma SubsChild(root: Vertex, v: Vertex, k: string)
    requires v in Subs(root) && k in v.vertices
    ensures v.vertices[k] in Subs(root)
  {
    SubsSelf(v.vertices[k]);
    SubsTransitive(root, v, v.vertices[k]);
  }

  lemma SubsOfChild(v: Vertex, k: string)
    requires k in v.vertices
    ensures Subs(v.vertices[k]) <= Subs(v)
  {}

  predicate IsNode(v: Vertex) {
    v.vertices == map[]
  }

  /** IDs identify vertices, and children are filed under their IDs. */
  ghost predicate WellFiled(root: Vertex) {
    && (forall v, w :: v in Subs(root) && w in Subs(root) && v.id == w.id ==> v == w)
    && (forall v, k :: v in Subs(root) && k in v.vertices ==> v.vertices[k].id == k)
  }

  /** No vertex has two parents, and the root has none. */
  ghost predicate OneParent(root: Vertex) {
    && (forall v, w, k :: v in Subs(root) && w in Subs(root) && k in v.vertices && k in w.vertices ==> v == w)
    && (forall v :: v in Subs(root) ==> root.id !in v.vertices)
  }

  ghost predicate NamesDiffer(root: Vertex) {
    forall v, w :: v in Subs(root) && w in Subs(root) && IsNode(v) && IsNode(w) && v.name == w.name ==> v == w
  }

  ghost predicate IsTree(root: Vertex) {
    WellFiled(root) && OneParent(root)
  }

  // ---------- listings ----------

  ghost predicate DistinctIds(list: seq<Vertex>) {
    forall i, j :: 0 <= i < j < |list| ==> list[i].id != list[j].id
  }

  function Flatten<T>(chunks: seq<seq<T>>): seq<T> {
    if chunks == [] then [] else Flatten(chunks[..|chunks| - 1]) + chunks[|chunks| - 1]
  }

  /** The children of `v`, in some order. */
  ghost predicate ChildListing(v: Vertex, kids: seq<Vertex>) {
    && (forall w :: w in kids ==> w.id in v.vertices && v.vertices[w.id] == w)
    && (forall k :: k in v.vertices ==> v.vertices[k] in kids)
    && DistinctIds(kids)
  }
}
