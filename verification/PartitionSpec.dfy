/** The part of the tree that a partition's nodes need: `pkg/translate/yaml.go`. */
module PartitionSpec {
  import opened Arrivals
  import opened Loading
  import opened Ordering
  import opened Printing
  import opened Topology
  import opened Trees

  /** A requested leaf lies at or below `v`. */
  ghost predicate Keeps(v: Vertex, leaves: set<string>) {
    exists w :: w in Subs(v) && w.id in leaves
  }

  /** The vertices on the way to a requested leaf. */
  ghost function Required(v: Vertex, leaves: set<string>): set<string> {
    set w | w in Subs(v) && Keeps(w, leaves) :: w.id
  }

  lemma KeepsStep(v: Vertex, leaves: set<string>)
    ensures Keeps(v, leaves) <==> v.id in leaves || exists k :: k in v.vertices && Keeps(v.vertices[k], leaves)
  {
    SubsSelf(v);
    if Keeps(v, leaves) {
      var w :| w in Subs(v) && w.id in leaves;
      if w != v {
        var k :| k in v.vertices && w in Subs(v.vertices[k]);
        assert Keeps(v.vertices[k], leaves);
      }
    }
    if k :| k in v.vertices && Keeps(v.vertices[k], leaves) {
      var w :| w in Subs(v.vertices[k]) && w.id in leaves;
      assert w in Subs(v);
    }
  }

  ghost function RequiredBelow(v: Vertex, keys: set<string>, leaves: set<string>): set<string> {
    set k, x | k in keys && k in v.vertices && x in Required(v.vertices[k], leaves) :: x
  }

  lemma RequiredStep(v: Vertex, leaves: set<string>)
    ensures Required(v, leaves) == RequiredBelow(v, v.vertices.Keys, leaves) + (if Keeps(v, leaves) then {v.id} else {})
  {
    hide Keeps;
    SubsSelf(v);
    forall x | x in Required(v, leaves)
      ensures x in RequiredBelow(v, v.vertices.Keys, leaves) + (if Keeps(v, leaves) then {v.id} else {})
    {
      var w :| w in Subs(v) && Keeps(w, leaves) && w.id == x;
      if w != v {
        var k :| k in v.vertices && w in Subs(v.vertices[k]);
        assert x in Required(v.vertices[k], leaves);
      }
    }
    forall x | x in RequiredBelow(v, v.vertices.Keys, leaves) ensures x in Required(v, leaves) {
      var k :| k in v.vertices && x in Required(v.vertices[k], leaves);
      var w :| w in Subs(v.vertices[k]) && Keeps(w, leaves) && w.id == x;
      assert w in Subs(v);
    }
  }

  // ---------- paths ----------

  /** A path down the adjacency lists. */
  ghost predicate IsListPath(tree: map<string, seq<string>>, path: seq<string>) {
    && path != []
    && (|path| > 1 ==> path[0] in tree && path[1] in tree[path[0]] && IsListPath(tree, path[1..]))
  }

  /** The edge lies on a path from the root to a requested leaf. */
  ghost predicate OnRequestedPath(tree: map<string, seq<string>>, root: string, leaves: set<string>, p: string, c: string) {
    exists path, i: nat :: EdgeOfPath(tree, root, leaves, path, i, p, c)
  }

  ghost predicate EdgeOfPath(tree: map<string, seq<string>>, root: string, leaves: set<string>, path: seq<string>, i: nat,
                             p: string, c: string) {
    && IsListPath(tree, path) && path[0] == root && path[|path| - 1] in leaves
    && i + 1 < |path| && path[i] == p && path[i + 1] == c
  }

  lemma {:induction false} PathConcat(tree: map<string, seq<string>>, a: seq<string>, b: seq<string>)
    requires IsListPath(tree, a) && IsListPath(tree, b) && a[|a| - 1] in tree && b[0] in tree[a[|a| - 1]]
    ensures IsListPath(tree, a + b)
  {
    if |a| == 1 {
      assert (a + b)[1..] == b;
    } else {
      PathConcat(tree, a[1..], b);
      assert (a + b)[1..] == a[1..] + b;
    }
  }

  /** The adjacency lists hold exactly the child keys of every vertex of the tree. */
  ghost predicate Adjacent(t: Vertex, tree: map<string, seq<string>>) {
    forall v :: v in Subs(t) ==> ListsKids(tree, v)
  }

  ghost predicate ListsKids(tree: map<string, seq<string>>, v: Vertex) {
    v.id in tree && forall k :: k in tree[v.id] <==> k in v.vertices
  }

  lemma {:induction false} PathBetween(t: Vertex, tree: map<string, seq<string>>, v: Vertex, w: Vertex) returns (path: seq<string>)
    requires WellFiled(t) && Adjacent(t, tree) && v in Subs(t) && w in Subs(v)
    ensures IsListPath(tree, path) && path[0] == v.id && path[|path| - 1] == w.id
    decreases v
  {
    if w == v {
      path := [v.id];
    } else {
      var k :| k in v.vertices && w in Subs(v.vertices[k]);
      SubsChild(t, v, k);
      var rest := PathBetween(t, tree, v.vertices[k], w);
      path := [v.id] + rest;
      assert ListsKids(tree, v);
      assert path[1..] == rest;
    }
  }

  lemma PathChild(t: Vertex, tree: map<string, seq<string>>, v: Vertex, path: seq<string>)
    requires WellFiled(t) && Adjacent(t, tree) && v in Subs(t) && IsListPath(tree, path) && path[0] == v.id && |path| > 1
    ensures path[1] in v.vertices && v.vertices[path[1]].id == path[1] && v.vertices[path[1]] in Subs(t)
    ensures IsListPath(tree, path[1..]) && Subs(v.vertices[path[1]]) <= Subs(v)
  {
    hide Subs;
    assert ListsKids(tree, v);
    SubsChild(t, v, path[1]);
    SubsOfChild(v, path[1]);
  }

  /** What a path from `v` ends in lies below `v`. */
  lemma {:induction false} PathStaysBelow(t: Vertex, tree: map<string, seq<string>>, v: Vertex, path: seq<string>, leaves: set<string>)
    requires WellFiled(t) && Adjacent(t, tree) && v in Subs(t) && IsListPath(tree, path) && path[0] == v.id
    requires path[|path| - 1] in leaves
    ensures Keeps(v, leaves)
    decreases |path|
  {
    hide Subs, Adjacent, WellFiled, IsListPath;
    if |path| > 1 {
      PathChild(t, tree, v, path);
      PathStaysBelow(t, tree, v.vertices[path[1]], path[1..], leaves);
    } else {
      PathNonempty(tree, path);
      SubsSelf(v);
      assert v in Subs(v) && v.id in leaves;
    }
  }

  /** Both ends of an edge of a kept path: the vertex above, and the child that still has the leaf below it. */
  ghost predicate KeptEdge(t: Vertex, leaves: set<string>, p: string, c: string) {
    exists v :: v in Subs(t) && v.id == p && c in v.vertices && Keeps(v.vertices[c], leaves)
  }

  /** An edge is kept exactly when it lies on a path from the root to a requested leaf. */
  lemma KeptEdges(t: Vertex, tree: map<string, seq<string>>, leaves: set<string>, p: string, c: string)
    requires WellFiled(t) && Adjacent(t, tree)
    ensures OnRequestedPath(tree, t.id, leaves, p, c) <==> KeptEdge(t, leaves, p, c)
  {
    hide Subs, Adjacent, IsListPath, WellFiled, Keeps;
    if KeptEdge(t, leaves, p, c) {
      var v :| v in Subs(t) && v.id == p && c in v.vertices && Keeps(v.vertices[c], leaves);
      KeptEdgeOnPath(t, tree, leaves, v, c);
    }
    if OnRequestedPath(tree, t.id, leaves, p, c) {
      var path, i: nat :| EdgeOfPath(tree, t.id, leaves, path, i, p, c);
      SubsSelf(t);
      OnPathIsKept(t, tree, leaves, t, path, i);
    }
  }

  lemma EdgeListed(t: Vertex, tree: map<string, seq<string>>, v: Vertex, c: string)
    requires WellFiled(t) && Adjacent(t, tree) && v in Subs(t) && c in v.vertices
    ensures v.id in tree && c in tree[v.id] && v.vertices[c].id == c && v.vertices[c] in Subs(t)
  {
    hide Subs;
    SubsChild(t, v, c);
    assert ListsKids(tree, v);
  }

  lemma KeptEdgeOnPath(t: Vertex, tree: map<string, seq<string>>, leaves: set<string>, v: Vertex, c: string)
    requires WellFiled(t) && Adjacent(t, tree) && v in Subs(t) && c in v.vertices && Keeps(v.vertices[c], leaves)
    ensures OnRequestedPath(tree, t.id, leaves, v.id, c)
  {
    hide Subs, IsListPath, WellFiled, Adjacent;
    SubsSelf(t);
    EdgeListed(t, tree, v, c);
    var w :| w in Subs(v.vertices[c]) && w.id in leaves;
    var a := PathBetween(t, tree, t, v);
    var b := PathBetween(t, tree, v.vertices[c], w);
    PathNonempty(tree, a);
    PathNonempty(tree, b);
    PathConcat(tree, a, b);
    assert EdgeOfPath(tree, t.id, leaves, a + b, |a| - 1, v.id, c);
  }

  lemma PathNonempty(tree: map<string, seq<string>>, path: seq<string>)
    requires IsListPath(tree, path)
    ensures path != []
  {}

  lemma {:induction false} OnPathIsKept(t: Vertex, tree: map<string, seq<string>>, leaves: set<string>, v: Vertex, path: seq<string>, i: nat)
    requires WellFiled(t) && Adjacent(t, tree) && v in Subs(t)
    requires IsListPath(tree, path) && path[0] == v.id && path[|path| - 1] in leaves && i + 1 < |path|
    ensures KeptEdge(t, leaves, path[i], path[i + 1])
    decreases |path|
  {
    hide Subs, Adjacent, WellFiled, IsListPath, Keeps;
    PathChild(t, tree, v, path);
    if i == 0 {
      PathStaysBelow(t, tree, v.vertices[path[1]], path[1..], leaves);
    } else {
      OnPathIsKept(t, tree, leaves, v.vertices[path[1]], path[1..], i - 1);
    }
  }

  // ---------- the search for the vertices to keep ----------

  lemma BelowSnoc(v: Vertex, keys: seq<string>, i: nat, leaves: set<string>)
    requires i < |keys| && keys[i] in v.vertices
    ensures RequiredBelow(v, Elements(keys[..i + 1]), leaves) ==
            RequiredBelow(v, Elements(keys[..i]), leaves) + Required(v.vertices[keys[i]], leaves)
  {
    hide Required;
    assert keys[..i + 1] == keys[..i] + [keys[i]];
  }

  /** A kept child among the given keys. */
  ghost predicate KeepsAny(v: Vertex, keys: seq<string>, leaves: set<string>) {
    exists k :: k in keys && k in v.vertices && Keeps(v.vertices[k], leaves)
  }

  lemma AnySnoc(v: Vertex, keys: seq<string>, i: nat, leaves: set<string>)
    requires i < |keys| && keys[i] in v.vertices
    ensures KeepsAny(v, keys[..i + 1], leaves) <==> KeepsAny(v, keys[..i], leaves) || Keeps(v.vertices[keys[i]], leaves)
  {
    hide Keeps;
    assert keys[..i + 1] == keys[..i] + [keys[i]];
  }

  lemma SearchStarts(v: Vertex, keys: seq<string>, leaves: set<string>)
    ensures !KeepsAny(v, keys[..0], leaves) && RequiredBelow(v, Elements(keys[..0]), leaves) == {}
  {}

  /** What is loaded for a vertex: its keys, each as often as there are paths to the vertex. */
  lemma LoadedList(t: Vertex, tree: map<string, seq<string>>, vertices: map<string, Vertex>, v: Vertex)
    requires GraphLoaded(t, tree, vertices) && v in Subs(t)
    ensures v.id in tree && v.id in vertices && vertices[v.id] == v
    ensures Repeats(tree[v.id], v.vertices.Keys, Paths(t, v)) && Paths(t, v) > 0
    ensures forall k :: k in tree[v.id] <==> k in v.vertices
  {
    hide Subs, Visits, SortedBy;
    assert ListedAt(t, tree[v.id], vertices[v.id], v.id);
    SomeVisit(map[], t, v, {v});
    forall k ensures k in tree[v.id] <==> k in v.vertices { assert k in tree[v.id] <==> multiset(tree[v.id])[k] > 0; }
  }

  lemma ChildrenLoaded(t: Vertex, tree: map<string, seq<string>>, vertices: map<string, Vertex>, v: Vertex)
    requires WellFiled(t) && GraphLoaded(t, tree, vertices) && v in Subs(t)
    ensures v.id in tree && forall k :: k in tree[v.id] <==> k in v.vertices
    ensures forall k :: k in v.vertices ==> v.vertices[k].id == k && v.vertices[k] in Subs(t)
  {
    hide Subs, GraphLoaded, Visits;
    LoadedList(t, tree, vertices, v);
    forall k | k in v.vertices ensures v.vertices[k] in Subs(t) { SubsChild(t, v, k); }
  }

  lemma SearchEnds(v: Vertex, keys: seq<string>, leaves: set<string>)
    requires forall k :: k in keys <==> k in v.vertices
    ensures Keeps(v, leaves) <==> v.id in leaves || KeepsAny(v, keys, leaves)
    ensures Required(v, leaves) == RequiredBelow(v, Elements(keys), leaves) + (if Keeps(v, leaves) then {v.id} else {})
  {
    hide Keeps, Required;
    KeepsStep(v, leaves);
    RequiredStep(v, leaves);
    assert Elements(keys) == v.vertices.Keys;
  }

  lemma LoadedAdjacent(t: Vertex, tree: map<string, seq<string>>, vertices: map<string, Vertex>)
    requires GraphLoaded(t, tree, vertices)
    ensures Adjacent(t, tree)
  {
    hide GraphLoaded, Subs, Visits;
    forall v | v in Subs(t) ensures ListsKids(tree, v) { LoadedList(t, tree, vertices, v); }
  }

  // ---------- the sub-tree ----------

  /** The tree without the vertices that no requested leaf is below. */
  ghost function Prune(v: Vertex, leaves: set<string>): Vertex
    decreases v
  {
    Vertex(v.name, v.id, map k | k in v.vertices && Keeps(v.vertices[k], leaves) :: Prune(v.vertices[k], leaves))
  }

  /** `v` is still there. */
  ghost predicate Stays(t: Vertex, v: Vertex, leaves: set<string>) {
    v in Subs(t) && (v == t || Keeps(v, leaves))
  }

  lemma {:induction false} PruneHas(v: Vertex, leaves: set<string>, w: Vertex)
    requires Stays(v, w, leaves)
    ensures Prune(w, leaves) in Subs(Prune(v, leaves))
    decreases v
  {
    if w == v {
      SubsSelf(Prune(v, leaves));
    } else {
      var k :| k in v.vertices && w in Subs(v.vertices[k]);
      KeepsAbove(v.vertices[k], w, leaves);
      PruneHas(v.vertices[k], leaves, w);
      PruneChild(v, leaves, k);
      SubsOfChild(Prune(v, leaves), k);
    }
  }

  lemma PruneChild(v: Vertex, leaves: set<string>, k: string)
    ensures k in Prune(v, leaves).vertices <==> k in v.vertices && Keeps(v.vertices[k], leaves)
    ensures k in Prune(v, leaves).vertices ==> Prune(v, leaves).vertices[k] == Prune(v.vertices[k], leaves)
    ensures Prune(v, leaves).id == v.id && Prune(v, leaves).name == v.name
  {
    hide Keeps;
  }

  lemma KeepsAbove(v: Vertex, w: Vertex, leaves: set<string>)
    requires w in Subs(v) && Keeps(w, leaves)
    ensures Keeps(v, leaves)
  {
    hide Subs;
    var x :| x in Subs(w) && x.id in leaves;
    SubsTransitive(v, w, x);
  }

  lemma {:induction false} PruneComes(v: Vertex, leaves: set<string>, u: Vertex) returns (w: Vertex)
    requires u in Subs(Prune(v, leaves))
    ensures Stays(v, w, leaves) && u == Prune(w, leaves)
    decreases v
  {
    hide Keeps, Prune;
    if u == Prune(v, leaves) {
      SubsSelf(v);
      w := v;
    } else {
      var k :| k in Prune(v, leaves).vertices && u in Subs(Prune(v, leaves).vertices[k]);
      PruneChild(v, leaves, k);
      w := PruneComes(v.vertices[k], leaves, u);
      SubsOfChild(v, k);
    }
  }

  lemma PruneWellFiled(t: Vertex, leaves: set<string>)
    requires WellFiled(t)
    ensures WellFiled(Prune(t, leaves))
  {
    hide Keeps, Prune, Subs;
    var p := Prune(t, leaves);
    forall a, b | a in Subs(p) && b in Subs(p) && a.id == b.id ensures a == b {
      var v := PruneComes(t, leaves, a);
      var w := PruneComes(t, leaves, b);
      PruneChild(v, leaves, "");
      PruneChild(w, leaves, "");
    }
    forall a, k | a in Subs(p) && k in a.vertices ensures a.vertices[k].id == k {
      var v := PruneComes(t, leaves, a);
      PruneChild(v, leaves, k);
      PruneChild(v.vertices[k], leaves, k);
    }
  }

  lemma PruneIsTree(t: Vertex, leaves: set<string>)
    requires IsTree(t)
    ensures IsTree(Prune(t, leaves))
  {
    hide Keeps, Prune, Subs, WellFiled;
    var p := Prune(t, leaves);
    PruneWellFiled(t, leaves);
    forall a, k | a in Subs(p) && k in a.vertices ensures k != p.id {
      var v := PruneComes(t, leaves, a);
      PruneChild(v, leaves, k);
      PruneChild(t, leaves, k);
    }
    forall a, b, k | a in Subs(p) && b in Subs(p) && k in a.vertices && k in b.vertices ensures a == b {
      var v := PruneComes(t, leaves, a);
      var w := PruneComes(t, leaves, b);
      PruneChild(v, leaves, k);
      PruneChild(w, leaves, k);
    }
  }

  /** The pruned adjacency lists, as they are built from the lists and the set of required vertices. */
  ghost predicate Filtered(tree: map<string, seq<string>>, required: set<string>, sub: map<string, seq<string>>) {
    && (forall p :: p in sub <==> p in tree && p in required && Among(tree[p], required) != [])
    && (forall p :: p in sub ==> sub[p] == Among(tree[p], required))
  }

  /** For a vertex that stays: exactly its kept children are listed, each `n` times, and it has an entry only if there are any. */
  ghost predicate ListsKept(sub: map<string, seq<string>>, u: Vertex, n: nat) {
    if u.vertices == map[] then u.id !in sub else u.id in sub && sub[u.id] != [] && Repeats(sub[u.id], u.vertices.Keys, n)
  }

  lemma KeptKids(t: Vertex, children: seq<string>, leaves: set<string>, v: Vertex, n: nat)
    requires WellFiled(t) && Stays(t, v, leaves) && Repeats(children, v.vertices.Keys, n)
    ensures Repeats(Among(children, Required(t, leaves)), Prune(v, leaves).vertices.Keys, n)
    ensures Prune(v, leaves).vertices != map[] ==> v.id in Required(t, leaves)
  {
    hide Subs, Keeps, Prune, Required, WellFiled, Among;
    var u, required := Prune(v, leaves), Required(t, leaves);
    forall k ensures multiset(Among(children, required))[k] == if k in u.vertices then n else 0 {
      AmongCount(children, required, k);
      PruneChild(v, leaves, k);
      if k in v.vertices { RequiredChild(t, leaves, v, k); }
    }
    if k :| k in u.vertices {
      PruneChild(v, leaves, k);
      KeepsChild(v, k, leaves);
      RequiredIs(t, leaves, v);
    }
  }

  lemma FilteredLists(t: Vertex, tree: map<string, seq<string>>, vertices: map<string, Vertex>, leaves: set<string>,
                      sub: map<string, seq<string>>, v: Vertex)
    requires WellFiled(t) && GraphLoaded(t, tree, vertices) && Filtered(tree, Required(t, leaves), sub) && Stays(t, v, leaves)
    ensures ListsKept(sub, Prune(v, leaves), Paths(t, v)) && Paths(t, v) > 0
  {
    hide Subs, Keeps, Prune, Required, Among, WellFiled, GraphLoaded, Visits;
    var u, required := Prune(v, leaves), Required(t, leaves);
    PruneChild(v, leaves, "");
    LoadedList(t, tree, vertices, v);
    KeptKids(t, tree[v.id], leaves, v, Paths(t, v));
    var kept := Among(tree[v.id], required);
    if k :| k in u.vertices { assert multiset(kept)[k] > 0; assert k in kept; }
    if kept != [] { assert multiset(kept)[kept[0]] > 0; assert kept[0] in u.vertices; }
  }

  lemma KeepsChild(v: Vertex, k: string, leaves: set<string>)
    requires k in v.vertices && Keeps(v.vertices[k], leaves)
    ensures Keeps(v, leaves)
  {
    KeepsStep(v, leaves);
  }

  lemma RequiredIs(t: Vertex, leaves: set<string>, v: Vertex)
    requires WellFiled(t) && v in Subs(t)
    ensures v.id in Required(t, leaves) <==> Keeps(v, leaves)
  {
    hide Keeps, Subs;
  }

  lemma RequiredChild(t: Vertex, leaves: set<string>, v: Vertex, k: string)
    requires WellFiled(t) && v in Subs(t) && k in v.vertices
    ensures k in Required(t, leaves) <==> Keeps(v.vertices[k], leaves)
  {
    hide Keeps, Subs, Required;
    SubsChild(t, v, k);
    RequiredIs(t, leaves, v.vertices[k]);
  }

  lemma LoadedAt(t: Vertex, tree: map<string, seq<string>>, vertices: map<string, Vertex>, id: string) returns (v: Vertex)
    requires GraphLoaded(t, tree, vertices) && id in tree
    ensures v in Subs(t) && v.id == id
  {
    hide Subs, Repeats, SortedBy, Visits;
    v := vertices[id];
    assert ListedAt(t, tree[id], v, id);
  }

  /** The edges of the pruned lists are exactly those on paths from the root to requested leaves. */
  lemma SubTreeIsUnionOfPaths(t: Vertex, tree: map<string, seq<string>>, vertices: map<string, Vertex>, leaves: set<string>,
                              sub: map<string, seq<string>>, p: string, c: string)
    requires WellFiled(t) && GraphLoaded(t, tree, vertices) && Filtered(tree, Required(t, leaves), sub)
    ensures p in sub && c in sub[p] <==> OnRequestedPath(tree, t.id, leaves, p, c)
  {
    hide Subs, Keeps, Prune, Required, OnRequestedPath, Among, Visits, GraphLoaded;
    LoadedAdjacent(t, tree, vertices);
    KeptEdges(t, tree, leaves, p, c);
    if p in sub && c in sub[p] {
      var v := LoadedAt(t, tree, vertices, p);
      AmongAre(tree[p], Required(t, leaves));
      LoadedList(t, tree, vertices, v);
      RequiredChild(t, leaves, v, c);
    }
    if KeptEdge(t, leaves, p, c) {
      var v :| v in Subs(t) && v.id == p && c in v.vertices && Keeps(v.vertices[c], leaves);
      LoadedList(t, tree, vertices, v);
      AmongAre(tree[p], Required(t, leaves));
      RequiredChild(t, leaves, v, c);
      KeepsChild(v, c, leaves);
      RequiredIs(t, leaves, v);
      assert c in Among(tree[p], Required(t, leaves));
    }
  }
}
