/** The merger of `pkg/topology/merger.go`: its fields are updated in place, tier by tier. */
module Merger {
  import opened FirstSeen
  import opened MergerOrder
  import opened MergerSpec
  import opened MergerTheorems
  import opened Ordering
  import opened Topology

  datatype Filter = Filter(signature: seq<string>, id: string)

  /** The ID a child is known by: that of the vertex it was merged into, or its own. */
  function RefId(refs: map<string, Vertex>, id: string): string {
    if id in refs then refs[id].id else id
  }

  function ChildRefs(refs: map<string, Vertex>, v: Vertex): set<string> {
    set k | k in v.vertices :: RefId(refs, k)
  }

  // ---------- what the fields mean once the tiers below `i` are merged ----------

  /** `nodes` holds the merged form of every representative. */
  ghost predicate NodesDone(nodes: map<string, Vertex>, t: seq<seq<Vertex>>, g: Catalogue, i: nat) {
    forall j, v :: 0 <= j < i && InTier(t, j, v) && Representative(t[j], v) == v ==> v.id in nodes && nodes[v.id] == Quotient(t, g, j, v)
  }

  lemma NodesStart(nodes: map<string, Vertex>, t: seq<seq<Vertex>>, g: Catalogue)
    requires t != [] && forall v :: v in t[0] ==> v.id in nodes && nodes[v.id] == v
    ensures NodesDone(nodes, t, g, 1)
  {
    hide Representative;
  }

  /** `refs` leads every vertex to its representative. */
  ghost predicate RefsDone(refs: map<string, Vertex>, t: seq<seq<Vertex>>, i: nat) {
    forall j, v :: 0 <= j < i && InTier(t, j, v) ==> RefId(refs, v.id) == Representative(t[j], v).id
  }

  ghost predicate NotReferred(refs: map<string, Vertex>, t: seq<seq<Vertex>>, i: nat) {
    forall j, v :: i <= j && InTier(t, j, v) ==> v.id !in refs
  }

  lemma IdsApart(t: seq<seq<Vertex>>, g: Catalogue, i: nat, v: Vertex, j: nat, w: Vertex)
    requires Tiered(t, g) && InTier(t, i, v) && InTier(t, j, w) && i != j
    ensures v.id != w.id
  {
    assert Layered(t[i], i, g) && Layered(t[j], j, g);
    if v == w { RankUnique(v, i, j); }
  }

  /** The filters left by the survivors `s` of tier `i`. */
  ghost predicate FiltersFor(filters: seq<Filter>, t: seq<seq<Vertex>>, i: nat, s: seq<Vertex>) {
    && |filters| == |s|
    && forall f :: 0 <= f < |s| ==> filters[f] == Filter(SortedKeys(RepIds(t, i, s[f])), s[f].id)
  }

  lemma SortedKeysInjective(a: set<string>, b: set<string>)
    ensures SortedKeys(a) == SortedKeys(b) <==> a == b
  {
    if SortedKeys(a) == SortedKeys(b) {
      assert forall x :: x in a <==> x in SortedKeys(a);
      assert forall x :: x in b <==> x in SortedKeys(b);
    }
  }

  class Merger {
    var tiers: seq<seq<Vertex>>     // from the compute nodes up
    var nodes: map<string, Vertex>  // vertices after merging
    var refs: map<string, Vertex>   // a merged-away ID to the vertex it went into

    constructor (top: seq<Vertex>, ghost r: nat, ghost g: Catalogue)
      requires Closed(g) && Layered(top, r, g)
      ensures refs == map[]
      ensures top == [] ==> tiers == []
      ensures top != [] ==> tiers == Tiers(SortBy(top, ById), r) && Tiered(tiers, g)
      ensures top != [] ==> NodesDone(nodes, tiers, g, 1)
      ensures TiersInOrder(tiers)
    {
      hide TiersInOrder, TiersFollow, SortBy, NodesDone, Layered, Closed, Tiered;
      tiers := [];
      nodes, refs := map[], map[];
      new;
      NothingInOrder();
      if top != [] {
        var sorted := SortBy(top, ById);
        SortByPermutes(top, ById);
        SortedLayer(top, r, g);
        Traverse(sorted, r, g);
        NodesStart(nodes, tiers, g);
        TiersAreInOrder(top, r, g);
      }
    }

    method TopTier() returns (top: seq<Vertex>)
      ensures top == if tiers == [] then [] else tiers[|tiers| - 1]
    {
      top := if |tiers| == 0 then [] else tiers[|tiers| - 1];
    }

    method Traverse(layer: seq<Vertex>, ghost r: nat, ghost g: Catalogue)
      requires Closed(g) && Layered(layer, r, g) && layer != []
      modifies this`tiers, this`nodes
      ensures tiers == old(tiers) + Tiers(layer, r)
      ensures |tiers| == |old(tiers)| + r + 1 && TiersFollow(tiers[|old(tiers)|..])
      ensures forall v :: v in Tiers(layer, r)[0] ==> v.id in nodes && nodes[v.id] == v
      decreases r
    {
      hide Layered, Closed, NextTier, Ids, TiersFollow;
      TiersFollowDown(layer, r, g);
      var visited, isLeaf := MarkLayer(layer, r, g);
      assert r == 0 ==> Tiers(layer, r)[0] == layer;
      if !isLeaf {
        assert Tiers(layer, r)[0] == Tiers(NextTier(layer), r - 1)[0];
        var next := NextLayer(layer, visited, r, g);
        LayeredNext(layer, r, g);
        NextNonEmpty(layer, r, g);
        Traverse(next, r - 1, g);
        assert old(tiers) + Tiers(next, r - 1) + [layer] == old(tiers) + (Tiers(next, r - 1) + [layer]);
      }
      tiers := tiers + [layer];
      assert tiers[|old(tiers)|..] == Tiers(layer, r);
    }

    /** The first loop of traverse: visited IDs, and whether this is the tier of compute nodes. */
    method MarkLayer(layer: seq<Vertex>, ghost r: nat, ghost g: Catalogue) returns (visited: set<string>, isLeaf: bool)
      requires Layered(layer, r, g) && layer != []
      modifies this`nodes
      ensures visited == Ids(layer)
      ensures isLeaf <==> r == 0
      ensures isLeaf ==> forall v :: v in layer ==> v.id in nodes && nodes[v.id] == v
    {
      visited, isLeaf := {}, false;
      for a := 0 to |layer|
        invariant visited == Ids(layer[..a])
        invariant isLeaf <==> r == 0 && a > 0
        invariant r == 0 ==> forall v :: v in layer[..a] ==> v.id in nodes && nodes[v.id] == v
      {
        var v := layer[a];
        assert Ranked(v, r) && Holds(g, v);
        assert layer[..a + 1] == layer[..a] + [v];
        assert forall w :: w in layer[..a] ==> Holds(g, w);
        visited := visited + {v.id};
        if |v.vertices| == 0 {
          isLeaf := true;
          nodes := nodes[v.id := v];
        }
      }
      assert layer[..|layer|] == layer;
    }
  
    method Merge(ghost t: seq<seq<Vertex>>, ghost g: Catalogue)
      requires Closed(g) && Tiered(t, g) && tiers == t
      requires t != [] ==> NodesDone(nodes, t, g, 1)
      requires refs == map[]
      modifies this
      ensures |tiers| == |t| && forall i :: 0 <= i < |t| ==> tiers[i] == MergedTier(t, g, i)
      ensures NodesDone(nodes, t, g, |t|) && RefsDone(refs, t, |t|)
    {
      var i := 1;
      if t != [] { LeavesRepresentThemselves(refs, t, g); }
      while i < |tiers|
        invariant |tiers| == |t| && (t == [] || i <= |t|)
        invariant forall j :: 0 <= j < |t| ==> tiers[j] == if j < i then MergedTier(t, g, j) else t[j]
        invariant t != [] ==> NodesDone(nodes, t, g, i) && RefsDone(refs, t, i) && NotReferred(refs, t, i)
      {
        var merged := MergeLayer(tiers[i], t, g, i);
        tiers := tiers[i := merged];
        i := i + 1;
      }
    }

    method MergeLayer(layer: seq<Vertex>, ghost t: seq<seq<Vertex>>, ghost g: Catalogue, ghost i: nat) returns (result: seq<Vertex>)
      requires Closed(g) && Tiered(t, g) && 0 < i < |t| && layer == t[i]
      requires NodesDone(nodes, t, g, i) && RefsDone(refs, t, i) && NotReferred(refs, t, i)
      modifies this`nodes, this`refs
      ensures result == MergedTier(t, g, i)
      ensures NodesDone(nodes, t, g, i + 1) && RefsDone(refs, t, i + 1) && NotReferred(refs, t, i + 1)
    {
      hide Closed, Tiered, LayerDone, NodesDone, RefsDone, NotReferred, Quotient, Quotients, RepIds, FiltersFor, ShapeOf, SortedKeys, ChildRefs;
      var filters: seq<Filter> := [];
      result := [];
      ghost var s: seq<Vertex> := [];
      LayerStart(nodes, refs, t, g, i);
      for a := 0 to |layer|
        invariant LayerDone(nodes, refs, t, g, i, a, s) && OneOf(s, t, i)
        invariant FiltersFor(filters, t, i, s) && result == Quotients(t, g, i, s)
      {
        var v := layer[a];
        var signature := Signature(v);
        LayerVertex(nodes, refs, t, g, i, a, s);
        var f := FindFilter(filters, signature);
        FilterMeansShape(filters, t, g, i, s, v);
        if f >= 0 {
          VisitedStep(nodes, refs, t, g, i, a, s, s[f]);
          refs := refs[v.id := nodes[filters[f].id]];
        } else {
          NewStep(nodes, refs, t, g, i, a, s);
          FilterAppend(filters, t, g, i, s, v);
          filters := filters + [Filter(signature, v.id)];
          var merged := Assemble(v, signature);
          assert (map id | id in signature :: nodes[id]) == (map id | id in RepIds(t, i, v) :: nodes[id]);
          nodes := nodes[v.id := merged];
          result := result + [merged];
          s := s + [v];
        }
      }
      LayerComplete(nodes, refs, t, g, i, s);
    }

    /** The sorted IDs of the merged children of `v`. */
    method Signature(v: Vertex) returns (signature: seq<string>)
      ensures signature == SortedKeys(ChildRefs(refs, v))
    {
      var vertices: set<string> := {};
      var todo := v.vertices.Keys;
      while todo != {}
        invariant todo <= v.vertices.Keys
        invariant vertices == set k | k in v.vertices.Keys - todo :: RefId(refs, k)
        decreases todo
      {
        var id :| id in todo;
        assert v.vertices.Keys - (todo - {id}) == (v.vertices.Keys - todo) + {id};
        todo := todo - {id};
        vertices := vertices + {if id in refs then refs[id].id else id};
      }
      assert vertices == ChildRefs(refs, v);
      signature := SortedKeys(vertices);
    }

    method Assemble(v: Vertex, signature: seq<string>) returns (merged: Vertex)
      requires forall id :: id in signature ==> id in nodes
      ensures merged == Vertex(v.name, v.id, map id | id in signature :: nodes[id])
    {
      var vertices: map<string, Vertex> := map[];
      for b := 0 to |signature|
        invariant vertices == map id | id in signature[..b] :: nodes[id]
      {
        vertices := vertices[signature[b] := nodes[signature[b]]];
      }
      assert signature[..|signature|] == signature;
      merged := Vertex(v.name, v.id, vertices);
    }
  }

  method FindFilter(filters: seq<Filter>, signature: seq<string>) returns (f: int)
    ensures -1 <= f < |filters|
    ensures f >= 0 ==> filters[f].signature == signature
    ensures f < 0 ==> forall h :: 0 <= h < |filters| ==> filters[h].signature != signature
  {
    f := 0;
    while f < |filters|
      invariant 0 <= f <= |filters|
      invariant forall h :: 0 <= h < f ==> filters[h].signature != signature
    {
      if filters[f].signature == signature { return; }
      f := f + 1;
    }
    f := -1;
  }

  ghost predicate OneOf(s: seq<Vertex>, t: seq<seq<Vertex>>, i: nat) {
    forall v :: v in s ==> InTier(t, i, v)
  }

  lemma ChildRefsAreRepIds(refs: map<string, Vertex>, t: seq<seq<Vertex>>, g: Catalogue, i: nat, v: Vertex)
    requires Closed(g) && Tiered(t, g) && i > 0 && InTier(t, i, v) && RefsDone(refs, t, i)
    ensures ChildRefs(refs, v) == RepIds(t, i, v)
  {
    assert Layered(t[i], i, g) && Above(t[i], t[i - 1]);
    forall k | k in v.vertices ensures RefId(refs, k) == Representative(t[i - 1], v.vertices[k]).id {
      assert InTier(t, i - 1, v.vertices[k]) && Ranked(v, i);
    }
  }

  // ---------- the loop of mergeLayer ----------

  /** The fields after the first `a` vertices of tier `i`, whose survivors are `s`. */
  ghost predicate LayerDone(nodes: map<string, Vertex>, refs: map<string, Vertex>, t: seq<seq<Vertex>>, g: Catalogue,
                            i: nat, a: nat, s: seq<Vertex>)
  {
    && i < |t| && a <= |t[i]| && s == Distinct(t[i][..a], ShapeOf) && OneOf(s, t, i)
    && NodesDone(nodes, t, g, i) && RefsDone(refs, t, i) && NotReferred(refs, t, i + 1)
    && (forall w :: w in s ==> w.id in nodes && nodes[w.id] == Quotient(t, g, i, w))
    && (forall w :: w in t[i][..a] ==> RefId(refs, w.id) == Representative(t[i], w).id)
    && (forall w :: w in t[i] && w.id in refs ==> w in t[i][..a])
  }

  lemma LayerStart(nodes: map<string, Vertex>, refs: map<string, Vertex>, t: seq<seq<Vertex>>, g: Catalogue, i: nat)
    requires 0 < i < |t|
    requires NodesDone(nodes, t, g, i) && RefsDone(refs, t, i) && NotReferred(refs, t, i)
    ensures LayerDone(nodes, refs, t, g, i, 0, [])
    ensures FiltersFor([], t, i, []) && Quotients(t, g, i, []) == []
  {
    assert forall w :: w in t[i] ==> InTier(t, i, w);
  }

  /** The signature and the merged form of the next vertex, in terms of the fields. */
  lemma LayerVertex(nodes: map<string, Vertex>, refs: map<string, Vertex>, t: seq<seq<Vertex>>, g: Catalogue,
                    i: nat, a: nat, s: seq<Vertex>)
    requires Closed(g) && Tiered(t, g) && 0 < i < |t| && a < |t[i]|
    requires LayerDone(nodes, refs, t, g, i, a, s)
    ensures var v := t[i][a];
            && ChildRefs(refs, v) == RepIds(t, i, v)
            && (forall id :: id in RepIds(t, i, v) ==> id in nodes)
            && Vertex(v.name, v.id, map id | id in RepIds(t, i, v) :: nodes[id]) == Quotient(t, g, i, v)
  {
    hide Closed, Tiered, RepIds, RefsDone, Representative;
    var v := t[i][a];
    assert InTier(t, i, v);
    ChildRefsAreRepIds(refs, t, g, i, v);
    forall id | id in RepIds(t, i, v) ensures id in g && id in nodes && nodes[id] == Quotient(t, g, i - 1, g[id]) {
      RepIdOrigin(t, g, i, v, id);
    }
  }

  lemma FilterAppend(filters: seq<Filter>, t: seq<seq<Vertex>>, g: Catalogue, i: nat, s: seq<Vertex>, v: Vertex)
    requires FiltersFor(filters, t, i, s)
    ensures FiltersFor(filters + [Filter(SortedKeys(RepIds(t, i, v)), v.id)], t, i, s + [v])
    ensures Quotients(t, g, i, s + [v]) == Quotients(t, g, i, s) + [Quotient(t, g, i, v)]
  {}

  /** A filter matches exactly when its switch has the same shape. */
  lemma FilterMeansShape(filters: seq<Filter>, t: seq<seq<Vertex>>, g: Catalogue, i: nat, s: seq<Vertex>, v: Vertex)
    requires Closed(g) && Tiered(t, g) && i > 0 && OneOf(s, t, i) && InTier(t, i, v)
    requires FiltersFor(filters, t, i, s)
    ensures |filters| == |s|
    ensures forall f :: 0 <= f < |s| ==>
              && filters[f].id == s[f].id
              && (filters[f].signature == SortedKeys(RepIds(t, i, v)) <==> ShapeOf(s[f]) == ShapeOf(v))
  {
    hide Closed, Tiered, RepIds;
    forall f | 0 <= f < |s|
      ensures filters[f].signature == SortedKeys(RepIds(t, i, v)) <==> ShapeOf(s[f]) == ShapeOf(v)
    {
      assert s[f] in s;
      SortedKeysInjective(RepIds(t, i, s[f]), RepIds(t, i, v));
      SignatureDecidesShape(t, g, i, s[f], v);
    }
  }

  lemma RefsDoneFrame(refs: map<string, Vertex>, id: string, w: Vertex, t: seq<seq<Vertex>>, i: nat)
    requires RefsDone(refs, t, i) && NotReferred(refs, t, i + 1)
    requires forall j, x :: 0 <= j && j != i && InTier(t, j, x) ==> x.id != id
    ensures RefsDone(refs[id := w], t, i) && NotReferred(refs[id := w], t, i + 1)
  {}

  lemma NodesDoneFrame(nodes: map<string, Vertex>, id: string, w: Vertex, t: seq<seq<Vertex>>, g: Catalogue, i: nat)
    requires NodesDone(nodes, t, g, i)
    requires forall j, x :: 0 <= j && j != i && InTier(t, j, x) ==> x.id != id
    ensures NodesDone(nodes[id := w], t, g, i)
  {}

  lemma OtherTiersApart(t: seq<seq<Vertex>>, g: Catalogue, i: nat, v: Vertex)
    requires Tiered(t, g) && InTier(t, i, v)
    ensures forall j, x :: 0 <= j && j != i && InTier(t, j, x) ==> x.id != v.id
    ensures forall x :: x in t[i] && x.id == v.id ==> x == v
  {
    forall j, x | 0 <= j && j != i && InTier(t, j, x) ensures x.id != v.id {
      IdsApart(t, g, i, v, j, x);
    }
    assert Layered(t[i], i, g);
  }

  /** A switch whose shape has been seen is referred to the survivor `w`. */
  lemma VisitedStep(nodes: map<string, Vertex>, refs: map<string, Vertex>, t: seq<seq<Vertex>>, g: Catalogue,
                 i: nat, a: nat, s: seq<Vertex>, w: Vertex)
    requires Tiered(t, g) && 0 < i < |t| && a < |t[i]|
    requires LayerDone(nodes, refs, t, g, i, a, s)
    requires w in s && ShapeOf(w) == ShapeOf(t[i][a])
    ensures w.id in nodes && LayerDone(nodes, refs[t[i][a].id := nodes[w.id]], t, g, i, a + 1, s)
  {
    hide Closed, Tiered, NodesDone, RefsDone, NotReferred, Distinct, First, ShapeOf, Quotient;
    var v, front := t[i][a], t[i][..a];
    OtherTiersApart(t, g, i, v);
    RefsDoneFrame(refs, v.id, nodes[w.id], t, i);
    assert t[i][..a + 1] == front + [v] && front + [v] + t[i][a + 1..] == t[i];
    OldClass(front, v, t[i][a + 1..], w, ShapeOf);
    assert nodes[w.id].id == w.id;
  }

  /** A switch of a new shape becomes a survivor. */
  lemma NewStep(nodes: map<string, Vertex>, refs: map<string, Vertex>, t: seq<seq<Vertex>>, g: Catalogue,
                i: nat, a: nat, s: seq<Vertex>)
    requires Tiered(t, g) && 0 < i < |t| && a < |t[i]|
    requires LayerDone(nodes, refs, t, g, i, a, s)
    requires forall f :: 0 <= f < |s| ==> ShapeOf(s[f]) != ShapeOf(t[i][a])
    ensures LayerDone(nodes[t[i][a].id := Quotient(t, g, i, t[i][a])], refs, t, g, i, a + 1, s + [t[i][a]])
  {
    hide Closed, Tiered, NodesDone, RefsDone, NotReferred, Distinct, First, ShapeOf, Quotient, Representative;
    var v, front := t[i][a], t[i][..a];
    OtherTiersApart(t, g, i, v);
    NodesDoneFrame(nodes, v.id, Quotient(t, g, i, v), t, g, i);
    assert t[i][..a + 1] == front + [v];
    NewSurvivor(t, i, a, s);
  }

  /** A vertex of a new shape represents itself. */
  lemma NewSurvivor(t: seq<seq<Vertex>>, i: nat, a: nat, s: seq<Vertex>)
    requires i < |t| && a < |t[i]| && s == Distinct(t[i][..a], ShapeOf)
    requires forall f :: 0 <= f < |s| ==> ShapeOf(s[f]) != ShapeOf(t[i][a])
    ensures Distinct(t[i][..a + 1], ShapeOf) == s + [t[i][a]] && Representative(t[i], t[i][a]) == t[i][a]
  {
    hide Distinct, First, ShapeOf;
    var v, front := t[i][a], t[i][..a];
    assert t[i][..a + 1] == front + [v] && front + [v] + t[i][a + 1..] == t[i];
    NewClass(front, v, t[i][a + 1..], ShapeOf);
  }

  lemma LayerComplete(nodes: map<string, Vertex>, refs: map<string, Vertex>, t: seq<seq<Vertex>>, g: Catalogue,
                      i: nat, s: seq<Vertex>)
    requires 0 < i < |t|
    requires LayerDone(nodes, refs, t, g, i, |t[i]|, s)
    ensures MergedTier(t, g, i) == Quotients(t, g, i, s)
    ensures NodesDone(nodes, t, g, i + 1) && RefsDone(refs, t, i + 1) && NotReferred(refs, t, i + 1)
  {
    assert t[i][..|t[i]|] == t[i];
    DistinctAreFirst(t[i], ShapeOf);
  }

  lemma LeavesRepresentThemselves(refs: map<string, Vertex>, t: seq<seq<Vertex>>, g: Catalogue)
    requires t != [] && Tiered(t, g) && refs == map[]
    ensures RefsDone(refs, t, 1)
  {
    forall v | InTier(t, 0, v) ensures Representative(t[0], v).id == v.id {
      assert Layered(t[0], 0, g);
    }
  }

  /** The second loop of traverse: the unvisited children, in order. */
  method NextLayer(layer: seq<Vertex>, seen: set<string>, ghost r: nat, ghost g: Catalogue) returns (next: seq<Vertex>)
    requires Closed(g) && Layered(layer, r, g) && seen == Ids(layer)
    ensures next == NextTier(layer)
  {
    next := [];
    var visited := seen;
    for a := 0 to |layer|
      invariant next == Distinct(AllKids(layer[..a]), IdOf)
      invariant visited == seen + Ids(next)
    {
      assert layer[..a + 1][..a] == layer[..a];
      forall k | k in layer[a].vertices ensures layer[a].vertices[k].id == k && k !in seen {
        ApartFromParents(layer, r, g, layer[a], k);
      }
      visited, next := AddKids(layer[a], visited, next, seen, AllKids(layer[..a]));
    }
    assert layer[..|layer|] == layer;
  }

  method AddKids(v: Vertex, visited0: set<string>, next0: seq<Vertex>, ghost seen: set<string>, ghost before: seq<Vertex>)
    returns (visited: set<string>, next: seq<Vertex>)
    requires forall k :: k in v.vertices ==> v.vertices[k].id == k && k !in seen
    requires next0 == Distinct(before, IdOf) && visited0 == seen + Ids(next0)
    ensures next == Distinct(before + Kids(v), IdOf) && visited == seen + Ids(next)
  {
    hide Distinct;
    visited, next := visited0, next0;
    var keys := SortedKeys(v.vertices.Keys);
    assert before + Kids(v)[..0] == before;
    for b := 0 to |keys|
      invariant next == Distinct(before + Kids(v)[..b], IdOf)
      invariant visited == seen + Ids(next)
    {
      var id := keys[b];
      assert id in keys;
      ghost var longer := before + Kids(v)[..b + 1];
      assert longer == before + Kids(v)[..b] + [v.vertices[id]];
      DistinctStep(before + Kids(v)[..b], v.vertices[id], IdOf);
      if id !in visited {
        visited := visited + {id};
        next := next + [v.vertices[id]];
      }
    }
    assert Kids(v)[..|keys|] == Kids(v);
  }

  lemma ApartFromParents(layer: seq<Vertex>, r: nat, g: Catalogue, v: Vertex, k: string)
    requires Closed(g) && Layered(layer, r, g) && v in layer && k in v.vertices
    ensures v.vertices[k].id == k && k !in Ids(layer)
  {
    assert Ranked(v, r) && Holds(g, v);
    if k in Ids(layer) {
      var w :| w in layer && w.id == k;
      assert w == v.vertices[k];
      RankUnique(w, r, r - 1);
    }
  }

  lemma NextNonEmpty(layer: seq<Vertex>, r: nat, g: Catalogue)
    requires Closed(g) && Layered(layer, r, g) && layer != [] && r > 0
    ensures NextTier(layer) != []
  {
    LayeredNext(layer, r, g);
    var v := layer[0];
    assert Ranked(v, r);
    var k :| k in v.vertices;
    assert v.vertices[k] in NextTier(layer);
  }
}
