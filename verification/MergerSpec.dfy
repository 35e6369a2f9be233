/** What tiering and merging compute, and why merging is the coarsest structural quotient. */
module MergerSpec {
  import opened FirstSeen
  import opened Ordering
  import opened Topology

  // ---------- tiers ----------

  /** The children of `v`, in the order of their sorted keys. */
  function Kids(v: Vertex): (kids: seq<Vertex>)
    ensures forall w :: w in kids <==> exists k :: k in v.vertices && v.vertices[k] == w
  {
    var keys := SortedKeys(v.vertices.Keys);
    var kids := seq(|keys|, i requires 0 <= i < |keys| => assert keys[i] in keys; v.vertices[keys[i]]);
    assert forall k :: k in v.vertices ==> k in keys;
    assert forall i :: 0 <= i < |keys| ==> keys[i] in keys && kids[i] == v.vertices[keys[i]];
    kids
  }

  function AllKids(layer: seq<Vertex>): seq<Vertex> {
    if layer == [] then [] else AllKids(layer[..|layer| - 1]) + Kids(layer[|layer| - 1])
  }

  function Ids(layer: seq<Vertex>): set<string> {
    set v | v in layer :: v.id
  }

  function IdOf(v: Vertex): string {
    v.id
  }

  /** The next tier down: all children in order, the first of every ID. */
  ghost function NextTier(layer: seq<Vertex>): seq<Vertex> {
    Distinct(AllKids(layer), IdOf)
  }

  /** The tiers of a layer of rank `r`, compute nodes first. */
  ghost function Tiers(layer: seq<Vertex>, r: nat): (t: seq<seq<Vertex>>)
    ensures |t| == r + 1 && t[r] == layer
    decreases r
  {
    if r == 0 then [layer] else Tiers(NextTier(layer), r - 1) + [layer]
  }

  predicate ById(v: Vertex, w: Vertex) {
    Leq(v.id, w.id)
  }

  lemma ByIdPreorder()
    ensures TotalPreorder(ById)
  {
    forall v, w ensures ById(v, w) || ById(w, v) { LeqTotal(v.id, w.id); }
    forall u, v, w | ById(u, v) && ById(v, w) ensures ById(u, w) { LeqTransitive(u.id, v.id, w.id); }
  }

  ghost predicate Above(layer: seq<Vertex>, lower: seq<Vertex>) {
    forall v, k :: v in layer && k in v.vertices ==> v.vertices[k] in lower
  }

  /** Tier `i` holds vertices of rank `i` of one graph, with all their children in tier `i - 1`. */
  ghost predicate Tiered(t: seq<seq<Vertex>>, g: Catalogue) {
    && (forall i :: 0 <= i < |t| ==> Layered(t[i], i, g))
    && (forall i, j :: 0 <= j < i < |t| && i == j + 1 ==> Above(t[i], t[j]))
  }

  lemma {:induction false} AllKidsMembers(layer: seq<Vertex>)
    ensures forall w :: w in AllKids(layer) <==> exists v, k :: v in layer && k in v.vertices && v.vertices[k] == w
  {
    if layer != [] {
      var front, v := layer[..|layer| - 1], layer[|layer| - 1];
      AllKidsMembers(front);
      assert layer == front + [v];
    }
  }

  lemma LayeredNext(layer: seq<Vertex>, r: nat, g: Catalogue)
    requires r > 0 && Closed(g) && Layered(layer, r, g)
    ensures Layered(NextTier(layer), r - 1, g)
    ensures Above(layer, NextTier(layer))
  {
    AllKidsMembers(layer);
    forall w | w in AllKids(layer) ensures Ranked(w, r - 1) && Holds(g, w) {
      var v, k :| v in layer && k in v.vertices && v.vertices[k] == w;
    }
    DistinctSubset(AllKids(layer), IdOf);
    forall v, k | v in layer && k in v.vertices ensures v.vertices[k] in NextTier(layer) {
      var w := v.vertices[k];
      assert w in AllKids(layer);
      var x :| x in NextTier(layer) && IdOf(x) == IdOf(w);
    }
  }

  lemma TieredAppend(u: seq<seq<Vertex>>, layer: seq<Vertex>, g: Catalogue)
    requires u != [] && Tiered(u, g)
    requires Layered(layer, |u|, g) && Above(layer, u[|u| - 1])
    ensures Tiered(u + [layer], g)
  {
    hide Layered, Above;
    var t := u + [layer];
    forall i | 0 <= i < |t| ensures Layered(t[i], i, g) {
      if i < |u| { assert t[i] == u[i]; }
    }
    forall i, j | 0 <= j < i < |t| && i == j + 1 ensures Above(t[i], t[j]) {
      if i < |u| { assert t[i] == u[i] && t[j] == u[j]; }
    }
  }

  /** Traversing a layered graph sorts its vertices by rank. */
  lemma {:induction false} TiersAreTiered(layer: seq<Vertex>, r: nat, g: Catalogue)
    requires Closed(g) && Layered(layer, r, g)
    ensures Tiered(Tiers(layer, r), g)
    decreases r
  {
    if r > 0 {
      LayeredNext(layer, r, g);
      TiersAreTiered(NextTier(layer), r - 1, g);
      TieredAppend(Tiers(NextTier(layer), r - 1), layer, g);
    }
  }

  /** The representative of `v`: the first vertex of its tier that unfolds to the same shape. */
  ghost function Representative(tier: seq<Vertex>, v: Vertex): (w: Vertex)
    ensures v in tier ==> w in tier && Unfold(w) == Unfold(v)
  {
    if v in tier then First(tier, ShapeOf, v) else v
  }

  // ---------- the quotient ----------

  ghost predicate InTier(t: seq<seq<Vertex>>, i: nat, v: Vertex) {
    i < |t| && v in t[i]
  }

  /** The IDs of the representatives of the children of `v`. */
  ghost function RepIds(t: seq<seq<Vertex>>, i: nat, v: Vertex): set<string> {
    if 0 < i <= |t| then set k | k in v.vertices :: Representative(t[i - 1], v.vertices[k]).id else {}
  }

  /** `v` after merging: the same switch, with the merged representatives of its children below it. */
  ghost function Quotient(t: seq<seq<Vertex>>, g: Catalogue, i: nat, v: Vertex): (q: Vertex)
    ensures q.id == v.id && q.name == v.name
    decreases i
  {
    if i == 0 then v
    else Vertex(v.name, v.id, map id | id in RepIds(t, i, v) && id in g :: Quotient(t, g, i - 1, g[id]))
  }

  /** Where a representative ID comes from. */
  lemma RepIdOrigin(t: seq<seq<Vertex>>, g: Catalogue, i: nat, v: Vertex, id: string)
    requires Closed(g) && Tiered(t, g) && i > 0 && InTier(t, i, v) && id in RepIds(t, i, v)
    ensures id in g && InTier(t, i - 1, g[id]) && g[id].id == id && Representative(t[i - 1], g[id]) == g[id]
    ensures exists k :: k in v.vertices && Representative(t[i - 1], v.vertices[k]) == g[id]
    ensures Unfold(g[id]) in ShapesBelow(v)
  {
    assert Layered(t[i], i, g) && Layered(t[i - 1], i - 1, g) && Above(t[i], t[i - 1]);
    var k :| k in v.vertices && id == Representative(t[i - 1], v.vertices[k]).id;
    var w := Representative(t[i - 1], v.vertices[k]);
    assert v.vertices[k] in t[i - 1] && w in t[i - 1];
    assert Holds(g, w);
    FirstOfClass(t[i - 1], ShapeOf, v.vertices[k], w);
  }

  /** Every child has its representative among them. */
  lemma RepIdOfChild(t: seq<seq<Vertex>>, g: Catalogue, i: nat, v: Vertex, k: string)
    requires Closed(g) && Tiered(t, g) && i > 0 && InTier(t, i, v) && k in v.vertices
    ensures var w := Representative(t[i - 1], v.vertices[k]);
            w.id in RepIds(t, i, v) && Holds(g, w) && Unfold(w) == Unfold(v.vertices[k])
  {
    assert Layered(t[i - 1], i - 1, g) && Above(t[i], t[i - 1]);
  }

  lemma ChildInTier(t: seq<seq<Vertex>>, g: Catalogue, i: nat, v: Vertex, k: string)
    requires Closed(g) && Tiered(t, g) && i > 0 && InTier(t, i, v) && k in v.vertices
    ensures v.vertices[k].id == k && InTier(t, i - 1, v.vertices[k])
  {
    assert Layered(t[i], i, g) && Above(t[i], t[i - 1]);
    assert Ranked(v, i);
  }

  lemma SameIdsSameShapes(t: seq<seq<Vertex>>, g: Catalogue, i: nat, v: Vertex, w: Vertex)
    requires Closed(g) && Tiered(t, g) && i > 0 && InTier(t, i, v) && InTier(t, i, w)
    requires RepIds(t, i, v) <= RepIds(t, i, w)
    ensures ShapesBelow(v) <= ShapesBelow(w)
  {
    hide Closed, Tiered, RepIds;
    forall s | s in ShapesBelow(v) ensures s in ShapesBelow(w) {
      var k :| k in v.vertices && s == Unfold(v.vertices[k]);
      RepIdOfChild(t, g, i, v, k);
      RepIdOrigin(t, g, i, w, Representative(t[i - 1], v.vertices[k]).id);
    }
  }

  lemma SameShapesSameIds(t: seq<seq<Vertex>>, g: Catalogue, i: nat, v: Vertex, w: Vertex)
    requires Closed(g) && Tiered(t, g) && i > 0 && InTier(t, i, v) && InTier(t, i, w)
    requires ShapesBelow(v) <= ShapesBelow(w)
    ensures RepIds(t, i, v) <= RepIds(t, i, w)
  {
    hide Closed, RepIds;
    forall id | id in RepIds(t, i, v) ensures id in RepIds(t, i, w) {
      RepIdOrigin(t, g, i, v, id);
      var l :| l in w.vertices && Unfold(w.vertices[l]) == Unfold(g[id]);
      RepIdOfChild(t, g, i, w, l);
      assert Above(t[i], t[i - 1]);
      FirstOfClass(t[i - 1], ShapeOf, g[id], w.vertices[l]);
    }
  }

  lemma HasChildren(t: seq<seq<Vertex>>, g: Catalogue, i: nat, v: Vertex)
    requires Tiered(t, g) && i > 0 && InTier(t, i, v)
    ensures v.vertices != map[]
  {
    assert Layered(t[i], i, g);
    assert Ranked(v, i);
  }

  /** Two switches of a tier have the same merged child set exactly when they unfold to the same shape. */
  lemma SignatureDecidesShape(t: seq<seq<Vertex>>, g: Catalogue, i: nat, v: Vertex, w: Vertex)
    requires Closed(g) && Tiered(t, g) && i > 0 && InTier(t, i, v) && InTier(t, i, w)
    ensures RepIds(t, i, v) == RepIds(t, i, w) <==> Unfold(v) == Unfold(w)
  {
    hide Closed, Tiered, RepIds;
    HasChildren(t, g, i, v);
    HasChildren(t, g, i, w);
    if RepIds(t, i, v) == RepIds(t, i, w) {
      SameIdsSameShapes(t, g, i, v, w);
      SameIdsSameShapes(t, g, i, w, v);
    }
    if Unfold(v) == Unfold(w) {
      SameShapesSameIds(t, g, i, v, w);
      SameShapesSameIds(t, g, i, w, v);
    }
  }

  /** The merged children are exactly the merged representatives of the original children. */
  lemma QuotientChildren(t: seq<seq<Vertex>>, g: Catalogue, i: nat, v: Vertex)
    requires Closed(g) && Tiered(t, g) && i > 0 && InTier(t, i, v)
    ensures Quotient(t, g, i, v).vertices.Keys == RepIds(t, i, v) && RepIds(t, i, v) != {}
    ensures forall k :: k in v.vertices ==>
              var w := Representative(t[i - 1], v.vertices[k]);
              w.id in Quotient(t, g, i, v).vertices && Quotient(t, g, i, v).vertices[w.id] == Quotient(t, g, i - 1, w)
  {
    hide Closed, Tiered, RepIds;
    HasChildren(t, g, i, v);
    var q := Quotient(t, g, i, v);
    forall id | id in RepIds(t, i, v) ensures id in g {
      RepIdOrigin(t, g, i, v, id);
    }
    assert q.vertices.Keys == RepIds(t, i, v);
    forall k | k in v.vertices
      ensures var w := Representative(t[i - 1], v.vertices[k]);
              w.id in q.vertices && q.vertices[w.id] == Quotient(t, g, i - 1, w)
    {
      RepIdOfChild(t, g, i, v, k);
    }
    var k :| k in v.vertices;
    RepIdOfChild(t, g, i, v, k);
  }

  /** Merging does not change what a switch stands for. */
  lemma {:induction false} QuotientPreservesShape(t: seq<seq<Vertex>>, g: Catalogue, i: nat, v: Vertex)
    requires Closed(g) && Tiered(t, g) && InTier(t, i, v)
    ensures Unfold(Quotient(t, g, i, v)) == Unfold(v)
    decreases i
  {
    hide Closed, Tiered, RepIds, Representative, Quotient;
    if i > 0 {
      var q := Quotient(t, g, i, v);
      HasChildren(t, g, i, v);
      QuotientChildren(t, g, i, v);
      forall id | id in RepIds(t, i, v)
        ensures id in g && Unfold(Quotient(t, g, i - 1, g[id])) == Unfold(g[id])
      {
        RepIdOrigin(t, g, i, v, id);
        QuotientPreservesShape(t, g, i - 1, g[id]);
      }
      QuotientShapes(t, g, i, v);
    } else {
      assert Quotient(t, g, i, v) == v by { QuotientOfNode(t, g, v); }
    }
  }

  lemma QuotientOfNode(t: seq<seq<Vertex>>, g: Catalogue, v: Vertex)
    ensures Quotient(t, g, 0, v) == v
  {}

  lemma QuotientShapes(t: seq<seq<Vertex>>, g: Catalogue, i: nat, v: Vertex)
    requires Closed(g) && Tiered(t, g) && i > 0 && InTier(t, i, v)
    requires forall id :: id in RepIds(t, i, v) ==> id in g && Unfold(Quotient(t, g, i - 1, g[id])) == Unfold(g[id])
    ensures ShapesBelow(Quotient(t, g, i, v)) == ShapesBelow(v)
  {
    hide Closed, Tiered, RepIds, Representative, Unfold;
    var q := Quotient(t, g, i, v);
    forall s | s in ShapesBelow(q) ensures s in ShapesBelow(v) {
      var id :| id in q.vertices && s == Unfold(q.vertices[id]);
      RepIdOrigin(t, g, i, v, id);
    }
    forall s | s in ShapesBelow(v) ensures s in ShapesBelow(q) {
      var k :| k in v.vertices && s == Unfold(v.vertices[k]);
      RepIdOfChild(t, g, i, v, k);
      assert Representative(t[i - 1], v.vertices[k]).id in q.vertices;
    }
  }

  // ---------- a merged tier ----------

  /** Tier `i` after merging: the first switch of every shape. The tier of compute nodes is left as it is. */
  ghost function MergedTier(t: seq<seq<Vertex>>, g: Catalogue, i: nat): seq<Vertex> {
    if i >= |t| then [] else if i == 0 then t[0] else Quotients(t, g, i, Distinct(t[i], ShapeOf))
  }

  ghost function Quotients(t: seq<seq<Vertex>>, g: Catalogue, i: nat, vs: seq<Vertex>): (qs: seq<Vertex>) {
    seq(|vs|, j requires 0 <= j < |vs| => Quotient(t, g, i, vs[j]))
  }
}
