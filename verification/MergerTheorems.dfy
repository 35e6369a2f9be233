/** Merging is the coarsest structural quotient, keeps the compute nodes, and is idempotent. */
module MergerTheorems {
  import opened FirstSeen
  import opened MergerSpec
  import opened Ordering
  import opened Topology

  // ---------- the coarsest quotient ----------

  /** Two vertices of a tier are merged exactly when they unfold to the same shape,
      and they are merged into the first such vertex of the tier. */
  lemma SameRepresentative(t: seq<seq<Vertex>>, i: nat, v: Vertex, w: Vertex)
    requires InTier(t, i, v) && InTier(t, i, w)
    ensures Representative(t[i], v) == Representative(t[i], w) <==> Unfold(v) == Unfold(w)
    ensures exists a :: 0 <= a < |t[i]| && t[i][a] == Representative(t[i], v)
                        && forall b :: 0 <= b < a ==> ShapeOf(t[i][b]) != Unfold(v)
  {
    FirstOfClass(t[i], ShapeOf, v, w);
    FirstIsEarliest(t[i], ShapeOf, v);
  }

  ghost function Shapes(layer: seq<Vertex>): set<Shape> {
    set v | v in layer :: Unfold(v)
  }

  ghost function AllLeaves(layer: seq<Vertex>): set<string> {
    set v, x | v in layer && x in Leaves(v) :: x
  }

  lemma QuotientsAt(t: seq<seq<Vertex>>, g: Catalogue, i: nat, vs: seq<Vertex>)
    requires Closed(g) && Tiered(t, g) && forall v :: v in vs ==> InTier(t, i, v)
    ensures Shapes(Quotients(t, g, i, vs)) == Shapes(vs)
    ensures |Quotients(t, g, i, vs)| == |vs|
    ensures forall a :: 0 <= a < |vs| ==> Unfold(Quotients(t, g, i, vs)[a]) == Unfold(vs[a])
  {
    hide Closed, Tiered, Quotient, Unfold;
    var qs := Quotients(t, g, i, vs);
    forall a | 0 <= a < |vs| ensures Unfold(qs[a]) == Unfold(vs[a]) && Unfold(qs[a]) in Shapes(vs) {
      assert vs[a] in vs;
      QuotientPreservesShape(t, g, i, vs[a]);
    }
    forall s | s in Shapes(vs) ensures s in Shapes(qs) {
      var v :| v in vs && Unfold(v) == s;
      var a :| 0 <= a < |vs| && vs[a] == v;
      assert qs[a] in qs;
    }
  }

  /** A merged tier has one switch for every shape of the original tier, and no two switches of the same shape. */
  lemma MergedTierShapes(t: seq<seq<Vertex>>, g: Catalogue, i: nat)
    requires Closed(g) && Tiered(t, g) && 0 < i < |t|
    ensures Shapes(MergedTier(t, g, i)) == Shapes(t[i])
    ensures forall a, b :: 0 <= a < b < |MergedTier(t, g, i)| ==> Unfold(MergedTier(t, g, i)[a]) != Unfold(MergedTier(t, g, i)[b])
  {
    hide Closed, Tiered, Quotients, Unfold, Distinct;
    var s := Distinct(t[i], ShapeOf);
    DistinctSubset(t[i], ShapeOf);
    DistinctDiffer(t[i], ShapeOf);
    QuotientsAt(t, g, i, s);
    forall x | x in Shapes(t[i]) ensures x in Shapes(s) {
      var v :| v in t[i] && Unfold(v) == x;
      assert Has(s, ShapeOf, ShapeOf(v));
    }
    assert |MergedTier(t, g, i)| == |s|;
  }

  lemma LeavesOfShapes(a: seq<Vertex>, b: seq<Vertex>)
    requires Shapes(a) <= Shapes(b)
    ensures AllLeaves(a) <= AllLeaves(b)
  {
    hide Unfold, Leaves, ShapeLeaves;
    forall x | x in AllLeaves(a) ensures x in AllLeaves(b) {
      var v :| v in a && x in Leaves(v);
      assert Unfold(v) in Shapes(b);
      var w :| w in b && Unfold(w) == Unfold(v);
      LeavesOfUnfolding(v);
      LeavesOfUnfolding(w);
    }
  }

  /** The compute nodes below a switch, and below a whole tier, are those before merging. */
  lemma MergingKeepsLeaves(t: seq<seq<Vertex>>, g: Catalogue, i: nat)
    requires Closed(g) && Tiered(t, g) && i < |t|
    ensures forall v :: v in t[i] ==> Leaves(Quotient(t, g, i, v)) == Leaves(v)
    ensures AllLeaves(MergedTier(t, g, i)) == AllLeaves(t[i])
  {
    hide Closed, Tiered, Quotient, Unfold, Leaves, ShapeLeaves;
    forall v | v in t[i] ensures Leaves(Quotient(t, g, i, v)) == Leaves(v) {
      QuotientPreservesShape(t, g, i, v);
      LeavesOfUnfolding(v);
      LeavesOfUnfolding(Quotient(t, g, i, v));
    }
    if i > 0 {
      MergedTierShapes(t, g, i);
      LeavesOfShapes(MergedTier(t, g, i), t[i]);
      LeavesOfShapes(t[i], MergedTier(t, g, i));
    }
  }

  // ---------- merging again changes nothing ----------

  /** The top tier after NewMerger and Merge. */
  ghost function MergedTop(top: seq<Vertex>, r: nat, g: Catalogue): seq<Vertex> {
    if top == [] then [] else MergedTier(Tiers(SortBy(top, ById), r), g, r)
  }

  /** In the catalogue, a shape determines the vertex among those of one rank. */
  ghost predicate Discerning(g: Catalogue) {
    forall c, d, j: nat :: Holds(g, c) && Holds(g, d) && Ranked(c, j) && Ranked(d, j) && Unfold(c) == Unfold(d) ==> c == d
  }

  lemma OwnRepresentative(t: seq<seq<Vertex>>, g: Catalogue, i: nat, v: Vertex)
    requires Tiered(t, g) && Discerning(g) && InTier(t, i, v)
    ensures Representative(t[i], v) == v
  {
    assert Layered(t[i], i, g);
    var w := Representative(t[i], v);
    assert Ranked(v, i) && Ranked(w, i) && Holds(g, v) && Holds(g, w);
  }

  /** Where shapes determine vertices there is nothing to merge. */
  lemma {:induction false} NothingToMerge(t: seq<seq<Vertex>>, g: Catalogue, i: nat, v: Vertex)
    requires Closed(g) && Tiered(t, g) && Discerning(g) && InTier(t, i, v)
    ensures Quotient(t, g, i, v) == v
    decreases i
  {
    hide Discerning, Representative, Tiered, Closed, RepIds, Quotient;
    if i == 0 {
      QuotientOfNode(t, g, v);
    } else {
      forall k | k in v.vertices
        ensures v.vertices[k].id == k && Representative(t[i - 1], v.vertices[k]) == v.vertices[k]
        ensures Quotient(t, g, i - 1, v.vertices[k]) == v.vertices[k]
      {
        ChildInTier(t, g, i, v, k);
        OwnRepresentative(t, g, i - 1, v.vertices[k]);
        NothingToMerge(t, g, i - 1, v.vertices[k]);
      }
      QuotientFixed(t, g, i, v);
    }
  }

  lemma QuotientFixed(t: seq<seq<Vertex>>, g: Catalogue, i: nat, v: Vertex)
    requires Closed(g) && Tiered(t, g) && i > 0 && InTier(t, i, v)
    requires forall k :: k in v.vertices ==>
               && v.vertices[k].id == k && Representative(t[i - 1], v.vertices[k]) == v.vertices[k]
               && Quotient(t, g, i - 1, v.vertices[k]) == v.vertices[k]
    ensures Quotient(t, g, i, v) == v
  {
    hide Representative, Tiered, Closed;
    var q := Quotient(t, g, i, v);
    QuotientChildren(t, g, i, v);
    assert RepIds(t, i, v) == v.vertices.Keys;
    assert forall k :: k in v.vertices ==> q.vertices[k] == v.vertices[k];
    assert q.vertices == v.vertices;
  }

  /** `v` survives the merging of its tier. */
  ghost predicate Kept(t: seq<seq<Vertex>>, i: nat, v: Vertex) {
    InTier(t, i, v) && Representative(t[i], v) == v
  }

  /** The graph of the merged vertices. */
  ghost function MergedGraph(t: seq<seq<Vertex>>, g: Catalogue): Catalogue {
    map id | id in g && exists i: nat :: Kept(t, i, g[id]) :: Quotient(t, g, TierOf(t, g[id]), g[id])
  }

  ghost function TierOf(t: seq<seq<Vertex>>, v: Vertex): nat {
    if i: nat :| InTier(t, i, v) then i else 0
  }

  lemma TierUnique(t: seq<seq<Vertex>>, g: Catalogue, i: nat, v: Vertex)
    requires Tiered(t, g) && InTier(t, i, v)
    ensures TierOf(t, v) == i && Ranked(v, i) && Holds(g, v)
  {
    var j := TierOf(t, v);
    assert Layered(t[i], i, g) && Layered(t[j], j, g);
    RankUnique(v, i, j);
  }

  lemma KeptIsMerged(t: seq<seq<Vertex>>, g: Catalogue, i: nat, v: Vertex)
    requires Closed(g) && Tiered(t, g) && Kept(t, i, v)
    ensures Holds(MergedGraph(t, g), Quotient(t, g, i, v))
  {
    hide Tiered, Closed, Quotient, Representative;
    TierUnique(t, g, i, v);
  }

  lemma MergedIsKept(t: seq<seq<Vertex>>, g: Catalogue, q: Vertex) returns (i: nat, v: Vertex)
    requires Closed(g) && Tiered(t, g) && Holds(MergedGraph(t, g), q)
    ensures Kept(t, i, v) && q == Quotient(t, g, i, v)
  {
    hide Tiered, Closed, Quotient, Representative;
    v := g[q.id];
    i :| Kept(t, i, v);
    TierUnique(t, g, i, v);
  }

  lemma {:induction false} MergedRank(t: seq<seq<Vertex>>, g: Catalogue, i: nat, v: Vertex)
    requires Closed(g) && Tiered(t, g) && InTier(t, i, v)
    ensures Ranked(Quotient(t, g, i, v), i)
    decreases i
  {
    hide Tiered, Closed, Representative, RepIds;
    if i == 0 {
      TierUnique(t, g, i, v);
    } else {
      var q := Quotient(t, g, i, v);
      QuotientChildren(t, g, i, v);
      forall k | k in q.vertices ensures q.vertices[k].id == k && Ranked(q.vertices[k], i - 1) {
        RepIdOrigin(t, g, i, v, k);
        MergedRank(t, g, i - 1, g[k]);
      }
    }
  }

  lemma MergedChild(t: seq<seq<Vertex>>, g: Catalogue, q: Vertex, k: string)
    requires Closed(g) && Tiered(t, g) && Holds(MergedGraph(t, g), q) && k in q.vertices
    ensures q.vertices[k].id == k && Holds(MergedGraph(t, g), q.vertices[k])
  {
    hide Tiered, Closed, Representative, RepIds, MergedGraph;
    var i, v := MergedIsKept(t, g, q);
    MergedRank(t, g, i, v);
    QuotientChildren(t, g, i, v);
    RepIdOrigin(t, g, i, v, k);
    KeptIsMerged(t, g, i - 1, g[k]);
  }

  lemma MergedGraphClosed(t: seq<seq<Vertex>>, g: Catalogue)
    requires Closed(g) && Tiered(t, g)
    ensures Closed(MergedGraph(t, g))
  {
    hide Tiered, MergedGraph, Holds;
    var m := MergedGraph(t, g);
    forall q, k | Holds(m, q) && k in q.vertices ensures q.vertices[k].id == k && Holds(m, q.vertices[k]) {
      MergedChild(t, g, q, k);
    }
  }

  /** Merged vertices of one rank and one shape are the same vertex. */
  lemma MergedGraphDiscerning(t: seq<seq<Vertex>>, g: Catalogue)
    requires Closed(g) && Tiered(t, g)
    ensures Discerning(MergedGraph(t, g))
  {
    hide Tiered, Closed, MergedGraph, Holds, Ranked, Quotient, Unfold, Representative;
    var m := MergedGraph(t, g);
    forall c, d, j: nat | Holds(m, c) && Holds(m, d) && Ranked(c, j) && Ranked(d, j) && Unfold(c) == Unfold(d)
      ensures c == d
    {
      var i, v := MergedIsKept(t, g, c);
      var i', w := MergedIsKept(t, g, d);
      MergedRank(t, g, i, v);
      MergedRank(t, g, i', w);
      RankUnique(c, i, j);
      RankUnique(d, i', j);
      QuotientPreservesShape(t, g, i, v);
      QuotientPreservesShape(t, g, i, w);
      SameRepresentative(t, i, v, w);
    }
  }

  /** The merged top tier is again a layer the merger accepts. */
  lemma MergedTopLayered(t: seq<seq<Vertex>>, g: Catalogue, i: nat)
    requires Closed(g) && Tiered(t, g) && 0 < i < |t|
    ensures Layered(MergedTier(t, g, i), i, MergedGraph(t, g))
  {
    hide Tiered, Closed, MergedGraph, Holds, Ranked, Quotient, Distinct;
    var s := Distinct(t[i], ShapeOf);
    DistinctAreFirst(t[i], ShapeOf);
    forall q | q in MergedTier(t, g, i) ensures Ranked(q, i) && Holds(MergedGraph(t, g), q) {
      var a :| 0 <= a < |s| && q == Quotient(t, g, i, s[a]);
      assert s[a] in s;
      MergedRank(t, g, i, s[a]);
      KeptIsMerged(t, g, i, s[a]);
    }
  }

  lemma MergedTierSorted(t: seq<seq<Vertex>>, g: Catalogue, i: nat)
    requires 0 < i < |t| && SortedBy(t[i], ById)
    ensures SortedBy(MergedTier(t, g, i), ById)
  {
    hide Distinct;
    DistinctSorted(t[i], ShapeOf, ById);
    var s := Distinct(t[i], ShapeOf);
    assert forall a :: 0 <= a < |s| ==> MergedTier(t, g, i)[a].id == s[a].id;
  }

  lemma AlreadySorted(layer: seq<Vertex>, r: nat, g: Catalogue)
    requires Layered(layer, r, g) && SortedBy(layer, ById)
    ensures SortBy(layer, ById) == layer
  {
    ByIdPreorder();
    SortByPermutes(layer, ById);
    SortBySorted(layer, ById);
    SameMembers(SortBy(layer, ById), layer);
    forall v, w | v in layer && w in layer && ById(v, w) && ById(w, v) ensures v == w {
      LeqAntisymmetric(v.id, w.id);
    }
    SortUnique(SortBy(layer, ById), layer, ById);
  }

  lemma SortedLayer(top: seq<Vertex>, r: nat, g: Catalogue)
    requires Closed(g) && Layered(top, r, g)
    ensures SortedBy(SortBy(top, ById), ById) && Layered(SortBy(top, ById), r, g)
    ensures Tiered(Tiers(SortBy(top, ById), r), g)
  {
    ByIdPreorder();
    SortBySorted(top, ById);
    SortByPermutes(top, ById);
    SameMembers(SortBy(top, ById), top);
    TiersAreTiered(SortBy(top, ById), r, g);
  }

  lemma NothingToMergeInTier(t: seq<seq<Vertex>>, g: Catalogue, i: nat)
    requires Closed(g) && Tiered(t, g) && Discerning(g) && i < |t|
    requires forall a, b :: 0 <= a < b < |t[i]| ==> ShapeOf(t[i][a]) != ShapeOf(t[i][b])
    ensures MergedTier(t, g, i) == t[i]
  {
    hide Tiered, Closed, Discerning, Quotient, Distinct, ShapeOf;
    DistinctOfDistinct(t[i], ShapeOf);
    forall a | 0 <= a < |t[i]| ensures Quotient(t, g, i, t[i][a]) == t[i][a] {
      NothingToMerge(t, g, i, t[i][a]);
    }
  }

  /** Merging the merged graph again merges nothing further: the same top tier comes out. */
  lemma MergingIsIdempotent(top: seq<Vertex>, r: nat, g: Catalogue)
    requires Closed(g) && Layered(top, r, g)
    ensures var merged := MergedTop(top, r, g);
            var m := if top == [] || r == 0 then g else MergedGraph(Tiers(SortBy(top, ById), r), g);
            Closed(m) && Layered(merged, r, m) && MergedTop(merged, r, m) == merged
  {
    hide Tiered, Closed, Discerning, Quotient, Distinct, MergedGraph, SortBy, Unfold;
    if top != [] && r == 0 {
      SortedLayer(top, r, g);
      AlreadySorted(SortBy(top, ById), r, g);
    } else if top != [] {
      var t := Tiers(SortBy(top, ById), r);
      var m, merged := MergedGraph(t, g), MergedTop(top, r, g);
      SortedLayer(top, r, g);
      MergedGraphClosed(t, g);
      MergedGraphDiscerning(t, g);
      MergedTopLayered(t, g, r);
      MergedTierSorted(t, g, r);
      AlreadySorted(merged, r, m);
      TiersAreTiered(merged, r, m);
      MergedTierShapes(t, g, r);
      NothingToMergeInTier(Tiers(merged, r), m, r);
    }
  }
}
