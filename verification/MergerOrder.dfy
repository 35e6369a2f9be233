/**
 The order inside the tiers, and which of several equal switches stays: `pkg/topology/merger.go` sorts the top tier by ID
 and comes to children parent by parent, under each in the order of their IDs.
 */
module MergerOrder {
  import opened FirstSeen
  import opened MergerSpec
  import opened MergerTheorems
  import opened Ordering
  import opened Topology

  // ---------- the order in which children are reached ----------

  /** The vertex at `a` is the first of its tier that has a child under `k`. */
  ghost predicate FirstReached(layer: seq<Vertex>, k: string, a: nat) {
    a < |layer| && k in layer[a].vertices && forall b :: 0 <= b < a ==> k !in layer[b].vertices
  }

  /** `k` is first reached from an earlier parent than `l`, or from the same one and has the smaller ID. */
  ghost predicate ReachedBefore(layer: seq<Vertex>, k: string, l: string) {
    exists a: nat, b: nat :: FirstReached(layer, k, a) && FirstReached(layer, l, b) && (a < b || (a == b && k != l && Leq(k, l)))
  }

  ghost predicate InReachOrder(layer: seq<Vertex>, next: seq<Vertex>) {
    forall i, j :: 0 <= i < j < |next| ==> ReachedBefore(layer, next[i].id, next[j].id)
  }

  /** Exactly the children of the vertices of a tier. */
  ghost predicate ChildrenOf(layer: seq<Vertex>, next: seq<Vertex>) {
    forall w :: w in next <==> exists v, k :: v in layer && k in v.vertices && v.vertices[k] == w
  }

  /** Vertices of one graph, each child filed under its ID. */
  ghost predicate OneGraph(layer: seq<Vertex>, g: Catalogue) {
    forall v, k :: v in layer && k in v.vertices ==> v.vertices[k].id == k && Holds(g, v.vertices[k])
  }

  lemma LayerIsOneGraph(layer: seq<Vertex>, r: nat, g: Catalogue)
    requires Closed(g) && Layered(layer, r, g)
    ensures OneGraph(layer, g)
  {}

  lemma ReachStays(front: seq<Vertex>, v: Vertex, k: string, a: nat)
    requires FirstReached(front, k, a)
    ensures FirstReached(front + [v], k, a)
  {
    var layer := front + [v];
    assert layer[a] == front[a] && forall b :: 0 <= b < a ==> layer[b] == front[b];
  }

  lemma OrderStays(front: seq<Vertex>, v: Vertex, k: string, l: string)
    requires ReachedBefore(front, k, l)
    ensures ReachedBefore(front + [v], k, l)
  {
    hide FirstReached, Leq;
    var a: nat, b: nat :| FirstReached(front, k, a) && FirstReached(front, l, b) && (a < b || (a == b && k != l && Leq(k, l)));
    ReachStays(front, v, k, a);
    ReachStays(front, v, l, b);
  }

  /** The ID is reached from one of the vertices, and from one of them first. */
  lemma ReachedFrom(layer: seq<Vertex>, k: string, i: nat) returns (a: nat)
    requires i < |layer| && k in layer[i].vertices
    ensures a <= i && FirstReached(layer, k, a)
  {
    a := 0;
    while k !in layer[a].vertices
      invariant a <= i && forall b :: 0 <= b < a ==> k !in layer[b].vertices
      decreases i - a
    {
      a := a + 1;
    }
  }

  // ---------- the next tier is in that order ----------

  /** What has been kept after the first `b` children of `v`, and from where it was reached first. */
  ghost predicate KeptSoFar(front: seq<Vertex>, v: Vertex, b: nat, kept: seq<Vertex>) {
    forall w :: w in kept ==>
      || (exists a: nat :: FirstReached(front, w.id, a))
      || (b <= |SortedKeys(v.vertices.Keys)| && w.id in SortedKeys(v.vertices.Keys)[..b] && FirstReached(front + [v], w.id, |front|))
  }

  lemma KidAt(v: Vertex, b: nat)
    requires b < |v.vertices| && forall k :: k in v.vertices ==> v.vertices[k].id == k
    ensures var key := SortedKeys(v.vertices.Keys)[b]; key in v.vertices && b < |Kids(v)| && Kids(v)[b] == v.vertices[key] && Kids(v)[b].id == key
    ensures |Kids(v)| == |v.vertices|
  {
    var keys := SortedKeys(v.vertices.Keys);
    assert |v.vertices| == |v.vertices.Keys|;
    assert keys[b] in keys;
  }

  lemma {:induction false} KidsInOrder(front: seq<Vertex>, v: Vertex, b: nat, g: Catalogue)
    requires OneGraph(front + [v], g) && b <= |v.vertices| == |Kids(v)|
    requires InReachOrder(front, NextTier(front))
    ensures var kept := Distinct(AllKids(front) + Kids(v)[..b], IdOf);
            InReachOrder(front + [v], kept) && KeptSoFar(front, v, b, kept)
    decreases b
  {
    hide OneGraph, Kids, AllKids, Distinct, ReachedBefore, FirstReached, SortedKeys;
    if b == 0 {
      assert AllKids(front) + Kids(v)[..0] == AllKids(front);
      KeptFromFront(front, v, g);
    } else {
      KidsInOrder(front, v, b - 1, g);
      var before := AllKids(front) + Kids(v)[..b - 1];
      assert AllKids(front) + Kids(v)[..b] == before + [Kids(v)[b - 1]];
      DistinctStep(before, Kids(v)[b - 1], IdOf);
      KidKept(front, v, b - 1, g, Distinct(before, IdOf));
    }
  }

  lemma KeptFromFront(front: seq<Vertex>, v: Vertex, g: Catalogue)
    requires OneGraph(front + [v], g) && InReachOrder(front, NextTier(front))
    ensures InReachOrder(front + [v], NextTier(front)) && KeptSoFar(front, v, 0, NextTier(front))
  {
    hide AllKids, Distinct, ReachedBefore, Kids;
    forall i, j | 0 <= i < j < |NextTier(front)| ensures ReachedBefore(front + [v], NextTier(front)[i].id, NextTier(front)[j].id) {
      OrderStays(front, v, NextTier(front)[i].id, NextTier(front)[j].id);
    }
    AllKidsMembers(front);
    DistinctSubset(AllKids(front), IdOf);
    forall w | w in NextTier(front) ensures exists a: nat :: FirstReached(front, w.id, a) {
      var u, k :| u in front && k in u.vertices && u.vertices[k] == w;
      var i :| 0 <= i < |front| && front[i] == u;
      assert u in front + [v];
      var a := ReachedFrom(front, k, i);
    }
  }

  lemma KidKept(front: seq<Vertex>, v: Vertex, b: nat, g: Catalogue, kept: seq<Vertex>)
    requires OneGraph(front + [v], g) && b < |v.vertices| == |Kids(v)|
    requires kept == Distinct(AllKids(front) + Kids(v)[..b], IdOf)
    requires InReachOrder(front + [v], kept) && KeptSoFar(front, v, b, kept)
    ensures var more := Extend(kept, IdOf, Kids(v)[b]); InReachOrder(front + [v], more) && KeptSoFar(front, v, b + 1, more)
  {
    hide OneGraph, Kids, AllKids, Distinct, ReachedBefore, FirstReached, SortedKeys;
    FiledHere(front, v, g);
    KidAt(v, b);
    var w, more := Kids(v)[b], Extend(kept, IdOf, Kids(v)[b]);
    var keys := SortedKeys(v.vertices.Keys);
    assert keys[..b + 1] == keys[..b] + [keys[b]];
    if !Has(kept, IdOf, w.id) {
      NewKidReached(front, v, b, g, kept);
      forall i | 0 <= i < |kept| ensures ReachedBefore(front + [v], kept[i].id, w.id) {
        assert kept[i] in kept;
        KidComesLast(front, v, b, kept[i].id, w.id);
      }
    }
  }

  lemma FiledHere(front: seq<Vertex>, v: Vertex, g: Catalogue)
    requires OneGraph(front + [v], g)
    ensures forall k :: k in v.vertices ==> v.vertices[k].id == k
  {
    assert v in front + [v];
  }

  /** A child with a new ID is reached from no earlier vertex. */
  lemma NewKidReached(front: seq<Vertex>, v: Vertex, b: nat, g: Catalogue, kept: seq<Vertex>)
    requires OneGraph(front + [v], g) && b < |v.vertices| == |Kids(v)| && kept == Distinct(AllKids(front) + Kids(v)[..b], IdOf)
    requires Kids(v)[b].id in v.vertices && !Has(kept, IdOf, Kids(v)[b].id)
    ensures FirstReached(front + [v], Kids(v)[b].id, |front|)
  {
    hide Kids, AllKids, Distinct;
    var key, layer := Kids(v)[b].id, front + [v];
    assert layer[|front|] == v;
    forall c | 0 <= c < |front| ensures key !in layer[c].vertices {
      if key in layer[c].vertices { OldKidKept(front, v, b, g, c, key); }
    }
  }

  lemma OldKidKept(front: seq<Vertex>, v: Vertex, b: nat, g: Catalogue, c: nat, key: string)
    requires OneGraph(front + [v], g) && b <= |Kids(v)| && c < |front| && key in front[c].vertices
    ensures Has(Distinct(AllKids(front) + Kids(v)[..b], IdOf), IdOf, key)
  {
    hide Kids, AllKids, Distinct, OneGraph;
    var w := front[c].vertices[key];
    ListedChild(front, v, g, c, key);
    assert w in AllKids(front) + Kids(v)[..b];
    DistinctSubset(AllKids(front) + Kids(v)[..b], IdOf);
    assert IdOf(w) == key;
  }

  lemma ListedChild(front: seq<Vertex>, v: Vertex, g: Catalogue, c: nat, key: string)
    requires OneGraph(front + [v], g) && c < |front| && key in front[c].vertices
    ensures front[c].vertices[key] in AllKids(front) && front[c].vertices[key].id == key
  {
    hide AllKids;
    AllKidsMembers(front);
    assert front[c] in front && front[c] in front + [v];
  }

  /** Whatever has been kept before comes before the next child. */
  lemma KidComesLast(front: seq<Vertex>, v: Vertex, b: nat, k: string, l: string)
    requires b < |v.vertices| && l == SortedKeys(v.vertices.Keys)[b] && FirstReached(front + [v], l, |front|)
    requires (exists a: nat :: FirstReached(front, k, a))
             || (k in SortedKeys(v.vertices.Keys)[..b] && FirstReached(front + [v], k, |front|))
    ensures ReachedBefore(front + [v], k, l)
  {
    hide SortedKeys, Leq;
    if a: nat :| FirstReached(front, k, a) {
      ReachStays(front, v, k, a);
    } else {
      var keys := SortedKeys(v.vertices.Keys);
      SortedKeysSorted(v.vertices.Keys);
      var i :| 0 <= i < b && keys[..b][i] == k;
      assert Leq(keys[i], keys[b]) && keys[i] != keys[b];
    }
  }

  lemma {:induction false} NextInOrder(layer: seq<Vertex>, g: Catalogue)
    requires OneGraph(layer, g)
    ensures InReachOrder(layer, NextTier(layer))
  {
    hide OneGraph, Kids, ReachedBefore;
    if layer != [] {
      var front, v := layer[..|layer| - 1], layer[|layer| - 1];
      assert layer == front + [v];
      FrontOneGraph(front, v, g);
      NextInOrder(front, g);
      AllOfKids(v);
      KidsInOrder(front, v, |v.vertices|, g);
      assert Kids(v)[..|v.vertices|] == Kids(v);
      assert AllKids(layer) == AllKids(front) + Kids(v);
    }
  }

  lemma AllOfKids(v: Vertex)
    ensures |Kids(v)| == |v.vertices|
  {
    assert |v.vertices| == |v.vertices.Keys|;
  }

  lemma FrontOneGraph(front: seq<Vertex>, v: Vertex, g: Catalogue)
    requires OneGraph(front + [v], g)
    ensures OneGraph(front, g)
  {
    assert forall u :: u in front ==> u in front + [v];
  }

  // ---------- and nothing else is ----------

  lemma ReachedOnce(layer: seq<Vertex>, k: string, a: nat, b: nat)
    requires FirstReached(layer, k, a) && FirstReached(layer, k, b)
    ensures a == b
  {}

  lemma ReachedOneWay(layer: seq<Vertex>, k: string, l: string)
    requires ReachedBefore(layer, k, l)
    ensures !ReachedBefore(layer, l, k) && k != l
  {
    hide FirstReached, Leq;
    var a: nat, b: nat :| FirstReached(layer, k, a) && FirstReached(layer, l, b) && (a < b || (a == b && k != l && Leq(k, l)));
    if k == l { ReachedOnce(layer, k, a, b); }
    if ReachedBefore(layer, l, k) {
      var c: nat, d: nat :| FirstReached(layer, l, c) && FirstReached(layer, k, d) && (c < d || (c == d && l != k && Leq(l, k)));
      ReachedOnce(layer, k, a, d);
      ReachedOnce(layer, l, b, c);
      LeqAntisymmetric(k, l);
    }
  }

  /** There is one such list. */
  lemma {:induction false} OneReachOrder(layer: seq<Vertex>, xs: seq<Vertex>, ys: seq<Vertex>)
    requires InReachOrder(layer, xs) && InReachOrder(layer, ys) && forall w :: w in xs <==> w in ys
    ensures xs == ys
    decreases |xs|
  {
    hide ReachedBefore;
    if xs == [] {
      NothingIn(ys);
    } else if ys == [] {
      NothingIn(xs);
    } else {
      assert xs[0] in ys && ys[0] in xs;
      var i :| 0 <= i < |ys| && ys[i] == xs[0];
      var j :| 0 <= j < |xs| && xs[j] == ys[0];
      if i > 0 && j > 0 { ReachedOneWay(layer, xs[0].id, ys[0].id); }
      assert xs[0] == ys[0];
      forall w ensures w in xs[1..] <==> w in ys[1..] { RestHas(layer, xs, w); RestHas(layer, ys, w); }
      OneReachOrder(layer, xs[1..], ys[1..]);
    }
  }

  lemma NothingIn(xs: seq<Vertex>)
    requires forall w :: w !in xs
    ensures xs == []
  {
    forall w ensures multiset(xs)[w] == 0 { assert w in xs <==> multiset(xs)[w] > 0; }
    assert multiset(xs) == multiset{} && |xs| == |multiset(xs)|;
  }

  lemma RestHas(layer: seq<Vertex>, xs: seq<Vertex>, w: Vertex)
    requires xs != [] && InReachOrder(layer, xs)
    ensures w in xs[1..] <==> w in xs && w != xs[0]
  {
    hide ReachedBefore;
    if w in xs[1..] {
      var i :| 0 <= i < |xs[1..]| && xs[1..][i] == w;
      ReachedOneWay(layer, xs[0].id, xs[i + 1].id);
    }
  }

  /** The next tier holds exactly the children, in the order in which they are reached, and is the only such list. */
  lemma NextTierIs(layer: seq<Vertex>, r: nat, g: Catalogue, next: seq<Vertex>)
    requires r > 0 && Closed(g) && Layered(layer, r, g)
    ensures next == NextTier(layer) <==> ChildrenOf(layer, next) && InReachOrder(layer, next)
  {
    hide Closed, Layered, NextTier, InReachOrder, OneGraph;
    LayerIsOneGraph(layer, r, g);
    NextInOrder(layer, g);
    NextAreChildren(layer, r, g);
    if ChildrenOf(layer, next) && InReachOrder(layer, next) { OneReachOrder(layer, next, NextTier(layer)); }
  }

  lemma NextAreChildren(layer: seq<Vertex>, r: nat, g: Catalogue)
    requires r > 0 && Closed(g) && Layered(layer, r, g)
    ensures ChildrenOf(layer, NextTier(layer))
  {
    hide Closed, Layered, Distinct, AllKids;
    LayeredNext(layer, r, g);
    AllKidsMembers(layer);
    DistinctSubset(AllKids(layer), IdOf);
  }

  // ---------- all tiers ----------

  /** Every tier below the top holds exactly the children of the one above, in the order in which they are reached;
      the top tier is sorted by ID. */
  ghost predicate TiersInOrder(t: seq<seq<Vertex>>) {
    (t != [] ==> SortedIds(t[|t| - 1])) && TiersFollow(t)
  }

  ghost predicate TiersFollow(t: seq<seq<Vertex>>) {
    forall i, j :: 0 <= i && j == i + 1 && j < |t| ==> ChildrenOf(t[j], t[i]) && InReachOrder(t[j], t[i])
  }

  ghost predicate SortedIds(layer: seq<Vertex>) {
    forall i, j :: 0 <= i < j < |layer| ==> Leq(layer[i].id, layer[j].id)
  }

  lemma NothingInOrder()
    ensures TiersInOrder([])
  {}

  lemma {:induction false} TierBelow(layer: seq<Vertex>, r: nat, i: nat)
    requires i < r
    ensures Tiers(layer, r)[i] == NextTier(Tiers(layer, r)[i + 1])
    decreases r
  {
    hide NextTier;
    if i + 1 < r { TierBelow(NextTier(layer), r - 1, i); }
  }

  lemma TopIsSorted(top: seq<Vertex>)
    ensures SortedIds(SortBy(top, ById))
  {
    hide Leq;
    ByIdPreorder();
    SortBySorted(top, ById);
    var s := SortBy(top, ById);
    forall i, j | 0 <= i < j < |s| ensures Leq(s[i].id, s[j].id) { assert ById(s[i], s[j]); }
  }

  lemma TiersAreInOrder(top: seq<Vertex>, r: nat, g: Catalogue)
    requires Closed(g) && Layered(top, r, g)
    ensures TiersInOrder(Tiers(SortBy(top, ById), r))
  {
    hide Closed, Layered, TiersFollow, SortedIds;
    SortedLayer(top, r, g);
    TopIsSorted(top);
    TiersFollowDown(SortBy(top, ById), r, g);
  }

  lemma TiersFollowDown(layer: seq<Vertex>, r: nat, g: Catalogue)
    requires Closed(g) && Layered(layer, r, g)
    ensures TiersFollow(Tiers(layer, r))
  {
    hide Closed, Layered, NextTier, ChildrenOf, InReachOrder, Tiered;
    var t := Tiers(layer, r);
    TiersAreTiered(layer, r, g);
    forall i, j | 0 <= i && j == i + 1 && j < |t| ensures ChildrenOf(t[j], t[i]) && InReachOrder(t[j], t[i]) {
      TierBelow(layer, r, i);
      TierLayered(t, g, j);
      NextTierIs(t[j], j, g, t[i]);
    }
  }

  lemma TierLayered(t: seq<seq<Vertex>>, g: Catalogue, i: nat)
    requires Tiered(t, g) && i < |t|
    ensures Layered(t[i], i, g)
  {}

  // ---------- who stays ----------

  /** A switch below the top stays if and only if it is reached before every other one of its shape. */
  lemma StaysExactly(t: seq<seq<Vertex>>, i: nat, w: Vertex)
    requires TiersInOrder(t) && i + 1 < |t| && w in t[i]
    ensures Representative(t[i], w) == w <==> forall x :: x in t[i] && Unfold(x) == Unfold(w) && x != w ==> ReachedBefore(t[i + 1], w.id, x.id)
  {
    hide ChildrenOf, SortedIds, ReachedBefore, Unfold;
    var j := i + 1;
    assert InReachOrder(t[j], t[i]);
    EarliestStays(t[i], w);
    var a :| 0 <= a < |t[i]| && t[i][a] == Representative(t[i], w) && forall b :: 0 <= b < a ==> ShapeOf(t[i][b]) != ShapeOf(w);
    if Representative(t[i], w) == w {
      forall x | x in t[i] && Unfold(x) == Unfold(w) && x != w ensures ReachedBefore(t[j], w.id, x.id) {
        var b :| 0 <= b < |t[i]| && t[i][b] == x;
        assert a < b;
      }
    } else if forall x :: x in t[i] && Unfold(x) == Unfold(w) && x != w ==> ReachedBefore(t[j], w.id, x.id) {
      var b :| 0 <= b < |t[i]| && t[i][b] == w;
      ReachedOneWay(t[j], w.id, t[i][a].id);
    }
  }

  /** The representative is the earliest of its shape. */
  lemma EarliestStays(tier: seq<Vertex>, w: Vertex)
    requires w in tier
    ensures exists a :: 0 <= a < |tier| && tier[a] == Representative(tier, w) && forall b :: 0 <= b < a ==> ShapeOf(tier[b]) != ShapeOf(w)
    ensures ShapeOf(Representative(tier, w)) == ShapeOf(w) && Representative(tier, w) in tier
  {
    hide Unfold;
    FirstIsEarliest(tier, ShapeOf, w);
  }

  /** In the top tier the one with the smallest ID stays. */
  lemma TopStaysExactly(t: seq<seq<Vertex>>, g: Catalogue, w: Vertex)
    requires TiersInOrder(t) && Tiered(t, g) && t != [] && w in t[|t| - 1]
    ensures var top := t[|t| - 1];
            Representative(top, w) == w <==> forall x :: x in top && Unfold(x) == Unfold(w) ==> Leq(w.id, x.id)
  {
    hide TiersInOrder, Unfold, Leq, Tiered, Representative;
    var top := t[|t| - 1];
    var rep := Representative(top, w);
    assert SortedIds(top) by { TopInOrder(t); }
    EarliestStays(top, w);
    forall x | x in top && Unfold(x) == Unfold(w) ensures Leq(rep.id, x.id) { SmallestFirst(top, w, x); }
    if forall x :: x in top && Unfold(x) == Unfold(w) ==> Leq(w.id, x.id) {
      LeqAntisymmetric(w.id, rep.id);
      OneOfId(t, g, |t| - 1, w, rep);
    }
  }

  lemma TopInOrder(t: seq<seq<Vertex>>)
    requires TiersInOrder(t) && t != []
    ensures SortedIds(t[|t| - 1])
  {}

  lemma OneOfId(t: seq<seq<Vertex>>, g: Catalogue, i: nat, v: Vertex, w: Vertex)
    requires Tiered(t, g) && i < |t| && v in t[i] && w in t[i] && v.id == w.id
    ensures v == w
  {
    TierLayered(t, g, i);
  }

  /** In a tier sorted by ID, the representative has the smallest ID of its shape. */
  lemma SmallestFirst(tier: seq<Vertex>, w: Vertex, x: Vertex)
    requires SortedIds(tier) && w in tier && x in tier && Unfold(x) == Unfold(w)
    ensures Leq(Representative(tier, w).id, x.id)
  {
    hide Unfold, Leq, Representative;
    EarliestStays(tier, w);
    var a :| 0 <= a < |tier| && tier[a] == Representative(tier, w) && forall b :: 0 <= b < a ==> ShapeOf(tier[b]) != ShapeOf(w);
    var b :| 0 <= b < |tier| && tier[b] == x;
    if a == b { LeqReflexive(x.id); }
  }

  /** Of switches of one shape that are first reached from the same parent, the smaller ID is kept before the larger one. */
  lemma SmallerIdStays(t: seq<seq<Vertex>>, i: nat, a: nat, k: string, l: string)
    requires TiersInOrder(t) && i + 1 < |t| && FirstReached(t[i + 1], k, a) && FirstReached(t[i + 1], l, a)
    requires Unfold(t[i + 1][a].vertices[k]) == Unfold(t[i + 1][a].vertices[l]) && k != l && Leq(k, l)
    requires t[i + 1][a].vertices[k].id == k && t[i + 1][a].vertices[l].id == l
    ensures Representative(t[i], t[i + 1][a].vertices[l]) != t[i + 1][a].vertices[l]
  {
    hide Unfold, Leq, Representative, SortedIds, InReachOrder;
    var j := i + 1;
    var v := t[j][a];
    assert ChildrenOf(t[j], t[i]);
    assert v in t[j] && v.vertices[k] in t[i] && v.vertices[l] in t[i];
    StaysExactly(t, i, v.vertices[l]);
    ReachedOneWay(t[j], k, l);
  }

  // ---------- what is returned ----------

  lemma SameOrder(s: seq<Vertex>, t: seq<seq<Vertex>>, g: Catalogue, i: nat)
    ensures |Quotients(t, g, i, s)| == |s| && forall a :: 0 <= a < |s| ==> Quotients(t, g, i, s)[a].id == s[a].id
  {
    hide Quotient;
  }

  /** The merged top tier has the switches that stay, sorted by ID. */
  lemma MergedTopInOrder(top: seq<Vertex>, r: nat, g: Catalogue)
    requires Closed(g) && Layered(top, r, g) && r > 0
    ensures SortedIds(MergedTop(top, r, g))
    ensures forall w :: w in top ==>
              (w.id in Ids(MergedTop(top, r, g)) <==> forall x :: x in top && Unfold(x) == Unfold(w) ==> Leq(w.id, x.id))
  {
    hide Closed, Layered, Tiered, Quotients, Unfold, Leq, Distinct, Representative, TiersInOrder, SortBy;
    if top != [] {
      var t := Tiers(SortBy(top, ById), r);
      SortedLayer(top, r, g);
      TiersAreInOrder(top, r, g);
      SortByPermutes(top, ById);
      SameMembers(SortBy(top, ById), top);
      var s := Distinct(t[r], ShapeOf);
      SameOrder(s, t, g, r);
      TopIsSorted(top);
      KeptSorted(t[r]);
      forall w | w in top ensures w.id in Ids(MergedTop(top, r, g)) <==> forall x :: x in top && Unfold(x) == Unfold(w) ==> Leq(w.id, x.id) {
        TopStaysExactly(t, g, w);
        KeptWhich(t, g, r, w);
      }
    }
  }

  lemma KeptSorted(tier: seq<Vertex>)
    requires SortedIds(tier)
    ensures SortedIds(Distinct(tier, ShapeOf))
  {
    hide Leq, Distinct, Unfold;
    assert forall i, j :: 0 <= i < j < |tier| ==> ById(tier[i], tier[j]);
    DistinctSorted(tier, ShapeOf, ById);
    var s := Distinct(tier, ShapeOf);
    forall i, j | 0 <= i < j < |s| ensures Leq(s[i].id, s[j].id) { assert ById(s[i], s[j]); }
  }

  /** The IDs left in a merged tier are those of the vertices that represent themselves. */
  lemma KeptWhich(t: seq<seq<Vertex>>, g: Catalogue, i: nat, w: Vertex)
    requires Tiered(t, g) && 0 < i < |t| && w in t[i]
    ensures w.id in Ids(MergedTier(t, g, i)) <==> Representative(t[i], w) == w
  {
    hide Tiered, Quotients, Distinct, Unfold, First;
    var s := Distinct(t[i], ShapeOf);
    SameOrder(s, t, g, i);
    DistinctAreFirst(t[i], ShapeOf);
    TierLayered(t, g, i);
    var m := MergedTier(t, g, i);
    if w.id in Ids(m) {
      var q :| q in m && q.id == w.id;
      var a :| 0 <= a < |m| && m[a] == q;
      assert s[a] in s && s[a].id == w.id;
    }
    if w in s {
      var a :| 0 <= a < |s| && s[a] == w;
      assert m[a] in m;
    }
  }
}
