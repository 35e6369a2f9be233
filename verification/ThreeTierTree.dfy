/** The three-tier graph is a tree, and every requested instance has its place in it. */
module ThreeTierTree {
  import opened ThreeTierSpec
  import opened Topology
  import opened Trees

  // ---------- the levels of a record ----------

  /** The instance at level 0, the known switches at levels 1 to 3, and the root at level 4. */
  function IdAt(r: Record, l: nat): string {
    if l == 0 then r.instanceID else if l < 4 then SwitchAt(r, l - 1) else ""
  }

  predicate Known(r: Record, l: nat) {
    l == 0 || l == 4 || (l < 4 && IdAt(r, l) != "")
  }

  /** Level `m` is the next known level above `l`. */
  predicate NextKnown(r: Record, l: nat, m: nat) {
    l < m <= 4 && Known(r, l) && Known(r, m) && forall k :: l < k < m ==> !Known(r, k)
  }

  ghost predicate RecordLink(used: seq<Record>, p: string, c: string) {
    exists r, l: nat, m: nat :: r in used && NextKnown(r, l, m) && c == IdAt(r, l) && p == IdAt(r, m)
  }

  lemma {:induction false} TopLevel(r: Record, n: nat) returns (l: nat)
    requires n <= 3
    ensures l <= n && Known(r, l) && TopTo(r, n) == IdAt(r, l) && forall k :: l < k <= n ==> !Known(r, k)
  {
    if n == 0 || SwitchAt(r, n - 1) != "" {
      l := n;
    } else {
      l := TopLevel(r, n - 1);
    }
  }

  lemma {:induction false} TopToIs(r: Record, l: nat, n: nat)
    requires l <= n <= 3 && Known(r, l) && forall k :: l < k <= n ==> !Known(r, k)
    ensures TopTo(r, n) == IdAt(r, l)
  {
    if l < n {
      assert !Known(r, n);
      TopToIs(r, l, n - 1);
    }
  }

  lemma {:induction false} LinksUpTo(r: Record, n: nat, p: string, c: string)
    requires n <= 3
    ensures (p, c) in LinksTo(r, n) <==>
            exists l: nat, m: nat :: m <= n && NextKnown(r, l, m) && c == IdAt(r, l) && p == IdAt(r, m)
  {
    if n > 0 {
      LinksUpTo(r, n - 1, p, c);
      if SwitchAt(r, n - 1) != "" {
        var l := TopLevel(r, n - 1);
        assert NextKnown(r, l, n);
        forall k: nat | NextKnown(r, k, n) ensures k == l {}
      } else {
        assert !Known(r, n);
      }
    }
  }

  lemma {:induction false} LinksOfRecords(used: seq<Record>, p: string, c: string)
    ensures (p, c) in LinksOf(used) <==> exists r :: r in used && (p, c) in LinksTo(r, 3)
  {
    hide LinksTo;
    if used != [] {
      var front, last := used[..|used| - 1], used[|used| - 1];
      assert used == front + [last];
      LinksOfRecords(front, p, c);
      assert LinksOf(used) == LinksOf(front) + LinksTo(last, 3);
      if r :| r in front && (p, c) in LinksTo(r, 3) { assert r in used; }
      assert last in used;
    }
  }

  lemma TopsOfRecords(used: seq<Record>, c: string)
    ensures c in Tops(used) <==> exists r, l: nat :: r in used && NextKnown(r, l, 4) && c == IdAt(r, l)
  {
    hide TopTo;
    if c in Tops(used) {
      var r :| r in used && c == TopTo(r, 3);
      var l := TopLevel(r, 3);
      assert NextKnown(r, l, 4);
    }
    if r, l: nat :| r in used && NextKnown(r, l, 4) && c == IdAt(r, l) {
      TopToIs(r, l, 3);
    }
  }

  lemma RecordLinks(used: seq<Record>, p: string, c: string)
    ensures RecordLink(used, p, c) <==> (p, c) in LinksOf(used) || (p == "" && c in Tops(used))
  {
    hide LinksTo, LinksOf, NextKnown, IdAt, Tops;
    LinksOfRecords(used, p, c);
    TopsOfRecords(used, c);
    if RecordLink(used, p, c) {
      var r, l: nat, m: nat :| r in used && NextKnown(r, l, m) && c == IdAt(r, l) && p == IdAt(r, m);
      LinksUpTo(r, 3, p, c);
      LevelBound(r, l, m);
    }
    if (p, c) in LinksOf(used) {
      var r :| r in used && (p, c) in LinksTo(r, 3);
      LinksUpTo(r, 3, p, c);
    }
    RootLevel();
  }

  lemma LevelBound(r: Record, l: nat, m: nat)
    requires NextKnown(r, l, m)
    ensures l < m <= 4
  {}

  lemma RootLevel()
    ensures forall r :: IdAt(r, 4) == ""
  {}

  // ---------- tiers ----------

  lemma TierOfLevel(g: Graph, r: Record, l: nat)
    requires Buildable(g) && r in g.used && l <= 4 && Known(r, l)
    ensures Tier(g, IdAt(r, l)) == l
    ensures l > 0 ==> IdAt(r, l) !in g.names
    ensures l < 4 ==> IdAt(r, l) != ""
  {
    if 0 < l < 4 {
      var id, k := IdAt(r, l), l - 1;
      assert SwitchAt(r, k) == id;
      assert TierHas(g.used, k, id);
      forall i: nat | i < 3 && TierHas(g.used, i, id) ensures i == k {
        var s :| s in g.used && SwitchAt(s, i) == id;
        assert SwitchAt(r, k) == SwitchAt(s, i);
      }
    }
  }

  lemma MissingTiers(g: Graph)
    requires Buildable(g) && Missing(g) != {}
    ensures Tier(g, NO_TOPOLOGY) == 1 && forall x :: x in Missing(g) ==> Tier(g, x) == 0 && x != ""
  {
    forall i: nat | i < 3 ensures !TierHas(g.used, i, NO_TOPOLOGY) {}
  }

  /** A link goes one way: what is below has a lower tier. */
  lemma LinkDescends(g: Graph, p: string, c: string)
    requires Buildable(g) && Link(g, p, c)
    ensures Tier(g, c) < Tier(g, p) && c != "" && c in Below(g)
  {
    hide Buildable, Tier, LinksOf, Tops, Instances, NextKnown, IdAt;
    RecordLinks(g.used, p, c);
    if RecordLink(g.used, p, c) {
      var r, l: nat, m: nat :| r in g.used && NextKnown(r, l, m) && c == IdAt(r, l) && p == IdAt(r, m);
      LevelsKnown(r, l, m);
      TierOfLevel(g, r, l);
      TierOfLevel(g, r, m);
      assert c in Below(g) by { if (p, c) in LinksOf(g.used) { assert (p, c).1 == c; } }
    } else {
      MissingTiers(g);
      RootTier(g);
    }
  }

  lemma LevelsKnown(r: Record, l: nat, m: nat)
    requires NextKnown(r, l, m)
    ensures l < m <= 4 && Known(r, l) && Known(r, m)
  {}

  lemma RootTier(g: Graph)
    requires Buildable(g)
    ensures Tier(g, "") == 4
  {}

  lemma SameNext(r: Record, s: Record, l: nat, m: nat, n: nat)
    requires NextKnown(r, l, m) && NextKnown(s, l, n)
    requires forall k: nat :: l < k <= 4 ==> IdAt(r, k) == IdAt(s, k)
    ensures m == n && IdAt(r, m) == IdAt(s, n)
  {
    assert forall k: nat :: l < k <= 4 ==> Known(r, k) == Known(s, k);
  }

  lemma SameLevel(g: Graph, r: Record, s: Record, l: nat, k: nat)
    requires Buildable(g) && OneAbove(g.used) && r in g.used && s in g.used && l < 4 && k < 4 && Known(r, l) && Known(s, k) && IdAt(r, l) == IdAt(s, k)
    ensures l == k && forall j: nat :: l < j <= 4 ==> IdAt(r, j) == IdAt(s, j)
  {
    TierOfLevel(g, r, l);
    TierOfLevel(g, s, k);
    if l > 0 {
      assert SwitchAt(r, l - 1) == SwitchAt(s, k - 1);
      assert SameAbove(r, s, l - 1);
      forall j: nat | l < j <= 4 ensures IdAt(r, j) == IdAt(s, j) {
        if j < 4 { assert SwitchAt(r, j - 1) == SwitchAt(s, j - 1); }
      }
    }
  }

  lemma RecordParent(g: Graph, p: string, q: string, c: string)
    requires Buildable(g) && OneAbove(g.used) && RecordLink(g.used, p, c) && RecordLink(g.used, q, c)
    ensures p == q
  {
    hide Buildable, OneAbove, Known, NextKnown, IdAt;
    var r, l: nat, m: nat :| r in g.used && NextKnown(r, l, m) && c == IdAt(r, l) && p == IdAt(r, m);
    var s, k: nat, n: nat :| s in g.used && NextKnown(s, k, n) && c == IdAt(s, k) && q == IdAt(s, n);
    LevelsKnown(r, l, m);
    LevelsKnown(s, k, n);
    SameLevel(g, r, s, l, k);
    SameNext(r, s, l, m, n);
  }

  /** What a record links is neither without topology nor the place for what is. */
  lemma RecordChild(g: Graph, p: string, c: string)
    requires Buildable(g) && RecordLink(g.used, p, c)
    ensures c !in Missing(g) && (Missing(g) != {} ==> c != NO_TOPOLOGY && p != NO_TOPOLOGY)
  {
    hide NextKnown;
    var r, l: nat, m: nat :| r in g.used && NextKnown(r, l, m) && c == IdAt(r, l) && p == IdAt(r, m);
    LevelsKnown(r, l, m);
    TierOfLevel(g, r, l);
    assert r.instanceID in Instances(g.used);
    hide TiersApart, Instances, Missing;
    if l > 0 { assert SwitchAt(r, l - 1) == c; }
    if m < 4 { assert SwitchAt(r, m - 1) == p; }
  }

  lemma OneParentId(g: Graph, p: string, q: string, c: string)
    requires Buildable(g) && OneAbove(g.used) && Link(g, p, c) && Link(g, q, c)
    ensures p == q
  {
    hide TiersApart, OneAbove, RecordLink, LinksOf, Tops, Instances;
    RecordLinks(g.used, p, c);
    RecordLinks(g.used, q, c);
    if RecordLink(g.used, p, c) {
      RecordChild(g, p, c);
      if RecordLink(g.used, q, c) { RecordParent(g, p, q, c); }
    } else if RecordLink(g.used, q, c) {
      RecordChild(g, q, c);
    }
  }

  // ---------- the tree ----------

  ghost predicate Placed(g: Graph, v: Vertex) {
    v == At(g, v.id) && (v.id == "" || exists p :: Link(g, p, v.id))
  }

  lemma KidsAre(g: Graph, id: string, k: string)
    requires Buildable(g)
    ensures k in At(g, id).vertices <==> Link(g, id, k)
    ensures Link(g, id, k) ==> At(g, id).vertices[k] == At(g, k)
    ensures At(g, id).id == id && At(g, id).name == Label(g, id)
  {
    hide Buildable, Tier, Below, Link, Label;
    if Link(g, id, k) { LinkDescends(g, id, k); }
  }

  /** Every vertex of the tree is the one with its ID. */
  lemma {:induction false} SubsPlaced(g: Graph, u: Vertex, v: Vertex)
    requires Buildable(g) && Placed(g, u) && v in Subs(u)
    ensures Placed(g, v)
    decreases u
  {
    hide Buildable, Link, At;
    if v != u {
      var k :| k in u.vertices && v in Subs(u.vertices[k]);
      KidsAre(g, u.id, k);
      KidsAre(g, k, k);
      SubsPlaced(g, u.vertices[k], v);
    }
  }

  ghost function TreeOf(g: Graph): Vertex {
    At(g, "")
  }

  lemma RootPlaced(g: Graph)
    requires Buildable(g)
    ensures Placed(g, TreeOf(g)) && TreeOf(g).id == "" && TreeOf(g).name == ""
  {
    hide Link;
    KidsAre(g, "", "");
    NoName(g.used);
  }

  lemma {:induction false} NoName(used: seq<Record>)
    ensures NameOf(used, "") == ""
  {
    if used != [] { NoName(used[..|used| - 1]); }
  }

  lemma GraphWellFiled(g: Graph)
    requires Buildable(g)
    ensures WellFiled(TreeOf(g))
  {
    hide Buildable, Link, At, Subs, TreeOf;
    var t := TreeOf(g);
    RootPlaced(g);
    forall v | v in Subs(t) ensures Placed(g, v) { SubsPlaced(g, t, v); }
    forall v, k | v in Subs(t) && k in v.vertices ensures v.vertices[k].id == k {
      KidsAre(g, v.id, k);
      KidsAre(g, k, k);
    }
  }

  lemma RecordsGiveTree(g: Graph)
    requires Buildable(g) && OneAbove(g.used)
    ensures OneParent(TreeOf(g))
  {
    hide Buildable, OneAbove, Link, At, Subs, TreeOf;
    var t := TreeOf(g);
    RootPlaced(g);
    forall v | v in Subs(t) ensures Placed(g, v) { SubsPlaced(g, t, v); }
    forall v, k | v in Subs(t) && k in v.vertices ensures k != t.id {
      KidsAre(g, v.id, k);
      LinkDescends(g, v.id, k);
    }
    forall v, w, k | v in Subs(t) && w in Subs(t) && k in v.vertices && k in w.vertices ensures v == w {
      KidsAre(g, v.id, k);
      KidsAre(g, w.id, k);
      OneParentId(g, v.id, w.id, k);
    }
  }

  lemma NextAbove(r: Record, l: nat) returns (m: nat)
    requires l < 4
    ensures l < m <= 4 && Known(r, m) && forall k :: l < k < m ==> !Known(r, k)
  {
    m := l + 1;
    while !Known(r, m)
      invariant l < m <= 4 && forall k :: l < k < m ==> !Known(r, k)
      decreases 4 - m
    {
      m := m + 1;
    }
  }

  lemma LinkOfRecord(g: Graph, p: string, c: string)
    requires RecordLink(g.used, p, c)
    ensures Link(g, p, c)
  {
    hide RecordLink;
    RecordLinks(g.used, p, c);
  }

  lemma LevelLink(g: Graph, r: Record, l: nat) returns (m: nat)
    requires r in g.used && l < 4 && Known(r, l)
    ensures NextKnown(r, l, m) && Link(g, IdAt(r, m), IdAt(r, l))
  {
    hide Link;
    m := NextAbove(r, l);
    assert NextKnown(r, l, m);
    assert RecordLink(g.used, IdAt(r, m), IdAt(r, l));
    LinkOfRecord(g, IdAt(r, m), IdAt(r, l));
  }

  lemma {:induction false} LevelReached(g: Graph, r: Record, l: nat)
    requires Buildable(g) && r in g.used && l <= 4 && Known(r, l)
    ensures At(g, IdAt(r, l)) in Subs(TreeOf(g))
    decreases 4 - l
  {
    hide Buildable, At, Subs, Link, LinksOf, Tops;
    if l == 4 {
      SubsSelf(TreeOf(g));
    } else {
      var m := LevelLink(g, r, l);
      LevelReached(g, r, m);
      KidsAre(g, IdAt(r, m), IdAt(r, l));
      SubsChild(TreeOf(g), At(g, IdAt(r, m)), IdAt(r, l));
    }
  }

  /** In a tree, two records that share a switch agree on everything above it. */
  lemma {:induction false} SameUp(g: Graph, r: Record, s: Record, l: nat)
    requires Buildable(g) && OneParent(TreeOf(g)) && r in g.used && s in g.used
    requires 0 < l < 4 && Known(r, l) && IdAt(r, l) == IdAt(s, l)
    ensures forall k: nat :: l < k <= 4 ==> IdAt(r, k) == IdAt(s, k)
    decreases 4 - l
  {
    hide Buildable, OneParent, Link, At, Subs, TreeOf;
    var m := LevelLink(g, r, l);
    var n := LevelLink(g, s, l);
    SameParents(g, IdAt(r, m), IdAt(s, n), IdAt(r, l)) by {
      LevelReached(g, r, m);
      LevelReached(g, s, n);
    }
    TierOfLevel(g, r, m);
    TierOfLevel(g, s, n);
    if m < 4 { SameUp(g, r, s, m); }
    forall k: nat | l < k <= 4 ensures IdAt(r, k) == IdAt(s, k) {
      if k < m { assert !Known(r, k) && !Known(s, k); }
    }
  }

  lemma SameParents(g: Graph, p: string, q: string, c: string)
    requires Buildable(g) && OneParent(TreeOf(g)) && Link(g, p, c) && Link(g, q, c)
    requires At(g, p) in Subs(TreeOf(g)) && At(g, q) in Subs(TreeOf(g))
    ensures p == q
  {
    hide Buildable, Link, At, Subs, TreeOf;
    KidsAre(g, p, c);
    KidsAre(g, q, c);
  }

  /** The graph built from the records is a tree if and only if every switch has one set of switches above it. */
  lemma GraphIsTree(g: Graph)
    requires Buildable(g)
    ensures IsTree(TreeOf(g)) <==> OneAbove(g.used)
  {
    hide Buildable, At, Subs, TreeOf, WellFiled, OneParent;
    GraphWellFiled(g);
    if OneAbove(g.used) { RecordsGiveTree(g); }
    if OneParent(TreeOf(g)) {
      forall r, s, i: nat | r in g.used && s in g.used && i < 3 && SwitchAt(r, i) == SwitchAt(s, i) && SwitchAt(r, i) != ""
        ensures SameAbove(r, s, i)
      {
        SameUp(g, r, s, i + 1);
        forall k: nat | i < k < 3 ensures SwitchAt(r, k) == SwitchAt(s, k) {
          assert IdAt(r, k + 1) == IdAt(s, k + 1);
        }
      }
    }
  }

  const UNDER_S1 := Record("i-1", "b", "", "s1", "", "", "", "")
  const UNDER_S2 := Record("i-2", "b", "", "s2", "", "", "", "")

  lemma BothUsed()
    ensures Used([UNDER_S1, UNDER_S2], {"i-1", "i-2"}) == [UNDER_S1, UNDER_S2]
  {
    var ids := {"i-1", "i-2"};
    assert [UNDER_S1, UNDER_S2][..1] == [UNDER_S1] && [UNDER_S1][..0] == [];
    assert Used([UNDER_S1], ids) == [UNDER_S1];
    assert Instances([UNDER_S1]) == {"i-1"};
  }

  lemma BothBuildable(g: Graph)
    requires g == Graph([UNDER_S1, UNDER_S2], map["i-1" := "n1", "i-2" := "n2"])
    ensures Buildable(g) && !OneAbove(g.used)
  {
    assert UNDER_S1 in g.used && UNDER_S2 in g.used;
    assert Instances(g.used) == {"i-1", "i-2"};
    assert SwitchAt(UNDER_S1, 0) == SwitchAt(UNDER_S2, 0) && SwitchAt(UNDER_S1, 1) != SwitchAt(UNDER_S2, 1);
    assert !SameAbove(UNDER_S1, UNDER_S2, 0);
  }

  /** Records that put one block below two spines are accepted, and what is built from them is no tree. */
  lemma TwoSpinesNoTree()
    ensures var records, names := [UNDER_S1, UNDER_S2], map["i-1" := "n1", "i-2" := "n2"];
            var g := Graph(Used(records, names.Keys), names);
            Buildable(g) && !IsTree(TreeOf(g))
  {
    hide TreeOf, IsTree, Used, Buildable, OneAbove;
    var names := map["i-1" := "n1", "i-2" := "n2"];
    var g := Graph([UNDER_S1, UNDER_S2], names);
    assert names.Keys == {"i-1", "i-2"};
    BothUsed();
    BothBuildable(g);
    GraphIsTree(g);
  }

  /** What can be linked below something but has nothing below itself is an instance. */
  lemma SwitchHasKids(g: Graph, p: string, c: string)
    requires Buildable(g) && Link(g, p, c) && c !in g.names
    ensures exists k :: Link(g, c, k)
  {
    hide TiersApart, LinksOf, Tops, NextKnown;
    RecordLinks(g.used, p, c);
    if RecordLink(g.used, p, c) {
      var r, l: nat, m: nat :| r in g.used && NextKnown(r, l, m) && c == IdAt(r, l) && p == IdAt(r, m);
      LevelsKnown(r, l, m);
      assert r.instanceID in g.names && l != 0;
      var k := TopLevel(r, l - 1);
      StepBelow(r, k, l);
      assert NextKnown(r, k, l) && IdAt(r, l) == c;
      assert RecordLink(g.used, c, IdAt(r, k));
      RecordLinks(g.used, c, IdAt(r, k));
      assert Link(g, c, IdAt(r, k));
    } else {
      var x :| x in Missing(g);
      assert Link(g, c, x);
    }
  }

  lemma StepBelow(r: Record, k: nat, l: nat)
    requires k < l <= 4 && Known(r, k) && Known(r, l) && forall j :: k < j < l ==> !Known(r, j)
    ensures NextKnown(r, k, l)
  {}

  lemma GraphLeaves(g: Graph)
    requires Buildable(g)
    ensures forall v :: v in Subs(TreeOf(g)) && IsNode(v) && v != TreeOf(g) ==>
              v.id in g.names && v.name == g.names[v.id] && v == At(g, v.id)
  {
    hide Link, At, Subs, TreeOf, TiersApart;
    var t := TreeOf(g);
    RootPlaced(g);
    forall v | v in Subs(t) && IsNode(v) && v != t ensures v.id in g.names && v.name == g.names[v.id] && v == At(g, v.id) {
      SubsPlaced(g, t, v);
      KidsAre(g, v.id, "");
      TreeIsAt(g);
      if v.id != "" && v.id !in g.names {
        var p :| Link(g, p, v.id);
        SwitchHasKids(g, p, v.id);
        var k :| Link(g, v.id, k);
        KidsAre(g, v.id, k);
      }
    }
  }

  lemma GraphNames(g: Graph)
    requires Buildable(g) && NamesApart(g.names)
    ensures NamesDiffer(TreeOf(g))
    ensures forall v :: v in Subs(TreeOf(g)) && IsNode(v) && v != TreeOf(g) ==> v.id in g.names && v.name == g.names[v.id]
  {
    hide Buildable, Link, At, Subs, TreeOf;
    var t := TreeOf(g);
    GraphLeaves(g);
    forall v, w | v in Subs(t) && w in Subs(t) && IsNode(v) && IsNode(w) && v.name == w.name ensures v == w {
      if v == t && w != t { OnlyRoot(t, w); }
      if w == t && v != t { OnlyRoot(t, v); }
    }
  }

  lemma TreeIsAt(g: Graph)
    ensures TreeOf(g) == At(g, "")
  {}

  /** A tree whose root is a leaf has nothing else in it. */
  lemma OnlyRoot(t: Vertex, v: Vertex)
    requires IsNode(t) && v in Subs(t)
    ensures v == t
  {}
}
