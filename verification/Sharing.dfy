/**
 From merged InfiniBand switches to the printed tree: when what `pkg/ib/ib.go` returns is printed vertex by vertex,
 each once. `pkg/providers/infiniband/common.go` passes the merged top tier through another merger, which only sorts it
 into tiers, and puts what comes out below a nameless root.
 */
module Sharing {
  import opened Arrivals
  import opened IbPipeline
  import opened IbSpec
  import opened MergerSpec
  import opened MergerTheorems
  import opened Ordering
  import opened PartitionSpec
  import opened PartitionUnit
  import opened Topology
  import opened Trees

  import Ib
  import Merger

  /** The root filed over a tier. */
  ghost predicate RootOver(root: Vertex, top: seq<Vertex>) {
    && root.id == "" && root.name == ""
    && (forall v :: v in top ==> v.id in root.vertices && root.vertices[v.id] == v)
    && (forall k :: k in root.vertices ==> root.vertices[k] in top && root.vertices[k].id == k)
  }

  method RootAbove(top: seq<Vertex>, ghost g: Catalogue) returns (root: Vertex)
    requires forall v :: v in top ==> Holds(g, v)
    ensures RootOver(root, top)
  {
    var vertices: map<string, Vertex> := map[];
    for i := 0 to |top|
      invariant forall v :: v in top[..i] ==> v.id in vertices && vertices[v.id] == v
      invariant forall k :: k in vertices ==> vertices[k] in top[..i] && vertices[k].id == k
    {
      assert top[..i + 1] == top[..i] + [top[i]];
      assert top[i] in top && forall v :: v in top[..i] ==> v in top;
      vertices := vertices[top[i].id := top[i]];
    }
    assert top[..|top|] == top;
    root := Vertex("", "", vertices);
  }

  /** What is made of the roots of one fabric: filed by ID, listed, sorted by a merger that does not merge, and put below a root. */
  method IbTree(ibRoots: seq<Vertex>, ghost d: nat, ghost g: Catalogue) returns (treeRoot: Vertex)
    requires Closed(g) && Layered(ibRoots, d, g)
    ensures RootOver(treeRoot, ibRoots)
  {
    hide Closed, Ranked;
    var rootMap: map<string, Vertex> := map[];
    for i := 0 to |ibRoots|
      invariant forall v :: v in ibRoots[..i] ==> v.id in rootMap && rootMap[v.id] == v
      invariant forall k :: k in rootMap ==> rootMap[k] in ibRoots[..i] && rootMap[k].id == k
    {
      assert ibRoots[..i + 1] == ibRoots[..i] + [ibRoots[i]];
      assert ibRoots[i] in ibRoots && forall v :: v in ibRoots[..i] ==> v in ibRoots;
      rootMap := rootMap[ibRoots[i].id := ibRoots[i]];
    }
    assert ibRoots[..|ibRoots|] == ibRoots;
    var roots := ListRoots(rootMap);
    assert forall v :: v in roots <==> v in ibRoots;
    var merger := new Merger.Merger(roots, d, g);
    var top := merger.TopTier();
    SortByPermutes(roots, ById);
    SameMembers(SortBy(roots, ById), roots);
    assert forall v :: v in top <==> v in ibRoots;
    treeRoot := RootAbove(top, g);
  }

  lemma {:induction false} HeldBelow(g: Catalogue, v: Vertex, w: Vertex)
    requires Closed(g) && Holds(g, v) && w in Subs(v)
    ensures Holds(g, w)
    decreases v
  {
    hide Holds;
    if w != v {
      var k :| k in v.vertices && w in Subs(v.vertices[k]);
      HeldBelow(g, v.vertices[k], w);
    }
  }

  /** Everything below the root belongs to the graph. */
  lemma BelowRoot(g: Catalogue, top: seq<Vertex>, root: Vertex, v: Vertex)
    requires Closed(g) && (forall u :: u in top ==> Holds(g, u)) && RootOver(root, top) && v in Subs(root)
    ensures v == root || Holds(g, v)
  {
    hide Holds, Closed;
    if v != root {
      var k :| k in root.vertices && v in Subs(root.vertices[k]);
      HeldBelow(g, root.vertices[k], v);
    }
  }

  lemma RootedWellFiled(g: Catalogue, top: seq<Vertex>, root: Vertex)
    requires Closed(g) && (forall v :: v in top ==> Holds(g, v)) && "" !in g && RootOver(root, top)
    ensures WellFiled(root)
  {
    hide Subs, Closed;
    forall v | v in Subs(root) ensures v == root || Holds(g, v) { BelowRoot(g, top, root, v); }
    forall v, k | v in Subs(root) && k in v.vertices ensures v.vertices[k].id == k {
      if v != root { ChildHeld(g, v, k); }
    }
  }

  lemma ChildHeld(g: Catalogue, v: Vertex, k: string)
    requires Closed(g) && Holds(g, v) && k in v.vertices
    ensures v.vertices[k].id == k
  {}

  // ---------- the merged fabric ----------

  lemma FabricIds(f: Fabric, d: nat)
    requires "" !in f.links && "" !in AllHosts(f)
    ensures "" !in FabricGraph(f, d)
  {
    hide Level;
    UpToPlaced(f, d);
  }

  lemma {:induction false} UpToPlaced(f: Fabric, k: nat)
    ensures UpTo(f, k) <= f.links.Keys
  {
    hide Level, UpTo;
    if k == 0 {
      LevelStep(f, 0);
    } else {
      UpToPlaced(f, k - 1);
      LevelStep(f, k - 1);
      LevelStep(f, k);
    }
  }

  /** The catalogue of the merged fabric. */
  ghost function MergedFabric(f: Fabric, d: nat, roots: seq<Vertex>): Catalogue {
    MergedGraph(Tiers(SortBy(roots, ById), d + 1), FabricGraph(f, d))
  }

  lemma MergedFabricHolds(f: Fabric, d: nat, roots: seq<Vertex>)
    requires HostsApart(f) && ListsRoots(roots, Ib.LevelMap(f, d)) && "" !in f.links && "" !in AllHosts(f)
    ensures var m := MergedFabric(f, d, roots);
            && Closed(m) && "" !in m
            && forall v :: v in MergedTop(roots, d + 1, FabricGraph(f, d)) ==> Holds(m, v)
  {
    hide Level, HostsApart, ListsRoots, FabricGraph, Tiered, Closed, MergedTier, Ranked, SortBy, Tiers;
    var g := FabricGraph(f, d);
    FabricIsLayered(f, d, roots);
    FabricIds(f, d);
    SortedLayer(roots, d + 1, g);
    var t := Tiers(SortBy(roots, ById), d + 1);
    MergedGraphClosed(t, g);
    MergedTopLayered(t, g, d + 1);
  }

  /** What the pipeline returns, put below a root, is loaded and printed with every vertex visited exactly once
      if and only if no two merged switches share a child. */
  lemma FabricPrintedOnce(f: Fabric, d: nat, roots: seq<Vertex>, root: Vertex)
    requires HostsApart(f) && ListsRoots(roots, Ib.LevelMap(f, d)) && "" !in f.links && "" !in AllHosts(f)
    requires RootOver(root, MergedTop(roots, d + 1, FabricGraph(f, d)))
    ensures WellFiled(root)
    ensures (forall v :: v in Subs(root) ==> Paths(root, v) == 1) <==> OneParent(root)
    ensures (forall v :: v in Subs(root) ==> Writings(root, v) == 1) <==> OneParent(root)
  {
    hide Level, HostsApart, ListsRoots, FabricGraph, MergedTop, MergedFabric, Closed, Subs, OneParent, Paths, Writings, RootOver, WellFiled;
    MergedFabricHolds(f, d, roots);
    RootedWellFiled(MergedFabric(f, d, roots), MergedTop(roots, d + 1, FabricGraph(f, d)), root);
    LoadedOnce(root);
    WrittenOnce(root);
  }

  /** From the switches of one fabric to the tree that is handed to the translation. */
  method FabricTree(switches: map<string, Ib.Switch>, hca: map<string, string>, cluster: set<string>)
    returns (treeRoot: Vertex, ghost depth: nat, ghost roots: seq<Vertex>)
    requires Ib.FiledById(switches)
    requires var f := Ib.FabricOf(switches, hca, cluster); HostsApart(f) && "" !in f.links && "" !in AllHosts(f)
    modifies switches.Values
    ensures var f := old(Ib.FabricOf(switches, hca, cluster));
            && Ib.LastLevel(f, depth, Ib.LevelMap(f, depth)) && ListsRoots(roots, Ib.LevelMap(f, depth))
            && RootOver(treeRoot, MergedTop(roots, depth + 1, FabricGraph(f, depth))) && WellFiled(treeRoot)
  {
    hide Ib.LastLevel, ListsRoots, RootOver, MergedTop, FabricGraph, WellFiled, HostsApart, Closed, MergedFabric, Ib.FabricOf, Ib.LevelMap, AllHosts;
    ghost var f := Ib.FabricOf(switches, hca, cluster);
    var top;
    top, depth, roots := GenerateTopology(switches, hca, cluster);
    MergedFabricLayered(f, depth, roots);
    MergedFabricHolds(f, depth, roots);
    treeRoot := IbTree(top, depth + 1, MergedFabric(f, depth, roots));
    RootedWellFiled(MergedFabric(f, depth, roots), top, treeRoot);
  }

  lemma MergedFabricLayered(f: Fabric, d: nat, roots: seq<Vertex>)
    requires HostsApart(f) && ListsRoots(roots, Ib.LevelMap(f, d))
    ensures Layered(MergedTop(roots, d + 1, FabricGraph(f, d)), d + 1, MergedFabric(f, d, roots))
  {
    hide Level, HostsApart, ListsRoots, FabricGraph, Tiered, Closed, MergedTier, Ranked, SortBy, Tiers, MergedGraph;
    var g := FabricGraph(f, d);
    FabricIsLayered(f, d, roots);
    SortedLayer(roots, d + 1, g);
    MergedTopLayered(Tiers(SortBy(roots, ById), d + 1), g, d + 1);
  }

  // ---------- two spines that share a leaf switch ----------

  function LeafOver(id: string, n: string): Vertex {
    Vertex("", id, map[n := NodeVertex(n)])
  }

  function SpineOver(id: string, a: Vertex, b: Vertex): Vertex {
    Vertex("", id, map[a.id := a, b.id := b])
  }

  const L1 := LeafOver("L1", "n1")
  const L2 := LeafOver("L2", "n2")
  const L3 := LeafOver("L3", "n3")
  const S1 := SpineOver("S1", L1, L2)
  const S2 := SpineOver("S2", L2, L3)
  const SPINES := [S1, S2]

  ghost function SpineGraph(): Catalogue {
    map["n1" := NodeVertex("n1"), "n2" := NodeVertex("n2"), "n3" := NodeVertex("n3"),
        "L1" := L1, "L2" := L2, "L3" := L3, "S1" := S1, "S2" := S2]
  }

  lemma LeafFacts(id: string, n: string)
    ensures Ranked(LeafOver(id, n), 1) && Leaves(LeafOver(id, n)) == {n}
  {
    var v := LeafOver(id, n);
    assert n in v.vertices && Ranked(v.vertices[n], 0);
    assert Leaves(NodeVertex(n)) == {n};
  }

  lemma SpineFacts(id: string, a: Vertex, b: Vertex)
    requires a.id != b.id && Ranked(a, 1) && Ranked(b, 1)
    ensures Ranked(SpineOver(id, a, b), 2) && Leaves(SpineOver(id, a, b)) == Leaves(a) + Leaves(b)
  {
    var v := SpineOver(id, a, b);
    assert a.id in v.vertices && b.id in v.vertices;
    hide Leaves;
    SpineLeaves(v, a, b);
  }

  lemma SpineLeaves(v: Vertex, a: Vertex, b: Vertex)
    requires a.id != b.id && v.vertices == map[a.id := a, b.id := b]
    ensures Leaves(v) == Leaves(a) + Leaves(b)
  {
    assert v.vertices[a.id] == a && v.vertices[b.id] == b;
  }

  /** The rank and the compute nodes of every vertex of the example. */
  lemma SpineRanks()
    ensures Ranked(L1, 1) && Ranked(L2, 1) && Ranked(L3, 1) && Ranked(S1, 2) && Ranked(S2, 2)
    ensures Leaves(L1) == {"n1"} && Leaves(L2) == {"n2"} && Leaves(L3) == {"n3"}
    ensures Leaves(S1) == {"n1", "n2"} && Leaves(S2) == {"n2", "n3"}
  {
    hide Ranked, Leaves;
    LeafFacts("L1", "n1");
    LeafFacts("L2", "n2");
    LeafFacts("L3", "n3");
    SpineFacts("S1", L1, L2);
    SpineFacts("S2", L2, L3);
  }

  lemma SpineMembers(v: Vertex)
    requires Holds(SpineGraph(), v)
    ensures v in {S1, S2} || v in {L1, L2, L3} || (v.id in {"n1", "n2", "n3"} && v == NodeVertex(v.id))
  {}

  lemma SpineChildren(v: Vertex, k: string)
    requires Holds(SpineGraph(), v) && k in v.vertices
    ensures v.vertices[k].id == k && v.vertices[k] in {L1, L2, L3, NodeVertex("n1"), NodeVertex("n2"), NodeVertex("n3")}
  {
    SpineMembers(v);
    hide SpineGraph;
  }

  lemma SpinesHeld(v: Vertex)
    requires v in {S1, S2, L1, L2, L3, NodeVertex("n1"), NodeVertex("n2"), NodeVertex("n3")}
    ensures Holds(SpineGraph(), v)
  {}

  lemma SpinesLayered()
    ensures Closed(SpineGraph()) && Layered(SPINES, 2, SpineGraph())
  {
    hide Ranked, Leaves, SpineGraph, Holds;
    SpineRanks();
    forall v, k | Holds(SpineGraph(), v) && k in v.vertices
      ensures v.vertices[k].id == k && Holds(SpineGraph(), v.vertices[k])
    {
      SpineChildren(v, k);
      SpinesHeld(v.vertices[k]);
    }
    forall v | v in SPINES ensures Ranked(v, 2) && Holds(SpineGraph(), v) { SpinesHeld(v); }
  }

  lemma SameShapeSameLeaves(v: Vertex, w: Vertex)
    requires Unfold(v) == Unfold(w)
    ensures Leaves(v) == Leaves(w)
  {
    LeavesOfUnfolding(v);
    LeavesOfUnfolding(w);
  }

  /** No two vertices of the example can be merged. */
  lemma SpinesDiscerned()
    ensures Discerning(SpineGraph())
  {
    hide Ranked, Leaves, Unfold;
    SpineRanks();
    var g := SpineGraph();
    forall c, d, j: nat | Holds(g, c) && Holds(g, d) && Ranked(c, j) && Ranked(d, j) && Unfold(c) == Unfold(d) ensures c == d {
      SameShapeSameLeaves(c, d);
      RankOf(c, j);
      RankOf(d, j);
    }
  }

  lemma RankOf(c: Vertex, j: nat)
    requires Holds(SpineGraph(), c) && Ranked(c, j)
    ensures j == if c in {S1, S2} then 2 else if c in {L1, L2, L3} then 1 else 0
    ensures c !in {S1, S2, L1, L2, L3} ==> Leaves(c) == {c.id}
  {
    hide Ranked, Leaves, SpineGraph;
    SpineRanks();
    SpineMembers(c);
    if c in {S1, S2} {
      RankUnique(c, j, 2);
    } else if c in {L1, L2, L3} {
      RankUnique(c, j, 1);
    } else {
      NodeFacts(c.id);
      RankUnique(c, j, 0);
    }
  }

  lemma NodeFacts(n: string)
    ensures Ranked(NodeVertex(n), 0) && Leaves(NodeVertex(n)) == {n}
  {}

  /** The merger accepts the spines and leaves both as they are. */
  lemma SpinesStay()
    ensures MergedTop(SPINES, 2, SpineGraph()) == SPINES
  {
    hide Ranked, Leaves, Unfold, Discerning, Closed, Tiered, MergedTier, Layered, ShapeOf, SpineGraph, S1, S2;
    var g := SpineGraph();
    SpinesLayered();
    SpinesDiscerned();
    SpinesInOrder();
    AlreadySorted(SPINES, 2, g);
    TiersAreTiered(SPINES, 2, g);
    ShapesDiffer();
    assert ShapeOf(SPINES[0]) != ShapeOf(SPINES[1]);
    NothingToMergeInTier(Tiers(SPINES, 2), g, 2);
  }

  lemma ShapesDiffer()
    ensures ShapeOf(S1) != ShapeOf(S2)
  {
    hide Unfold, Leaves;
    SpineRanks();
    if ShapeOf(S1) == ShapeOf(S2) { SameShapeSameLeaves(S1, S2); }
  }

  lemma SpinesInOrder()
    ensures SortedBy(SPINES, ById)
  {
    assert Leq("S1", "S2");
  }

  /** A fabric with these links and nodes: two spine switches over three leaf switches. */
  const SPINE_FABRIC := Fabric(
    map["L1" := {"S1"}, "L2" := {"S1", "S2"}, "L3" := {"S2"}, "S1" := {"L1", "L2"}, "S2" := {"L2", "L3"}],
    map["L1" := {"n1"}, "L2" := {"n2"}, "L3" := {"n3"}, "S1" := {}, "S2" := {}])

  lemma SpineLevels()
    ensures Level(SPINE_FABRIC, 0) == {"L1", "L2", "L3"} && UpTo(SPINE_FABRIC, 0) == {"L1", "L2", "L3"}
    ensures Level(SPINE_FABRIC, 1) == {"S1", "S2"} && UpTo(SPINE_FABRIC, 1) == {"L1", "L2", "L3", "S1", "S2"}
    ensures Level(SPINE_FABRIC, 2) == {}
  {
    var f := SPINE_FABRIC;
    assert Level(f, 0) == {"L1", "L2", "L3"};
    assert f.links["S1"] * Level(f, 0) == {"L1", "L2"} && f.links["S2"] * Level(f, 0) == {"L2", "L3"};
    assert Level(f, 1) == {"S1", "S2"};
    assert f.links.Keys == {"L1", "L2", "L3", "S1", "S2"};
  }

  lemma SpineLeafVertices()
    ensures VertexAt(SPINE_FABRIC, 0, "L1") == L1 && VertexAt(SPINE_FABRIC, 0, "L2") == L2 && VertexAt(SPINE_FABRIC, 0, "L3") == L3
  {
    hide Level, VertexAt;
    SpineLevels();
    LeafAt(SPINE_FABRIC, "L1");
    LeafAt(SPINE_FABRIC, "L2");
    LeafAt(SPINE_FABRIC, "L3");
    assert (map n | n in {"n1"} :: NodeVertex(n)) == map["n1" := NodeVertex("n1")];
    assert (map n | n in {"n2"} :: NodeVertex(n)) == map["n2" := NodeVertex("n2")];
    assert (map n | n in {"n3"} :: NodeVertex(n)) == map["n3" := NodeVertex("n3")];
  }

  lemma SpineTopVertices()
    ensures VertexAt(SPINE_FABRIC, 1, "S1") == S1 && VertexAt(SPINE_FABRIC, 1, "S2") == S2
  {
    hide Level, UpTo, VertexAt, L1, L2, L3;
    SpineLevels();
    SpineLeafVertices();
    LeafIdsAre();
    SpineVertexAt(SPINE_FABRIC, "S1", L1, L2);
    SpineVertexAt(SPINE_FABRIC, "S2", L2, L3);
  }

  lemma LeafIdsAre()
    ensures L1.id == "L1" && L2.id == "L2" && L3.id == "L3"
  {}

  lemma SpineVertexAt(f: Fabric, s: string, a: Vertex, b: Vertex)
    requires s in f.links && s !in UpTo(f, 0) && f.links[s] == {a.id, b.id} && a.id != b.id && {a.id, b.id} <= Level(f, 0)
    requires VertexAt(f, 0, a.id) == a && VertexAt(f, 0, b.id) == b
    ensures VertexAt(f, 1, s) == SpineOver(s, a, b)
  {
    hide Level, UpTo, VertexAt;
    UpperAt(f, 0, s);
    assert (map c | c in f.links[s] && c in Level(f, 0) :: VertexAt(f, 0, c)) == map[a.id := a, b.id := b];
  }

  lemma SpineSwitches()
    ensures (map s | s in UpTo(SPINE_FABRIC, 1) :: VertexAt(SPINE_FABRIC, LevelOf(SPINE_FABRIC, s), s))
            == map["L1" := L1, "L2" := L2, "L3" := L3, "S1" := S1, "S2" := S2]
  {
    hide Level, UpTo, VertexAt, LevelOf;
    SpineLevels();
    SpineLeafVertices();
    SpineTopVertices();
    var f := SPINE_FABRIC;
    forall s | s in {"L1", "L2", "L3"} ensures LevelOf(f, s) == 0 { LevelOfIs(f, 0, s); }
    forall s | s in {"S1", "S2"} ensures LevelOf(f, s) == 1 { LevelOfIs(f, 1, s); }
  }

  lemma SpineNodes()
    ensures AllHosts(SPINE_FABRIC) == {"n1", "n2", "n3"} && HostsApart(SPINE_FABRIC)
    ensures (map n | n in AllHosts(SPINE_FABRIC) :: NodeVertex(n)) ==
            map["n1" := NodeVertex("n1"), "n2" := NodeVertex("n2"), "n3" := NodeVertex("n3")]
  {
    SpineHosts();
    hide AllHosts, HostsApart, NodeVertex;
  }

  lemma SpineHosts()
    ensures AllHosts(SPINE_FABRIC) == {"n1", "n2", "n3"} && HostsApart(SPINE_FABRIC)
  {
    var f := SPINE_FABRIC;
    assert "n1" in f.hosts["L1"] && "n2" in f.hosts["L2"] && "n3" in f.hosts["L3"];
  }

  lemma SpineCatalogue()
    ensures FabricGraph(SPINE_FABRIC, 1) == SpineGraph() && HostsApart(SPINE_FABRIC)
  {
    hide UpTo, VertexAt, LevelOf, AllHosts, HostsApart, SpineGraph, NodeVertex, L1, L2, L3, S1, S2;
    SpineSwitches();
    SpineNodes();
    SpineGraphParts();
  }

  lemma SpineGraphParts()
    ensures SpineGraph() == map["L1" := L1, "L2" := L2, "L3" := L3, "S1" := S1, "S2" := S2]
                            + map["n1" := NodeVertex("n1"), "n2" := NodeVertex("n2"), "n3" := NodeVertex("n3")]
  {
    hide L1, L2, L3, S1, S2, NodeVertex;
  }

  /** The fabric leads to the spines: they are its last level, and merging leaves them as they are. */
  lemma SpinesFromFabric()
    ensures Ib.LastLevel(SPINE_FABRIC, 1, Ib.LevelMap(SPINE_FABRIC, 1)) && ListsRoots(SPINES, Ib.LevelMap(SPINE_FABRIC, 1))
    ensures HostsApart(SPINE_FABRIC) && MergedTop(SPINES, 2, FabricGraph(SPINE_FABRIC, 1)) == SPINES
  {
    hide Level, UpTo, VertexAt, MergedTop, FabricGraph;
    SpineLevels();
    SpineTopVertices();
    SpineCatalogue();
    SpinesStay();
    var level := Ib.LevelMap(SPINE_FABRIC, 1);
    assert level == map["S1" := S1, "S2" := S2];
    assert level["S1"] == S1 && level["S2"] == S2;
    assert forall v :: v in level.Values <==> v == S1 || v == S2;
    assert S1.id != S2.id;
  }

  /** Below their root the leaf switch has two parents, so it is loaded and written more than once. */
  lemma SharedLeafRepeated(root: Vertex)
    requires RootOver(root, MergedTop(SPINES, 2, SpineGraph()))
    ensures L2 in Subs(root) && Paths(root, L2) >= 2 && Writings(root, L2) >= 2 && !OneParent(root)
  {
    hide Subs, Paths, Writings, MergedTop;
    SpinesStay();
    assert S1 in SPINES && S2 in SPINES;
    SubsSelf(root);
    SubsChild(root, root, "S1");
    SubsChild(root, root, "S2");
    SubsChild(root, S1, "L2");
    SharedIsRepeated(root, S1, S2, L2);
    assert "L2" in S1.vertices && "L2" in S2.vertices && S1 != S2;
  }

  /** A partition that asks for the node below the shared leaf switch has that switch twice or more. */
  lemma SharedLeafEmittedTwice(root: Vertex, out: seq<SwitchOut>)
    requires RootOver(root, MergedTop(SPINES, 2, SpineGraph())) && WellFiled(root) && GraphEmitted(root, {"n2"}, {"n2"}, out)
    ensures TimesEmitted(out, "L2") >= 2
  {
    hide Subs, MergedTop, GraphEmitted, WellFiled, Visits, Listings, Prune, SpineGraph, Keeps;
    SpinesStay();
    assert S1 in SPINES && S2 in SPINES;
    SubsSelf(root);
    SubsChild(root, root, "S1");
    SubsChild(root, root, "S2");
    SubsChild(root, S1, "L2");
    SubsChild(root, L2, "n2");
    var n := NodeVertex("n2");
    assert L2.vertices["n2"] == n && IsNode(n) && n in Subs(root);
    assert LeavesNamed(root, {"n2"}, {"n2"});
    KeepsStep(n, {"n2"});
    KeepsChild(L2, "n2", {"n2"});
    assert EmittedFor(root, {"n2"}, L2);
    EmittedTimes(root, {"n2"}, {"n2"}, out, L2);
    assert S1 != S2 && "L2" in S1.vertices && "L2" in S2.vertices;
    TwoParentsEmitted(root, {"n2"}, L2, S1, S2);
  }
}
