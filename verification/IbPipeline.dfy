/** From a fabric to the merged top tier: `GenerateTopologyConfig` of `pkg/ib/ib.go` after parsing. */
module IbPipeline {
  import opened Ib
  import opened IbSpec
  import opened MergerOrder
  import opened MergerSpec
  import opened MergerTheorems
  import opened Ordering
  import opened Topology
  import M = Merger

  /** Node names are not switch IDs. */
  ghost predicate HostsApart(f: Fabric) {
    forall s, n :: s in f.hosts && n in f.hosts[s] ==> n !in f.links
  }

  ghost function AllHosts(f: Fabric): set<string> {
    set s, n | s in f.hosts && n in f.hosts[s] :: n
  }

  ghost function LevelOf(f: Fabric, s: string): nat {
    if k: nat :| s in Level(f, k) then k else 0
  }

  /** Everything that can lie below the switches of level `d`. */
  ghost function FabricGraph(f: Fabric, d: nat): Catalogue {
    (map s | s in UpTo(f, d) :: VertexAt(f, LevelOf(f, s), s)) + (map n | n in AllHosts(f) :: NodeVertex(n))
  }

  lemma LevelOfIs(f: Fabric, k: nat, s: string)
    requires s in Level(f, k)
    ensures LevelOf(f, s) == k
  {
    var j := LevelOf(f, s);
    if j < k { LevelsDisjoint(f, j, k); }
    if k < j { LevelsDisjoint(f, k, j); }
  }

  lemma PlacedIsHeld(f: Fabric, d: nat, k: nat, s: string)
    requires HostsApart(f) && k <= d && s in Level(f, k)
    ensures Holds(FabricGraph(f, d), VertexAt(f, k, s))
  {
    hide Level, UpTo;
    LevelStep(f, k);
    LevelOfIs(f, k, s);
    UpToGrows(f, k, d);
    LevelInUpTo(f, k);
    assert VertexAt(f, k, s).id == s;
  }

  lemma LevelInUpTo(f: Fabric, k: nat)
    ensures Level(f, k) <= UpTo(f, k)
  {
    if k > 0 { LevelStep(f, k - 1); }
  }

  /** Building level by level ranks every switch by its distance. */
  lemma {:induction false} LevelRanked(f: Fabric, k: nat, s: string)
    requires s in Level(f, k)
    ensures Ranked(VertexAt(f, k, s), k + 1)
    decreases k
  {
    var v := VertexAt(f, k, s);
    if k == 0 {
      var n :| n in f.hosts[s];
      assert n in v.vertices;
    } else {
      var c :| c in f.links[s] && c in Level(f, k - 1);
      assert c in v.vertices;
      forall c | c in v.vertices ensures v.vertices[c].id == c && Ranked(v.vertices[c], k) {
        LevelRanked(f, k - 1, c);
      }
    }
  }

  lemma HeldIsPlaced(f: Fabric, d: nat, v: Vertex)
    requires HostsApart(f) && Holds(FabricGraph(f, d), v)
    ensures v == NodeVertex(v.id) || exists k: nat :: k <= d && v.id in Level(f, k) && v == VertexAt(f, k, v.id)
  {
    hide Level, UpTo, VertexAt;
    if v.id !in AllHosts(f) {
      UpToIsLevels(f, v.id, d);
      var k: nat :| k <= d && v.id in Level(f, k);
      LevelOfIs(f, k, v.id);
    }
  }

  lemma FabricChild(f: Fabric, d: nat, v: Vertex, c: string)
    requires HostsApart(f) && Holds(FabricGraph(f, d), v) && c in v.vertices
    ensures v.vertices[c].id == c && Holds(FabricGraph(f, d), v.vertices[c])
  {
    hide UpTo, FabricGraph;
    HeldIsPlaced(f, d, v);
    var k: nat :| k <= d && v.id in Level(f, k) && v == VertexAt(f, k, v.id);
    if k == 0 {
      assert c in AllHosts(f);
      HostIsHeld(f, d, c);
    } else {
      PlacedIsHeld(f, d, k - 1, c);
    }
  }

  lemma HostIsHeld(f: Fabric, d: nat, n: string)
    requires n in AllHosts(f)
    ensures Holds(FabricGraph(f, d), NodeVertex(n))
  {}

  ghost predicate ListsRoots(top: seq<Vertex>, level: map<string, Vertex>) {
    && (forall v :: v in top <==> v in level.Values)
    && (forall i, j :: 0 <= i < j < |top| ==> top[i] != top[j])
  }

  /** What buildTree returns is always a layered graph the merger accepts. */
  lemma FabricIsLayered(f: Fabric, d: nat, top: seq<Vertex>)
    requires HostsApart(f) && ListsRoots(top, LevelMap(f, d))
    ensures Closed(FabricGraph(f, d)) && Layered(top, d + 1, FabricGraph(f, d))
  {
    hide Level, UpTo, VertexAt, FabricGraph, Ranked;
    var g := FabricGraph(f, d);
    forall v, c | Holds(g, v) && c in v.vertices ensures v.vertices[c].id == c && Holds(g, v.vertices[c]) {
      FabricChild(f, d, v, c);
    }
    forall v | v in top ensures Ranked(v, d + 1) && Holds(g, v) {
      assert v in LevelMap(f, d).Values;
      var s :| s in Level(f, d) && v == VertexAt(f, d, s);
      LevelRanked(f, d, s);
      PlacedIsHeld(f, d, d, s);
    }
  }

  /** The order in which the map yields its roots does not matter. */
  lemma RootOrderIrrelevant(f: Fabric, d: nat, a: seq<Vertex>, b: seq<Vertex>)
    requires HostsApart(f) && ListsRoots(a, LevelMap(f, d)) && ListsRoots(b, LevelMap(f, d))
    ensures MergedTop(a, d + 1, FabricGraph(f, d)) == MergedTop(b, d + 1, FabricGraph(f, d))
  {
    hide Level, LevelMap, FabricGraph, MergedTier, Tiers;
    var g := FabricGraph(f, d);
    FabricIsLayered(f, d, a);
    CountOfDistinct(a);
    CountOfDistinct(b);
    assert multiset(a) == multiset(b);
    SameMembers(a, b);
    ByIdPreorder();
    SortBySorted(a, ById);
    SortBySorted(b, ById);
    SortByPermutes(a, ById);
    SortByPermutes(b, ById);
    SameMembers(SortBy(a, ById), a);
    forall v, w | v in SortBy(a, ById) && w in SortBy(a, ById) && ById(v, w) && ById(w, v) ensures v == w {
      LeqAntisymmetric(v.id, w.id);
    }
    SortUnique(SortBy(a, ById), SortBy(b, ById), ById);
  }

  method ListRoots(roots: map<string, Vertex>) returns (top: seq<Vertex>)
    requires forall s :: s in roots ==> roots[s].id == s
    ensures ListsRoots(top, roots)
  {
    top := [];
    var todo := roots.Keys;
    while todo != {}
      invariant todo <= roots.Keys
      invariant forall v :: v in top <==> exists s :: s in roots && s !in todo && roots[s] == v
      invariant forall v :: v in top ==> v.id !in todo
      invariant forall i, j :: 0 <= i < j < |top| ==> top[i] != top[j]
      decreases todo
    {
      var s :| s in todo;
      todo := todo - {s};
      top := top + [roots[s]];
    }
  }

  /** The compute nodes below the roots are the cluster nodes at the leaf switches from which a root is a shortest walk away. */
  lemma LeavesOfRoots(f: Fabric, d: nat, roots: seq<Vertex>, n: string)
    requires ListsRoots(roots, LevelMap(f, d))
    ensures n in AllLeaves(roots) <==> exists s, p :: s in Level(f, d) && NearestTo(f, p, s, d, n)
  {
    hide Level, VertexAt, Leaves, NearestTo;
    var level := LevelMap(f, d);
    if n in AllLeaves(roots) {
      var v :| v in roots && n in Leaves(v);
      var s :| s in level && level[s] == v;
      LeavesAreNearest(f, d, s, n);
    }
    if s, p :| s in Level(f, d) && NearestTo(f, p, s, d, n) {
      LeavesAreNearest(f, d, s, n);
      assert s in level && level[s] in level.Values;
    }
  }

  lemma NearestIsHost(f: Fabric, p: seq<string>, s: string, d: nat, n: string)
    requires NearestTo(f, p, s, d, n)
    ensures p[0] in f.hosts && n in f.hosts[p[0]]
  {}

  ghost predicate HostsInCluster(f: Fabric, cluster: set<string>) {
    forall s, n :: s in f.hosts && n in f.hosts[s] ==> n in cluster
  }

  lemma PortsInCluster(switches: map<string, Switch>, hca: map<string, string>, cluster: set<string>)
    requires forall s :: s in switches ==> switches[s].nodes == map[]
    ensures HostsInCluster(FabricOf(switches, hca, cluster), cluster)
  {
    hide FabricOf;
    FabricKeys(switches, hca, cluster);
    forall s | s in switches { HostsOfSwitch(switches, hca, cluster, s); }
  }

  /** No node outside the cluster is below a root. */
  lemma OnlyClusterNodes(f: Fabric, cluster: set<string>, d: nat, roots: seq<Vertex>)
    requires HostsInCluster(f, cluster) && ListsRoots(roots, LevelMap(f, d))
    ensures AllLeaves(roots) <= cluster
  {
    hide Level, VertexAt, Leaves, NearestTo, ListsRoots, AllLeaves;
    forall n | n in AllLeaves(roots) ensures n in cluster {
      LeavesOfRoots(f, d, roots, n);
      var s, p :| s in Level(f, d) && NearestTo(f, p, s, d, n);
      NearestIsHost(f, p, s, d, n);
    }
  }

  method GenerateTopology(switches: map<string, Switch>, hca: map<string, string>, cluster: set<string>)
    returns (result: seq<Vertex>, ghost depth: nat, ghost roots: seq<Vertex>)
    requires FiledById(switches) && HostsApart(FabricOf(switches, hca, cluster))
    modifies switches.Values
    ensures var f := old(FabricOf(switches, hca, cluster));
            && LastLevel(f, depth, LevelMap(f, depth)) && ListsRoots(roots, LevelMap(f, depth))
            && result == MergedTop(roots, depth + 1, FabricGraph(f, depth))
            && AllLeaves(result) == AllLeaves(roots) && SortedIds(result)
    ensures old(forall s :: s in switches ==> switches[s].nodes == map[]) ==> AllLeaves(result) <= cluster
  {
    hide FabricOf, LastLevel, ListsRoots, MergedTop, AllLeaves, HostsApart, HostsInCluster, FabricGraph, SortedIds;
    ghost var f := FabricOf(switches, hca, cluster);
    ghost var empty := forall s :: s in switches ==> switches[s].nodes == map[];
    if empty { PortsInCluster(switches, hca, cluster); }
    var level;
    level, depth := BuildTree(switches, hca, cluster);
    LastIsLevel(f, depth, level);
    var top := ListRoots(level);
    roots := top;
    result := MergeRoots(f, depth, top);
    if empty { OnlyClusterNodes(f, cluster, depth, top); }
  }

  lemma LastIsLevel(f: Fabric, depth: nat, level: map<string, Vertex>)
    requires LastLevel(f, depth, level)
    ensures level == LevelMap(f, depth) && forall s :: s in level ==> level[s].id == s
  {
    hide Level;
  }

  method MergeRoots(ghost f: Fabric, ghost d: nat, top: seq<Vertex>) returns (result: seq<Vertex>)
    requires HostsApart(f) && ListsRoots(top, LevelMap(f, d))
    ensures result == MergedTop(top, d + 1, FabricGraph(f, d))
    ensures AllLeaves(result) == AllLeaves(top) && SortedIds(result)
  {
    hide ListsRoots, FabricGraph, Level, Layered, Closed, Tiered, MergedTier, M.NodesDone, M.RefsDone, AllLeaves, SortedIds, TiersInOrder;
    ghost var g := FabricGraph(f, d);
    FabricIsLayered(f, d, top);
    MergedTopInOrder(top, d + 1, g);
    var merger := new M.Merger(top, d + 1, g);
    ghost var t := merger.tiers;
    if top == [] {
      merger.Merge([], g);
    } else {
      merger.Merge(t, g);
      MergingKeepsLeaves(t, g, d + 1);
      SortKeepsLeaves(top);
    }
    result := merger.TopTier();
  }

  lemma SortKeepsLeaves(top: seq<Vertex>)
    ensures AllLeaves(SortBy(top, ById)) == AllLeaves(top)
  {
    SortByPermutes(top, ById);
    SameMembers(SortBy(top, ById), top);
  }
}
