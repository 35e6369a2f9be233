/** From the graph of the records to the printed tree: `NewNetworkTopology` and `Generate` of `pkg/translate/topology.go`. */
module Pipeline {
  import opened BlocksSpec
  import opened ClusetSpec
  import opened ClusetTheorems
  import opened Loading
  import opened Ordering
  import opened PartitionUnit
  import opened Printing
  import opened ThreeTierNodes
  import opened ThreeTierSpec
  import opened ThreeTierTree
  import opened Topology
  import opened Translate
  import opened TranslateSpec
  import opened TreeOutput
  import opened Trees

  import ThreeTier

  /** Loads the graph built from the records and prints its tree. */
  method PrintTree(root: Vertex, ghost records: seq<Record>, ghost names: map<string, string>) returns (lines: seq<Line>)
    requires var g := Graph(Used(records, names.Keys), names);
             && WellFormed(g)
             && TOPOLOGY_TREE in root.vertices && root.vertices[TOPOLOGY_TREE] == TreeOf(g)
             && (TOPOLOGY_BLOCK in root.vertices ==>
                   root.vertices[TOPOLOGY_BLOCK] == ThreeTier.Domains.BlocksOf(ThreeTier.Domains.DomainsOf(g.used, g.names)))
    requires Printable(SortedKeys(names.Values))
    ensures Printed(TreeOf(Graph(Used(records, names.Keys), names)), lines)
    ensures forall x :: x in names ==> Listed(lines, NodeList, names[x]) == if HasRecord(records, names.Keys, x, "") then 0 else 1
    ensures forall n :: n !in names.Values ==> Listed(lines, NodeList, n) == 0
  {
    hide Buildable, OneAbove, TreeOf, WellFiled, OneParent, NamesDiffer, IdsDiffer, Printable, Printed, Listed, HasRecord, GraphLoaded, NodesKnown,
         BreadthFirst, WalkLoaded, GraphPrinted, Used,
         ThreeTier.Domains.BlocksOf, ThreeTier.Domains.DomainsOf, BlocksListed, NodesIndexed, ByOrder, BlockOrder, DfsLeaves, KeyOrdered;
    ghost var g := Graph(Used(records, names.Keys), names);
    ghost var t := TreeOf(g);
    ThreeTier.ReadyToTranslate(g, records);
    var nt := new NetworkTopology();
    ghost var order := nt.InitTree(root);
    ghost var ord, home, blockMap := nt.InitBlocks(root);
    RootLoaded(t, nt.tree, nt.vertices);
    var output := nt.ToTreeTopology(t);
    lines := output.lines;
    TreeIsPrinted(t, lines);
    forall x | x in names ensures Listed(lines, NodeList, names[x]) == if HasRecord(records, names.Keys, x, "") then 0 else 1 {
      EveryNodePrinted(records, names, lines, x);
    }
    forall n | n !in names.Values ensures Listed(lines, NodeList, n) == 0 {
      OnlyRequestedPrinted(records, names, lines, n);
    }
  }

  /** Every requested name is that of a node; every requested node is listed once, unless its first record knows no switch,
      and no other node is listed. */
  ghost predicate RequestedListed(asked: seq<string>, records: seq<Record>, names: map<string, string>, out: seq<SwitchOut>) {
    && (forall n :: n in asked ==> n in names.Values || (names == map[] && n == ""))
    && (forall x :: x in names ==>
          (TimesListed(out, names[x]) == if names[x] in asked && !HasRecord(records, names.Keys, x, "") then 1 else 0))
    && (forall n :: n !in names.Values ==> TimesListed(out, n) == 0)
  }

  /** Loads the graph built from the records and answers a request for a part of it. */
  method PrintPartition(root: Vertex, nodes: seq<string>, ghost records: seq<Record>, ghost names: map<string, string>) returns (unit: TreeUnit)
    requires var g := Graph(Used(records, names.Keys), names);
             && WellFormed(g)
             && TOPOLOGY_TREE in root.vertices && root.vertices[TOPOLOGY_TREE] == TreeOf(g)
    requires Printable(SortedKeys(names.Values))
    requires forall entry :: entry in nodes ==> EntryEnds(entry)
    ensures match unit
            case MissingNode(name) => name in Expand(nodes) && name !in names.Values
            case Switches(out) => RequestedListed(Expand(nodes), records, names, out)
  {
    hide Buildable, OneAbove, TreeOf, WellFiled, OneParent, NamesDiffer, Printable, HasRecord, GraphLoaded, NodesKnown,
         BreadthFirst, WalkLoaded, Used, EntryEnds, Expand,
         BlocksListed, NodesIndexed, ByOrder, BlockOrder, DfsLeaves, KeyOrdered, InstancesKnown, InstancesFrom, GraphEmitted, Emitted, LeavesOf,
         LeafIds, FirstMissing, RequestedListed;
    ghost var g := Graph(Used(records, names.Keys), names);
    ghost var t := TreeOf(g);
    ThreeTier.ReadyToTranslate(g, records);
    var nt := new NetworkTopology();
    ghost var order := nt.InitTree(root);
    ghost var base := nt.nodeInfo;
    ghost var ord, home, blockMap := nt.InitBlocks(root);
    KnownAfterBlocks(t, blockMap, home, BlockOrder(blockMap, home, DfsLeaves(t)), base, nt.nodeInfo);
    KnownNames(g, nt.nodeInfo);
    unit := nt.GetTreeTopologyUnit(t, nodes);
    match unit {
      case MissingNode(name) => MissingIsRequested(Expand(nodes), nt.nodeInfo, name);
      case Switches(out) =>
        LeavesFound(t, nt.nodeInfo, Elements(Expand(nodes)));
        TreeIsEmitted(t, Elements(Expand(nodes)), out);
        ListedAsRequested(Expand(nodes), records, names, out);
    }
  }

  lemma ListedAsRequested(nodes: seq<string>, records: seq<Record>, names: map<string, string>, out: seq<SwitchOut>)
    requires var g := Graph(Used(records, names.Keys), names);
             WellFormed(g) && Emitted(TreeOf(g), Elements(nodes), out)
    requires Printable(SortedKeys(names.Values)) && forall n :: n in nodes ==> n in names.Values || (names == map[] && n == "")
    ensures RequestedListed(nodes, records, names, out)
  {
    hide Buildable, OneAbove, TreeOf, Printable, HasRecord, Used, Emitted, TimesListed;
    var g, asked := Graph(Used(records, names.Keys), names), Elements(nodes);
    if names == map[] {
      NoSwitchEmitted(g, asked, out);
    } else {
      assert asked <= names.Values;
      forall x | x in names
        ensures TimesListed(out, names[x]) == if names[x] in nodes && !HasRecord(records, names.Keys, x, "") then 1 else 0
      {
        NodeInPartition(records, names, asked, out, x);
      }
      forall n | n !in names.Values ensures TimesListed(out, n) == 0 { UnaskedInPartition(g, asked, out, n); }
    }
  }

  lemma NoSwitchEmitted(g: Graph, asked: set<string>, out: seq<SwitchOut>)
    requires Buildable(g) && g.names == map[] && Emitted(TreeOf(g), asked, out)
    ensures out == [] && forall n :: TimesListed(out, n) == 0
  {
    hide Buildable, TreeOf, LeavesOf, SwitchFor, OncePerName, TopFirst;
    LoneRoot(g);
    if out != [] {
      assert ForKept(TreeOf(g), asked, LeavesOf(TreeOf(g), asked), out[0]);
      var v :| EmittedFor(TreeOf(g), LeavesOf(TreeOf(g), asked), v);
      OnlyRoot(TreeOf(g), v);
    }
  }

  lemma MissingIsRequested(asked: seq<string>, nodeInfo: map<string, NodeInfo>, name: string)
    requires FirstMissing(asked, nodeInfo, name)
    ensures name in asked && name !in nodeInfo
  {}

  /** The nodes known after loading are exactly the requested ones. */
  lemma KnownNames(g: Graph, nodeInfo: map<string, NodeInfo>)
    requires WellFormed(g) && InstancesKnown(TreeOf(g), nodeInfo)
    ensures forall n :: n in nodeInfo <==> n in g.names.Values || (g.names == map[] && n == "")
  {
    hide Buildable, OneAbove, NamesApart, TreeOf, At, Subs, HomeOf;
    var t := TreeOf(g);
    RootPlaced(g);
    GraphNames(g);
    SubsSelf(t);
    if g.names == map[] { LoneRoot(g); }
    forall n | n in nodeInfo ensures n in g.names.Values || (g.names == map[] && n == "") {
      var v :| v in Subs(t) && IsNode(v) && v.name == n;
      if y :| y in g.names {
        NodeInTree(g, y);
        if v == t { OnlyRoot(t, At(g, y)); }
      }
    }
    forall n | n in g.names.Values ensures n in nodeInfo {
      var x :| x in g.names && g.names[x] == n;
      NodeInTree(g, x);
    }
  }

  /** Without requested instances the tree is a single vertex. */
  lemma LoneRoot(g: Graph)
    requires Buildable(g) && g.names == map[]
    ensures IsNode(TreeOf(g)) && TreeOf(g).name == ""
  {
    hide TiersApart, At;
    RootPlaced(g);
    EmptyOrNot(g.used);
    forall k ensures k !in At(g, "").vertices { KidsAre(g, "", k); }
  }

  lemma EmptyOrNot(used: seq<Record>)
    ensures used == [] || exists r :: r in used
  {
    if used != [] { assert used[0] in used; }
  }

  lemma NodeInTree(g: Graph, x: string)
    requires WellFormed(g) && x in g.names
    ensures At(g, x) in Subs(TreeOf(g)) && IsNode(At(g, x)) && At(g, x).name == g.names[x] && At(g, x).id == x && x != ""
  {
    hide OneAbove, NamesApart, TreeOf, At, Subs, HomeOf, Link, TiersApart;
    HomeReached(g, x);
    HomeLink(g, x);
    NodeAt(g, HomeOf(g, x), x);
    KidsAre(g, x, "");
  }

  lemma AskedPrintable(all: set<string>, asked: set<string>)
    requires Printable(SortedKeys(all)) && asked <= all
    ensures Printable(SortedKeys(asked))
  {
    hide Printable;
    SortedKeysSorted(asked);
    DistinctKeys(asked);
    PartPrintable(SortedKeys(all), SortedKeys(asked));
  }

  /** A node that was asked for is listed once, unless its first record knows no switch. */
  lemma NodeInPartition(records: seq<Record>, names: map<string, string>, asked: set<string>, out: seq<SwitchOut>, x: string)
    requires var g := Graph(Used(records, names.Keys), names); WellFormed(g) && Emitted(TreeOf(g), asked, out)
    requires Printable(SortedKeys(names.Values)) && x in names && asked <= names.Values
    ensures TimesListed(out, names[x]) == if names[x] in asked && !HasRecord(records, names.Keys, x, "") then 1 else 0
  {
    hide Buildable, OneAbove, NamesApart, TreeOf, At, Subs, HomeOf, Printable, Emitted, TimesListed, HasRecord, IsTree, NamesDiffer;
    var g := Graph(Used(records, names.Keys), names);
    if names[x] in asked {
      GraphIsTree(g);
      GraphNames(g);
      AskedPrintable(names.Values, asked);
      HomeReached(g, x);
      ChildOfHome(g, HomeOf(g, x), x);
      KidsAre(g, HomeOf(g, x), "");
      NodeUnderOneSwitch(TreeOf(g), asked, out, At(g, HomeOf(g, x)), names[x]);
      NoHome(records, names, x);
    } else {
      UnaskedInPartition(g, asked, out, names[x]);
    }
  }

  lemma UnaskedInPartition(g: Graph, asked: set<string>, out: seq<SwitchOut>, n: string)
    requires WellFormed(g) && Emitted(TreeOf(g), asked, out) && Printable(SortedKeys(g.names.Values)) && asked <= g.names.Values && n !in asked
    ensures TimesListed(out, n) == 0
  {
    hide Buildable, OneAbove, NamesApart, TreeOf, Subs, Printable, Emitted, IsTree, NamesDiffer;
    GraphIsTree(g);
    GraphNames(g);
    AskedPrintable(g.names.Values, asked);
    NeverListed(TreeOf(g), asked, out, n);
  }

  lemma RootLoaded(t: Vertex, tree: map<string, seq<string>>, vertices: map<string, Vertex>)
    requires GraphLoaded(t, tree, vertices)
    ensures t.id in vertices
  {
    hide Subs;
    SubsSelf(t);
  }
}
