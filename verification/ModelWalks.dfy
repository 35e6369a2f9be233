/** Walking down the objects of a model's graph, and loading a model: `pkg/models/model.go`. */
module ModelWalks {
  import opened BlocksSpec
  import Cluset
  import opened ClusetSpec
  import opened ModelBuild
  import opened ModelGraph
  import opened ModelSpec
  import opened Models
  import opened Printing

  /** From `c`, following the children with the given keys ends at `target`. */
  ghost predicate Leads(c: NetVertex, path: seq<string>, target: NetVertex, cells: set<NetVertex>)
    reads cells
  {
    if path == [] then c == target
    else c in cells && path[0] in c.vertices && c.vertices[path[0]] != null && Leads(c.vertices[path[0]], path[1..], target, cells)
  }

  /** All objects of the graph. */
  ghost function Objects(treeRoot: NetVertex, sws: map<string, NetVertex>, leaves: map<string, NetVertex>): set<NetVertex> {
    {treeRoot} + sws.Values + leaves.Values
  }

  /** What a switch object files is what the relation on the model says, and where the links lead. */
  lemma StepOnObjects(switches: seq<Switch>, blocks: seq<CapacityBlock>, treeRoot: NetVertex,
                      sws: map<string, NetVertex>, leaves: map<string, NetVertex>, x: string, k: string)
    requires Declared(switches, blocks) && Wired(switches, blocks, treeRoot, sws, leaves) && x in sws
    ensures k in sws[x].vertices <==> ModelStep(switches, blocks, x, k)
    ensures k in sws[x].vertices ==> if k in sws then sws[x].vertices[k] == sws[k] else k in leaves && sws[x].vertices[k] == leaves[k]
  {
    hide Targets, ModelStep, Declared, IsRoot;
    TargetsFollowModel(switches, blocks, x, k);
    assert WiredAs(sws[x], Targets(switches, blocks, |switches|, x), sws, leaves);
    if k in sws[x].vertices { assert Points(sws[x].vertices[k], Targets(switches, blocks, |switches|, x)[k], sws, leaves); }
  }

  lemma NoStep(switches: seq<Switch>, blocks: seq<CapacityBlock>, x: string, k: string)
    requires x !in SwitchNames(switches)
    ensures !ModelStep(switches, blocks, x, k)
  {
    hide KidOf;
  }

  /** Consecutive names are related as the model says. */
  ghost predicate Follows(switches: seq<Switch>, blocks: seq<CapacityBlock>, x: string, path: seq<string>)
    decreases |path|
  {
    path == [] || (ModelStep(switches, blocks, x, path[0]) && Follows(switches, blocks, path[0], path[1..]))
  }

  /** All consecutive names of the path are related. */
  ghost predicate Steps(switches: seq<Switch>, blocks: seq<CapacityBlock>, path: seq<string>) {
    forall i, j :: 0 <= i < j < |path| && j == i + 1 ==> ModelStep(switches, blocks, path[i], path[j])
  }

  lemma StepsCons(switches: seq<Switch>, blocks: seq<CapacityBlock>, x: string, rest: seq<string>)
    requires rest != []
    ensures Steps(switches, blocks, [x] + rest) <==> ModelStep(switches, blocks, x, rest[0]) && Steps(switches, blocks, rest)
  {
    hide ModelStep;
    var all := [x] + rest;
    assert forall i :: 0 <= i < |rest| ==> all[i + 1] == rest[i];
    if Steps(switches, blocks, all) {
      assert ModelStep(switches, blocks, all[0], all[1]);
      forall i, j | 0 <= i < j < |rest| && j == i + 1 ensures ModelStep(switches, blocks, rest[i], rest[j]) {
        assert ModelStep(switches, blocks, all[i + 1], all[j + 1]);
      }
    }
    if ModelStep(switches, blocks, x, rest[0]) && Steps(switches, blocks, rest) {
      forall i, j | 0 <= i < j < |all| && j == i + 1 ensures ModelStep(switches, blocks, all[i], all[j]) {
        if i > 0 { assert all[i] == rest[i - 1] && all[j] == rest[j - 1]; }
      }
    }
  }

  lemma {:induction false} FollowsSteps(switches: seq<Switch>, blocks: seq<CapacityBlock>, x: string, path: seq<string>)
    ensures Follows(switches, blocks, x, path) <==> Steps(switches, blocks, [x] + path)
    decreases |path|
  {
    hide ModelStep;
    if path != [] {
      FollowsSteps(switches, blocks, path[0], path[1..]);
      assert [path[0]] + path[1..] == path;
      StepsCons(switches, blocks, x, path);
    }
  }

  lemma LeafLeads(switches: seq<Switch>, blocks: seq<CapacityBlock>, treeRoot: NetVertex,
                  sws: map<string, NetVertex>, leaves: map<string, NetVertex>, k: string, path: seq<string>, n: string)
    requires Wired(switches, blocks, treeRoot, sws, leaves) && k in leaves && n in leaves
    ensures Leads(leaves[k], path, leaves[n], Objects(treeRoot, sws, leaves)) <==> path == [] && k == n
  {
    hide WiredAs, Targets;
    assert leaves[k].id == k && leaves[n].id == n;
  }

  /** From a switch object, a path leads to a node exactly if its names follow one another and end with the node. */
  lemma {:induction false} SwitchLeads(switches: seq<Switch>, blocks: seq<CapacityBlock>, treeRoot: NetVertex,
                                       sws: map<string, NetVertex>, leaves: map<string, NetVertex>, x: string, path: seq<string>, n: string)
    requires Declared(switches, blocks) && Wired(switches, blocks, treeRoot, sws, leaves)
    requires x in sws && n in leaves && n !in sws
    ensures Leads(sws[x], path, leaves[n], Objects(treeRoot, sws, leaves)) <==>
            path != [] && path[|path| - 1] == n && Follows(switches, blocks, x, path)
    decreases |path|
  {
    hide Declared, WiredAs, ModelStep;
    if path == [] {
      assert sws[x].id == x && leaves[n].id == n;
    } else {
      var k := path[0];
      StepOnObjects(switches, blocks, treeRoot, sws, leaves, x, k);
      if k in sws[x].vertices {
        if k in sws {
          SwitchLeads(switches, blocks, treeRoot, sws, leaves, k, path[1..], n);
        } else {
          LeafLeads(switches, blocks, treeRoot, sws, leaves, k, path[1..], n);
          if path[1..] != [] { NoStep(switches, blocks, k, path[1]); }
        }
      }
    }
  }

  /** From the hidden root, a path leads to a node exactly if it goes down from a root to the node. */
  lemma RootLeads(switches: seq<Switch>, blocks: seq<CapacityBlock>, treeRoot: NetVertex,
                  sws: map<string, NetVertex>, leaves: map<string, NetVertex>, path: seq<string>, n: string)
    requires Declared(switches, blocks) && Wired(switches, blocks, treeRoot, sws, leaves) && n in leaves && n !in sws
    ensures Leads(treeRoot, path, leaves[n], Objects(treeRoot, sws, leaves)) <==>
            RootPath(switches, blocks, path) && path[|path| - 1] == n
  {
    hide Declared, WiredAs, ModelStep, Follows;
    if path != [] && IsRoot(switches, path[0]) {
      SwitchLeads(switches, blocks, treeRoot, sws, leaves, path[0], path[1..], n);
      FollowsSteps(switches, blocks, path[0], path[1..]);
      assert [path[0]] + path[1..] == path;
    }
  }

  /** On the objects of the graph: what leads from the hidden root to a node is the reverse of its layers, and nothing else. */
  lemma WalkToNode(switches: seq<Switch>, blocks: seq<CapacityBlock>, nodes: map<string, Node>,
                   swmap: map<string, Switch>, cbmap: map<string, Switch>, treeRoot: NetVertex,
                   sws: map<string, NetVertex>, leaves: map<string, NetVertex>, cb: CapacityBlock, n: string, path: seq<string>)
    requires Loaded(switches, blocks, nodes, swmap, cbmap) && Wired(switches, blocks, treeRoot, sws, leaves)
    requires leaves.Keys == nodes.Keys && cb in blocks && n in cb.nodes
    ensures Leads(treeRoot, path, leaves[n], Objects(treeRoot, sws, leaves)) <==>
            cb.name in cbmap && path == Reverse(nodes[n].netLayers) + [n]
  {
    hide ParentMap, OwnerMap, NodeFor, WiredAs, RootPath, Reverse, Leads;
    PathIsReverseOfLayers(switches, blocks, nodes, swmap, cbmap, cb, n, path);
    RootLeads(switches, blocks, treeRoot, sws, leaves, path, n);
  }

  // ---------- loading a model ----------

  /** The blocks with their host lists expanded. */
  function Expanded(blocks: seq<CapacityBlock>): (all: seq<CapacityBlock>)
    ensures |all| == |blocks| && forall i :: 0 <= i < |all| ==> all[i] == blocks[i].(nodes := ClusetSpec.Expand(blocks[i].nodes))
  {
    seq(|blocks|, i requires 0 <= i < |blocks| => blocks[i].(nodes := ClusetSpec.Expand(blocks[i].nodes)))
  }

  method ExpandNodes(blocks: seq<CapacityBlock>) returns (all: seq<CapacityBlock>)
    requires forall cb, entry :: cb in blocks && entry in cb.nodes ==> EntryEnds(entry)
    ensures all == Expanded(blocks)
  {
    hide EntryEnds, ClusetSpec.Expand;
    all := blocks;
    for i := 0 to |blocks|
      invariant |all| == |blocks|
      invariant forall j :: 0 <= j < |all| ==> all[j] == if j < i then Expanded(blocks)[j] else blocks[j]
    {
      assert blocks[i] in blocks;
      var names := Cluset.Expand(all[i].nodes);
      all := all[i := all[i].(nodes := names)];
    }
  }

  /** What a file must say to be accepted. */
  ghost predicate Accepted(switches: seq<Switch>, blocks: seq<CapacityBlock>) {
    && NoRepeats(SubsOf(switches)) && NoRepeats(BlocksBelow(switches)) && NoRepeats(NamesOf(blocks))
    && forall swmap, cbmap :: Linked(switches, swmap) && Owned(switches, cbmap) ==> NoCycles(swmap, cbmap, blocks)
  }

  lemma ParentsUnique(switches: seq<Switch>, a: map<string, Switch>, b: map<string, Switch>)
    requires Linked(switches, a) && Linked(switches, b)
    ensures a == b
  {
    hide SubsOf, NoRepeats;
  }

  lemma OwnersUnique(switches: seq<Switch>, a: map<string, Switch>, b: map<string, Switch>)
    requires Owned(switches, a) && Owned(switches, b)
    ensures a == b
  {
    hide BlocksBelow, NoRepeats;
  }

  lemma AcceptedBy(switches: seq<Switch>, blocks: seq<CapacityBlock>, swmap: map<string, Switch>, cbmap: map<string, Switch>)
    requires Linked(switches, swmap) && Owned(switches, cbmap)
    ensures Accepted(switches, blocks) <==> NoCycles(swmap, cbmap, blocks) && NoRepeats(NamesOf(blocks))
  {
    hide SubsOf, BlocksBelow, NamesOf, NoCycles, NoRepeats, ParentMap, OwnerMap;
    LinkedMeans(switches, swmap, cbmap);
    forall a, b | Linked(switches, a) && Owned(switches, b) ensures a == swmap && b == cbmap {
      ParentsUnique(switches, a, swmap);
      OwnersUnique(switches, b, cbmap);
    }
  }

  lemma RefusedBy(switches: seq<Switch>, blocks: seq<CapacityBlock>)
    requires !(NoRepeats(SubsOf(switches)) && NoRepeats(BlocksBelow(switches)))
    ensures !Accepted(switches, blocks)
  {}

  lemma NodesNamed(swmap: map<string, Switch>, cbmap: map<string, Switch>, blocks: seq<CapacityBlock>, nodes: map<string, Node>)
    requires NodesFor(swmap, cbmap, blocks, nodes)
    ensures forall n :: n in nodes ==> nodes[n].name == n
    ensures forall cb, n :: cb in blocks && n in cb.nodes ==> n in nodes
  {
    hide LayersOf, MetadataOf, NamesOf;
    NamesAre(blocks);
  }

  lemma LinkedLoads(switches: seq<Switch>, blocks: seq<CapacityBlock>, nodes: map<string, Node>,
                    swmap: map<string, Switch>, cbmap: map<string, Switch>)
    requires Declared(switches, blocks) && Linked(switches, swmap) && Owned(switches, cbmap) && NodesFor(swmap, cbmap, blocks, nodes)
    ensures Loaded(switches, blocks, nodes, swmap, cbmap) && forall c :: c in cbmap <==> c in BlocksBelow(switches)
  {
    hide Declared, NodesFor, ParentMap, OwnerMap, NoRepeats, SubsOf, BlocksBelow;
  }

  /** Every walk from the hidden root to a node follows the layers recorded for the node, from the top. */
  ghost predicate WalksAreLayers(switches: seq<Switch>, blocks: seq<CapacityBlock>, nodes: map<string, Node>, treeRoot: NetVertex,
                                 sws: map<string, NetVertex>, leaves: map<string, NetVertex>)
    reads Objects(treeRoot, sws, leaves)
  {
    && leaves.Keys == nodes.Keys
    && forall cb, n, path :: cb in blocks && n in cb.nodes ==>
         n in nodes && (Leads(treeRoot, path, leaves[n], Objects(treeRoot, sws, leaves)) <==>
                        cb.name in BlocksBelow(switches) && path == Reverse(nodes[n].netLayers) + [n])
  }

  lemma AllWalks(switches: seq<Switch>, blocks: seq<CapacityBlock>, nodes: map<string, Node>,
                 swmap: map<string, Switch>, cbmap: map<string, Switch>, treeRoot: NetVertex,
                 sws: map<string, NetVertex>, leaves: map<string, NetVertex>)
    requires Loaded(switches, blocks, nodes, swmap, cbmap) && Wired(switches, blocks, treeRoot, sws, leaves)
    requires leaves.Keys == nodes.Keys && forall c :: c in cbmap <==> c in BlocksBelow(switches)
    ensures WalksAreLayers(switches, blocks, nodes, treeRoot, sws, leaves)
  {
    hide Declared, ParentMap, OwnerMap, NodeFor, Wired, Reverse, Leads, BlocksBelow;
    forall cb, n, path | cb in blocks && n in cb.nodes
      ensures n in nodes && (Leads(treeRoot, path, leaves[n], Objects(treeRoot, sws, leaves)) <==>
                             cb.name in BlocksBelow(switches) && path == Reverse(nodes[n].netLayers) + [n])
    {
      WalkToNode(switches, blocks, nodes, swmap, cbmap, treeRoot, sws, leaves, cb, n, path);
    }
  }

  /** Loads a model and builds its graph. If everything in it is declared, the only way down to a node is the reverse of
      the layers recorded for the node. */
  method LoadModel(switches: seq<Switch>, lists: seq<CapacityBlock>)
    returns (ok: bool, nodes: map<string, Node>, instances: seq<ComputeInstances>, root: NetVertex?, ghost treeRoot: NetVertex?,
             ghost sws: map<string, NetVertex>, ghost leaves: map<string, NetVertex>)
    requires forall cb, entry :: cb in lists && entry in cb.nodes ==> EntryEnds(entry)
    ensures ok <==> Accepted(switches, Expanded(lists))
    ensures ok ==> InstancesFor(nodes, instances)
    ensures ok ==> root != null && treeRoot != null && "topology/tree" in root.vertices && root.vertices["topology/tree"] == treeRoot
                   && Wired(switches, Expanded(lists), treeRoot, sws, leaves)
                   && (Declared(switches, Expanded(lists)) ==> WalksAreLayers(switches, Expanded(lists), nodes, treeRoot, sws, leaves))
  {
    hide Expanded, EntryEnds, Declared, Accepted, NodesFor, Linked, Owned, NoCycles, NamesOf, SubsOf, BlocksBelow, NoRepeats, Loaded, Wired,
         BlocksWired, HasDomains, WalksAreLayers, InstancesFor;
    root, treeRoot, sws, leaves := null, null, map[], map[];
    var blocks := ExpandNodes(lists);
    ghost var swmap, cbmap;
    ok, nodes, instances, swmap, cbmap := SetNodeMap(switches, blocks);
    if !(NoRepeats(SubsOf(switches)) && NoRepeats(BlocksBelow(switches))) {
      RefusedBy(switches, blocks);
    } else {
      AcceptedBy(switches, blocks, swmap, cbmap);
    }
    if ok {
      NodesNamed(swmap, cbmap, blocks, nodes);
      ghost var blockRoot, cells, tree;
      var names;
      root, names, tree, blockRoot, sws, leaves, cells := ToGraph(switches, blocks, nodes);
      treeRoot := tree;
      if Declared(switches, blocks) {
        LinkedLoads(switches, blocks, nodes, swmap, cbmap);
        AllWalks(switches, blocks, nodes, swmap, cbmap, tree, sws, leaves);
      }
    }
  }
}
