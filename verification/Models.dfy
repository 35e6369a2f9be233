/** Loading a network model: `pkg/models/model.go`. */
module Models {
  import opened ModelSpec
  import opened Options
  import opened Ordering
  import opened Printing

  /** Follows the parents of a switch to the top; fails if it comes back to a switch. */
  method GetNetworkLayers(start: Switch, swmap: map<string, Switch>)
    returns (ok: bool, layers: seq<string>, metadata: map<string, string>)
    ensures ok <==> !Cyclic(swmap, start)
    ensures ok ==> IsChain(swmap, start, layers) && metadata == Metadata(swmap, start, |layers|)
  {
    hide Metadata;
    var sw := start;
    var visited: set<string> := {};
    layers, metadata := [], map[];
    NoMetadata(swmap, start);
    while true
      invariant SwitchAbove(swmap, start, |layers|) == Some(sw) && ChainSoFar(swmap, start, layers)
      invariant forall x :: x in visited <==> x in layers
      invariant visited <= swmap.Keys && NoRepeats(layers) && metadata == Metadata(swmap, start, |layers|)
      decreases swmap.Keys - visited
    {
      var name := sw.name;
      if name in visited {
        var i :| 0 <= i < |layers| && layers[i] == name;
        assert NameAbove(swmap, start, i) == Some(name);
        assert SameAt(swmap, start, i, |layers|);
        return false, [], map[];
      }
      MetadataStep(swmap, start, |layers|);
      visited := visited + {name};
      layers := layers + [name];
      metadata := metadata + sw.metadata;
      if name !in swmap {
        ChainNotCyclic(swmap, start, layers);
        return true, layers, metadata;
      }
      sw := swmap[name];
    }
  }

  lemma NoMetadata(swmap: map<string, Switch>, sw: Switch)
    ensures Metadata(swmap, sw, 0) == map[]
  {}

  lemma MetadataStep(swmap: map<string, Switch>, sw: Switch, k: nat)
    requires SwitchAbove(swmap, sw, k).Some?
    ensures Metadata(swmap, sw, k + 1) == Metadata(swmap, sw, k) + SwitchAbove(swmap, sw, k).value.metadata
  {}

  // ---------- parents and owners ----------

  /** Adds the links of one switch, unless a child already has a parent. */
  method AddChildren(parent: Switch, children: seq<string>, parents: map<string, Switch>)
    returns (ok: bool, more: map<string, Switch>)
    ensures ok <==> NoRepeats(children) && forall c :: c in children ==> c !in parents
    ensures ok ==> (forall c :: c in more <==> c in parents || c in children)
                   && forall c :: c in more ==> more[c] == if c in children then parent else parents[c]
  {
    more := parents;
    for i := 0 to |children|
      invariant NoRepeats(children[..i]) && forall c :: c in children[..i] ==> c !in parents
      invariant forall c :: c in more <==> c in parents || c in children[..i]
      invariant forall c :: c in more ==> more[c] == if c in children[..i] then parent else parents[c]
    {
      var child := children[i];
      assert children[..i + 1] == children[..i] + [child];
      if child in more {
        RepeatOrTaken(children, i, parents);
        return false, more;
      }
      SnocNoRepeats(children[..i], child);
      more := more[child := parent];
    }
    assert children[..|children|] == children;
    ok := true;
  }

  lemma RepeatOrTaken(children: seq<string>, i: nat, parents: map<string, Switch>)
    requires i < |children| && (children[i] in parents || children[i] in children[..i])
    ensures !(NoRepeats(children) && forall c :: c in children ==> c !in parents)
  {
    if children[i] in children[..i] {
      var j :| 0 <= j < i && children[..i][j] == children[i];
      assert children[j] == children[i];
    } else {
      assert children[i] in children;
    }
  }

  lemma NoRepeatsConcat(a: seq<string>, b: seq<string>)
    ensures NoRepeats(a + b) <==> NoRepeats(a) && NoRepeats(b) && forall x :: x in b ==> x !in a
  {
    var s := a + b;
    assert (forall i :: 0 <= i < |a| ==> s[i] == a[i]) && forall j :: 0 <= j < |b| ==> s[|a| + j] == b[j];
    if NoRepeats(s) {
      forall i, j | 0 <= i < j < |b| ensures b[i] != b[j] { assert s[|a| + i] != s[|a| + j]; }
      forall i, j | 0 <= i < |a| && 0 <= j < |b| ensures a[i] != b[j] { assert s[i] != s[|a| + j]; }
    }
    if NoRepeats(a) && NoRepeats(b) && forall x :: x in b ==> x !in a {
      forall i, j | 0 <= i < j < |s| ensures s[i] != s[j] {
        if j >= |a| {
          assert s[j] == b[j - |a|] && b[j - |a|] in b;
          if i >= |a| { assert s[i] == b[i - |a|]; } else { assert a[i] in a; }
        }
      }
    }
  }

  /** The links of the first switches: no child twice, and every child with its parent. */
  ghost predicate Linked(front: seq<Switch>, swmap: map<string, Switch>) {
    && NoRepeats(SubsOf(front)) && ParentMap(front, swmap) && forall c :: c in swmap <==> c in SubsOf(front)
  }

  ghost predicate Owned(front: seq<Switch>, cbmap: map<string, Switch>) {
    && NoRepeats(BlocksBelow(front)) && OwnerMap(front, cbmap) && forall c :: c in cbmap <==> c in BlocksBelow(front)
  }

  lemma SubsStep(parents: seq<Switch>, i: nat, swmap: map<string, Switch>)
    requires i < |parents| && Linked(parents[..i], swmap)
    ensures SubsOf(parents[..i + 1]) == SubsOf(parents[..i]) + parents[i].switches
    ensures NoRepeats(SubsOf(parents[..i + 1])) <==>
            NoRepeats(parents[i].switches) && forall c :: c in parents[i].switches ==> c !in swmap
  {
    assert parents[..i + 1][..i] == parents[..i];
    NoRepeatsConcat(SubsOf(parents[..i]), parents[i].switches);
  }

  lemma LinkedStep(parents: seq<Switch>, i: nat, swmap: map<string, Switch>, more: map<string, Switch>)
    requires i < |parents| && Linked(parents[..i], swmap) && NoRepeats(SubsOf(parents[..i + 1]))
    requires forall c :: c in more <==> c in swmap || c in parents[i].switches
    requires forall c :: c in more ==> more[c] == if c in parents[i].switches then parents[i] else swmap[c]
    ensures Linked(parents[..i + 1], more)
  {
    hide SubsOf, NoRepeats;
    SubsStep(parents, i, swmap);
    assert parents[..i + 1] == parents[..i] + [parents[i]];
  }

  lemma BlocksStep(parents: seq<Switch>, i: nat, cbmap: map<string, Switch>)
    requires i < |parents| && Owned(parents[..i], cbmap)
    ensures BlocksBelow(parents[..i + 1]) == BlocksBelow(parents[..i]) + parents[i].capacityBlocks
    ensures NoRepeats(BlocksBelow(parents[..i + 1])) <==>
            NoRepeats(parents[i].capacityBlocks) && forall c :: c in parents[i].capacityBlocks ==> c !in cbmap
  {
    assert parents[..i + 1][..i] == parents[..i];
    NoRepeatsConcat(BlocksBelow(parents[..i]), parents[i].capacityBlocks);
  }

  lemma OwnedStep(parents: seq<Switch>, i: nat, cbmap: map<string, Switch>, more: map<string, Switch>)
    requires i < |parents| && Owned(parents[..i], cbmap) && NoRepeats(BlocksBelow(parents[..i + 1]))
    requires forall c :: c in more <==> c in cbmap || c in parents[i].capacityBlocks
    requires forall c :: c in more ==> more[c] == if c in parents[i].capacityBlocks then parents[i] else cbmap[c]
    ensures Owned(parents[..i + 1], more)
  {
    hide BlocksBelow, NoRepeats;
    BlocksStep(parents, i, cbmap);
    assert parents[..i + 1] == parents[..i] + [parents[i]];
  }

  /** A repetition among the first switches is one among all. */
  lemma {:induction false} PrefixRepeats(parents: seq<Switch>, i: nat)
    requires i <= |parents|
    ensures NoRepeats(SubsOf(parents)) ==> NoRepeats(SubsOf(parents[..i]))
    ensures NoRepeats(BlocksBelow(parents)) ==> NoRepeats(BlocksBelow(parents[..i]))
  {
    hide NoRepeats;
    if i < |parents| {
      var front, last := parents[..|parents| - 1], parents[|parents| - 1];
      assert front[..i] == parents[..i];
      PrefixRepeats(front, i);
      NoRepeatsConcat(SubsOf(front), last.switches);
      NoRepeatsConcat(BlocksBelow(front), last.capacityBlocks);
    } else {
      assert parents[..i] == parents;
    }
  }

  /** The parent of every switch and the owner of every capacity block; fails if one has two. */
  method MapParents(parents: seq<Switch>) returns (ok: bool, swmap: map<string, Switch>, cbmap: map<string, Switch>)
    ensures ok <==> NoRepeats(SubsOf(parents)) && NoRepeats(BlocksBelow(parents))
    ensures ok ==> Linked(parents, swmap) && Owned(parents, cbmap)
  {
    hide NoRepeats, SubsOf, BlocksBelow, Linked, Owned;
    swmap, cbmap := map[], map[];
    NothingLinked();
    for i := 0 to |parents|
      invariant Linked(parents[..i], swmap) && Owned(parents[..i], cbmap)
    {
      var parent := parents[i];
      PrefixRepeats(parents, i + 1);
      SubsStep(parents, i, swmap);
      BlocksStep(parents, i, cbmap);
      ghost var subs, owners := swmap, cbmap;
      ok, swmap := AddChildren(parent, parent.switches, swmap);
      if !ok { return; }
      ok, cbmap := AddChildren(parent, parent.capacityBlocks, cbmap);
      if !ok { return; }
      LinkedStep(parents, i, subs, swmap);
      OwnedStep(parents, i, owners, cbmap);
    }
    assert parents[..|parents|] == parents;
    LinkedMeans(parents, swmap, cbmap);
    ok := true;
  }

  lemma NothingLinked()
    ensures Linked([], map[]) && Owned([], map[])
  {}

  lemma LinkedMeans(parents: seq<Switch>, swmap: map<string, Switch>, cbmap: map<string, Switch>)
    requires Linked(parents, swmap) && Owned(parents, cbmap)
    ensures NoRepeats(SubsOf(parents)) && NoRepeats(BlocksBelow(parents))
  {}

  // ---------- the nodes ----------

  /** Records the nodes of one block, in the map and in their region, unless a name is taken. */
  method AddNodes(cb: CapacityBlock, metadata: map<string, string>, netLayers: seq<string>, nodes: map<string, Node>,
                  regions: map<string, map<string, string>>)
    returns (ok: bool, more: map<string, Node>, filed: map<string, map<string, string>>)
    requires RegionsAre(nodes, regions)
    ensures ok <==> NoRepeats(cb.nodes) && forall n :: n in cb.nodes ==> n !in nodes
    ensures ok ==> (forall n :: n in more <==> n in nodes || n in cb.nodes)
                   && forall n :: n in more ==> more[n] == if n in cb.nodes then Node(n, metadata, cb.kind, cb.nvlink, netLayers, cb.name) else nodes[n]
    ensures ok ==> RegionsAre(more, filed)
  {
    hide RegionsAre, AddToRegion, RegionOf;
    more, filed := nodes, regions;
    var names := cb.nodes;
    for i := 0 to |names|
      invariant NoRepeats(names[..i]) && forall n :: n in names[..i] ==> n !in nodes
      invariant forall n :: n in more <==> n in nodes || n in names[..i]
      invariant forall n :: n in more ==>
                  more[n] == if n in names[..i] then Node(n, metadata, cb.kind, cb.nvlink, netLayers, cb.name) else nodes[n]
      invariant RegionsAre(more, filed)
    {
      var name := names[i];
      assert names[..i + 1] == names[..i] + [name];
      if name in more {
        assert name in names;
        if name in names[..i] {
          var j :| 0 <= j < i && names[..i][j] == name;
          assert names[j] == name;
        }
        return false, more, filed;
      }
      SnocNoRepeats(names[..i], name);
      var node := Node(name, metadata, cb.kind, cb.nvlink, netLayers, cb.name);
      RegionsAdd(more, filed, name, node);
      more := more[name := node];
      filed := AddToRegion(filed, RegionOf(metadata), name);
    }
    assert names[..|names|] == names;
    ok := true;
  }

  /** The regions in sorted order, each with its instances. */
  method ListRegions(regions: map<string, map<string, string>>) returns (instances: seq<ComputeInstances>)
    ensures ListsRegions(instances, regions)
  {
    var regionNames := SortedKeys(regions.Keys);
    assert forall i :: 0 <= i < |regionNames| ==> regionNames[i] in regionNames;
    instances := [];
    for i := 0 to |regionNames|
      invariant |instances| == i
      invariant forall j :: 0 <= j < i ==> instances[j] == ComputeInstances(regionNames[j], regions[regionNames[j]])
    {
      instances := instances + [ComputeInstances(regionNames[i], regions[regionNames[i]])];
    }
  }

  /** The nodes of all blocks; fails if a switch or block has two parents, if a chain of parents is cyclic,
      or if a node name occurs twice. */
  method SetNodeMap(switches: seq<Switch>, blocks: seq<CapacityBlock>)
    returns (ok: bool, nodes: map<string, Node>, instances: seq<ComputeInstances>, ghost swmap: map<string, Switch>, ghost cbmap: map<string, Switch>)
    ensures !(NoRepeats(SubsOf(switches)) && NoRepeats(BlocksBelow(switches))) ==> !ok
    ensures NoRepeats(SubsOf(switches)) && NoRepeats(BlocksBelow(switches)) ==>
              && Linked(switches, swmap) && Owned(switches, cbmap)
              && (ok <==> NoCycles(swmap, cbmap, blocks) && NoRepeats(NamesOf(blocks)))
              && (ok ==> NodesFor(swmap, cbmap, blocks, nodes))
    ensures ok ==> InstancesFor(nodes, instances)
    ensures ok ==> forall cb, n :: cb in blocks && n in cb.nodes ==>
                     n in nodes && nodes[n].name == n && nodes[n].kind == cb.kind && nodes[n].nvlink == cb.nvlink && nodes[n].capacityBlock == cb.name
  {
    hide NoRepeats, SubsOf, BlocksBelow, Linked, Owned, NamesOf, NodeFor, NoCycles, NodesFor, RegionsAre, ListsRegions;
    var parents, owners;
    ok, parents, owners := MapParents(switches);
    swmap, cbmap, nodes, instances := parents, owners, map[], [];
    if !ok { return; }
    var regions: map<string, map<string, string>> := map[];
    NoNodes(swmap, cbmap);
    for i := 0 to |blocks|
      invariant NodesFor(swmap, cbmap, blocks[..i], nodes) && NoRepeats(NamesOf(blocks[..i])) && NoCycles(swmap, cbmap, blocks[..i])
      invariant RegionsAre(nodes, regions)
    {
      var cb := blocks[i];
      var netLayers: seq<string>, metadata: map<string, string> := [], map[];
      PrefixOf(swmap, cbmap, blocks, i + 1);
      CycleStep(swmap, cbmap, blocks, i);
      if cb.name in owners {
        ok, netLayers, metadata := GetNetworkLayers(owners[cb.name], parents);
        if !ok { return; }
      }
      NamesStep(swmap, cbmap, blocks, i, nodes);
      ghost var before := nodes;
      ok, nodes, regions := AddNodes(cb, metadata, netLayers, nodes, regions);
      if !ok { return; }
      NodesStep(swmap, cbmap, blocks, i, before, nodes, metadata, netLayers);
    }
    assert blocks[..|blocks|] == blocks;
    RecordsMean(swmap, cbmap, blocks, nodes);
    instances := ListRegions(regions);
    ok := true;
  }

  lemma RecordsMean(swmap: map<string, Switch>, cbmap: map<string, Switch>, blocks: seq<CapacityBlock>, nodes: map<string, Node>)
    requires NodesFor(swmap, cbmap, blocks, nodes)
    ensures forall cb, n :: cb in blocks && n in cb.nodes ==>
              n in nodes && nodes[n].name == n && nodes[n].kind == cb.kind && nodes[n].nvlink == cb.nvlink && nodes[n].capacityBlock == cb.name
  {
    hide LayersOf, MetadataOf;
  }

  lemma NoNodes(swmap: map<string, Switch>, cbmap: map<string, Switch>)
    ensures RegionsAre(map[], map[])
    ensures NodesFor(swmap, cbmap, [], map[]) && NoRepeats(NamesOf([])) && NoCycles(swmap, cbmap, [])
  {}

  lemma {:induction false} PrefixOf(swmap: map<string, Switch>, cbmap: map<string, Switch>, blocks: seq<CapacityBlock>, i: nat)
    requires i <= |blocks|
    ensures NoRepeats(NamesOf(blocks)) ==> NoRepeats(NamesOf(blocks[..i]))
    ensures NoCycles(swmap, cbmap, blocks) ==> NoCycles(swmap, cbmap, blocks[..i])
  {
    hide NoRepeats, Cyclic;
    if i < |blocks| {
      var front, last := blocks[..|blocks| - 1], blocks[|blocks| - 1];
      assert front[..i] == blocks[..i];
      PrefixOf(swmap, cbmap, front, i);
      NoRepeatsConcat(NamesOf(front), last.nodes);
    } else {
      assert blocks[..i] == blocks;
    }
  }

  lemma CycleStep(swmap: map<string, Switch>, cbmap: map<string, Switch>, blocks: seq<CapacityBlock>, i: nat)
    requires i < |blocks|
    ensures NoCycles(swmap, cbmap, blocks[..i + 1]) <==>
            NoCycles(swmap, cbmap, blocks[..i]) && (blocks[i].name in cbmap ==> !Cyclic(swmap, cbmap[blocks[i].name]))
  {
    hide Cyclic;
    assert blocks[..i + 1] == blocks[..i] + [blocks[i]];
  }

  lemma NamesStep(swmap: map<string, Switch>, cbmap: map<string, Switch>, blocks: seq<CapacityBlock>, i: nat, nodes: map<string, Node>)
    requires i < |blocks| && NodesFor(swmap, cbmap, blocks[..i], nodes) && NoRepeats(NamesOf(blocks[..i]))
    ensures NoRepeats(NamesOf(blocks[..i + 1])) <==> NoRepeats(blocks[i].nodes) && forall n :: n in blocks[i].nodes ==> n !in nodes
  {
    hide NodeFor, NoRepeats;
    assert blocks[..i + 1][..i] == blocks[..i];
    NoRepeatsConcat(NamesOf(blocks[..i]), blocks[i].nodes);
    NamesAre(blocks[..i]);
  }

  lemma NodesStep(swmap: map<string, Switch>, cbmap: map<string, Switch>, blocks: seq<CapacityBlock>, i: nat,
                  nodes: map<string, Node>, more: map<string, Node>, metadata: map<string, string>, netLayers: seq<string>)
    requires i < |blocks| && NodesFor(swmap, cbmap, blocks[..i], nodes)
    requires LayersOf(swmap, cbmap, blocks[i], netLayers) && metadata == MetadataOf(swmap, cbmap, blocks[i], netLayers)
    requires var cb := blocks[i];
             && (forall n :: n in cb.nodes ==> n !in nodes)
             && (forall n :: n in more <==> n in nodes || n in cb.nodes)
             && forall n :: n in more ==> more[n] == if n in cb.nodes then Node(n, metadata, cb.kind, cb.nvlink, netLayers, cb.name) else nodes[n]
    ensures NodesFor(swmap, cbmap, blocks[..i + 1], more)
  {
    hide LayersOf, MetadataOf;
    assert blocks[..i + 1][..i] == blocks[..i];
    assert blocks[..i + 1] == blocks[..i] + [blocks[i]];
  }
}
