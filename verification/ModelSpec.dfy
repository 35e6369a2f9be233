/** Network models read from files: `pkg/models/model.go`. */
module ModelSpec {
  import opened Options
  import opened Ordering
  import opened Printing

  datatype Switch = Switch(name: string, metadata: map<string, string>, switches: seq<string>, capacityBlocks: seq<string>)

  datatype CapacityBlock = CapacityBlock(name: string, kind: string, nvlink: string, nodes: seq<string>)

  datatype Node = Node(name: string, metadata: map<string, string>, kind: string, nvlink: string,
                       netLayers: seq<string>, capacityBlock: string)

  // ---------- who is above whom ----------

  /** All sub-switches listed by the given switches. */
  function SubsOf(parents: seq<Switch>): seq<string> {
    if parents == [] then [] else SubsOf(parents[..|parents| - 1]) + parents[|parents| - 1].switches
  }

  function BlocksBelow(parents: seq<Switch>): seq<string> {
    if parents == [] then [] else BlocksBelow(parents[..|parents| - 1]) + parents[|parents| - 1].capacityBlocks
  }

  /** Maps every listed sub-switch to the switch that lists it. */
  ghost predicate ParentMap(parents: seq<Switch>, swmap: map<string, Switch>) {
    && (forall c :: c in swmap ==> swmap[c] in parents && c in swmap[c].switches)
    && (forall p, c :: p in parents && c in p.switches ==> c in swmap && swmap[c] == p)
  }

  ghost predicate OwnerMap(parents: seq<Switch>, cbmap: map<string, Switch>) {
    && (forall c :: c in cbmap ==> cbmap[c] in parents && c in cbmap[c].capacityBlocks)
    && (forall p, c :: p in parents && c in p.capacityBlocks ==> c in cbmap && cbmap[c] == p)
  }

  // ---------- the chain of parents ----------

  /** The k-th switch above `sw`, if there is one. */
  function SwitchAbove(swmap: map<string, Switch>, sw: Switch, k: nat): Option<Switch> {
    if k == 0 then Some(sw)
    else
      var below := SwitchAbove(swmap, sw, k - 1);
      if below.Some? && below.value.name in swmap then Some(swmap[below.value.name]) else None
  }

  /** The chain comes back to a name. */
  ghost predicate Cyclic(swmap: map<string, Switch>, sw: Switch) {
    exists i: nat, j: nat :: i < j && SameAt(swmap, sw, i, j)
  }

  ghost predicate SameAt(swmap: map<string, Switch>, sw: Switch, i: nat, j: nat) {
    var a, b := SwitchAbove(swmap, sw, i), SwitchAbove(swmap, sw, j);
    a.Some? && b.Some? && a.value.name == b.value.name
  }

  /** The names from `sw` up to a switch without a parent. */
  ghost predicate IsChain(swmap: map<string, Switch>, sw: Switch, layers: seq<string>) {
    && ChainSoFar(swmap, sw, layers)
    && layers != [] && SwitchAbove(swmap, sw, |layers|) == None && NoRepeats(layers)
  }

  ghost predicate ChainSoFar(swmap: map<string, Switch>, sw: Switch, layers: seq<string>) {
    forall i :: 0 <= i < |layers| ==> NameAbove(swmap, sw, i) == Some(layers[i])
  }

  function NameAbove(swmap: map<string, Switch>, sw: Switch, i: nat): Option<string> {
    if SwitchAbove(swmap, sw, i).Some? then Some(SwitchAbove(swmap, sw, i).value.name) else None
  }

  /** The metadata of the chain; a higher switch overrides a lower one. */
  function Metadata(swmap: map<string, Switch>, sw: Switch, k: nat): map<string, string> {
    if k == 0 then map[]
    else
      var s := SwitchAbove(swmap, sw, k - 1);
      Metadata(swmap, sw, k - 1) + if s.Some? then s.value.metadata else map[]
  }

  lemma {:induction false} NothingAbove(swmap: map<string, Switch>, sw: Switch, n: nat, k: nat)
    requires n <= k && SwitchAbove(swmap, sw, n) == None
    ensures SwitchAbove(swmap, sw, k) == None
  {
    if n < k { NothingAbove(swmap, sw, n, k - 1); }
  }

  lemma ChainSpan(swmap: map<string, Switch>, sw: Switch, layers: seq<string>, k: nat)
    requires IsChain(swmap, sw, layers)
    ensures SwitchAbove(swmap, sw, k).Some? <==> k < |layers|
    ensures k < |layers| ==> NameAbove(swmap, sw, k) == Some(layers[k]) && SwitchAbove(swmap, sw, k).value.name == layers[k]
  {
    if k >= |layers| {
      NothingAbove(swmap, sw, |layers|, k);
    } else {
      assert NameAbove(swmap, sw, k) == Some(layers[k]);
    }
  }

  /** A chain that ends without a repetition has none. */
  lemma ChainNotCyclic(swmap: map<string, Switch>, sw: Switch, layers: seq<string>)
    requires IsChain(swmap, sw, layers)
    ensures !Cyclic(swmap, sw)
  {
    hide SwitchAbove;
    if i: nat, j: nat :| i < j && SameAt(swmap, sw, i, j) {
      ChainSpan(swmap, sw, layers, i);
      ChainSpan(swmap, sw, layers, j);
    }
  }

  /** The chain is determined by the parent map. */
  lemma ChainUnique(swmap: map<string, Switch>, sw: Switch, a: seq<string>, b: seq<string>)
    requires IsChain(swmap, sw, a) && IsChain(swmap, sw, b)
    ensures a == b
  {
    hide SwitchAbove;
    ChainSpan(swmap, sw, a, |b|);
    ChainSpan(swmap, sw, b, |a|);
    ChainSpan(swmap, sw, a, |a|);
    ChainSpan(swmap, sw, b, |b|);
    forall i | 0 <= i < |a| ensures a[i] == b[i] {
      ChainSpan(swmap, sw, a, i);
      ChainSpan(swmap, sw, b, i);
    }
  }

  // ---------- what a node is told ----------

  ghost predicate LayersOf(swmap: map<string, Switch>, cbmap: map<string, Switch>, cb: CapacityBlock, layers: seq<string>) {
    if cb.name in cbmap then IsChain(swmap, cbmap[cb.name], layers) else layers == []
  }

  function MetadataOf(swmap: map<string, Switch>, cbmap: map<string, Switch>, cb: CapacityBlock, layers: seq<string>): map<string, string> {
    if cb.name in cbmap then Metadata(swmap, cbmap[cb.name], |layers|) else map[]
  }

  ghost predicate NodeFor(swmap: map<string, Switch>, cbmap: map<string, Switch>, cb: CapacityBlock, name: string, node: Node) {
    && node.name == name && node.kind == cb.kind && node.nvlink == cb.nvlink && node.capacityBlock == cb.name
    && LayersOf(swmap, cbmap, cb, node.netLayers) && node.metadata == MetadataOf(swmap, cbmap, cb, node.netLayers)
  }

  function NamesOf(blocks: seq<CapacityBlock>): seq<string> {
    if blocks == [] then [] else NamesOf(blocks[..|blocks| - 1]) + blocks[|blocks| - 1].nodes
  }

  /** Every node of every block is recorded, with what its block and the switches above it say. */
  ghost predicate NodesFor(swmap: map<string, Switch>, cbmap: map<string, Switch>, blocks: seq<CapacityBlock>, nodes: map<string, Node>) {
    && (forall cb, n :: cb in blocks && n in cb.nodes ==> n in nodes && NodeFor(swmap, cbmap, cb, n, nodes[n]))
    && (forall n :: n in nodes ==> n in NamesOf(blocks))
  }

  ghost predicate NoCycles(swmap: map<string, Switch>, cbmap: map<string, Switch>, blocks: seq<CapacityBlock>) {
    forall cb :: cb in blocks && cb.name in cbmap ==> !Cyclic(swmap, cbmap[cb.name])
  }

  lemma {:induction false} NamesAre(blocks: seq<CapacityBlock>)
    ensures forall n :: n in NamesOf(blocks) <==> exists cb :: cb in blocks && n in cb.nodes
  {
    if blocks != [] {
      var front, last := blocks[..|blocks| - 1], blocks[|blocks| - 1];
      assert blocks == front + [last];
      NamesAre(front);
    }
  }

  /** The metadata of a node: under each key, the value of the highest switch of the chain that has one. */
  lemma {:induction false} HighestDecides(swmap: map<string, Switch>, sw: Switch, k: nat, i: nat, key: string)
    requires i < k && SwitchAbove(swmap, sw, i).Some? && key in SwitchAbove(swmap, sw, i).value.metadata
    requires forall j :: i < j < k && SwitchAbove(swmap, sw, j).Some? ==> key !in SwitchAbove(swmap, sw, j).value.metadata
    ensures key in Metadata(swmap, sw, k) && Metadata(swmap, sw, k)[key] == SwitchAbove(swmap, sw, i).value.metadata[key]
  {
    hide SwitchAbove;
    if i < k - 1 { HighestDecides(swmap, sw, k - 1, i, key); }
  }

  lemma {:induction false} MetadataFrom(swmap: map<string, Switch>, sw: Switch, k: nat, key: string)
    requires key in Metadata(swmap, sw, k)
    ensures exists i: nat :: i < k && SwitchAbove(swmap, sw, i).Some? && key in SwitchAbove(swmap, sw, i).value.metadata
  {
    hide SwitchAbove;
    var s := SwitchAbove(swmap, sw, k - 1);
    if !(s.Some? && key in s.value.metadata) { MetadataFrom(swmap, sw, k - 1, key); }
  }

  // ---------- instances by region ----------

  datatype ComputeInstances = ComputeInstances(region: string, instances: map<string, string>)

  function RegionOf(metadata: map<string, string>): string {
    if "region" in metadata then metadata["region"] else "none"
  }

  /** Every node is filed under its region, and nothing else is. */
  ghost predicate RegionsAre(nodes: map<string, Node>, regions: map<string, map<string, string>>) {
    && (forall n :: n in nodes ==> InRegion(regions, RegionOf(nodes[n].metadata), n))
    && (forall r :: r in regions ==> regions[r] != map[])
    && (forall r, n :: InRegion(regions, r, n) ==> n in nodes && RegionOf(nodes[n].metadata) == r && regions[r][n] == "n-" + n)
  }

  ghost predicate InRegion(regions: map<string, map<string, string>>, r: string, n: string) {
    r in regions && n in regions[r]
  }

  function AddToRegion(regions: map<string, map<string, string>>, r: string, n: string): map<string, map<string, string>> {
    regions[r := (if r in regions then regions[r] else map[])[n := "n-" + n]]
  }

  lemma RegionsAdd(nodes: map<string, Node>, regions: map<string, map<string, string>>, n: string, node: Node)
    requires RegionsAre(nodes, regions) && n !in nodes
    ensures RegionsAre(nodes[n := node], AddToRegion(regions, RegionOf(node.metadata), n))
  {
    hide RegionOf, AddToRegion;
    var r := RegionOf(node.metadata);
    var more, all := AddToRegion(regions, r, n), nodes[n := node];
    forall q | q in more ensures more[q] != map[] { RegionGrows(regions, r, n, q); }
    forall q, x | InRegion(more, q, x) ensures x in all && RegionOf(all[x].metadata) == q && more[q][x] == "n-" + x {
      InRegionAdds(regions, r, n, q, x);
    }
    forall x | x in all ensures InRegion(more, RegionOf(all[x].metadata), x) {
      InRegionAdds(regions, r, n, RegionOf(all[x].metadata), x);
    }
  }

  lemma RegionGrows(regions: map<string, map<string, string>>, r: string, n: string, q: string)
    requires q in AddToRegion(regions, r, n) && (q in regions ==> regions[q] != map[])
    ensures AddToRegion(regions, r, n)[q] != map[]
  {
    if q == r { assert n in AddToRegion(regions, r, n)[q]; }
  }

  lemma InRegionAdds(regions: map<string, map<string, string>>, r: string, n: string, q: string, x: string)
    ensures InRegion(AddToRegion(regions, r, n), q, x) <==> InRegion(regions, q, x) || (q == r && x == n)
    ensures InRegion(AddToRegion(regions, r, n), q, x) ==>
              AddToRegion(regions, r, n)[q][x] == if q == r && x == n then "n-" + n else regions[q][x]
  {}

  /** The regions in sorted order. */
  ghost predicate ListsRegions(instances: seq<ComputeInstances>, regions: map<string, map<string, string>>) {
    var keys := SortedKeys(regions.Keys);
    && |instances| == |keys|
    && forall i :: 0 <= i < |keys| ==> keys[i] in regions && instances[i] == ComputeInstances(keys[i], regions[keys[i]])
  }

  /** What setNodeMap records besides the nodes. */
  ghost predicate InstancesFor(nodes: map<string, Node>, instances: seq<ComputeInstances>) {
    exists regions :: RegionsAre(nodes, regions) && ListsRegions(instances, regions)
  }

  lemma RegionsOrdered(instances: seq<ComputeInstances>, regions: map<string, map<string, string>>, i: nat, j: nat)
    requires ListsRegions(instances, regions) && i < j < |instances|
    ensures Leq(instances[i].region, instances[j].region) && instances[i].region != instances[j].region
  {
    SortedKeysSorted(regions.Keys);
    hide Leq, SortedKeys;
  }

  lemma RegionHolds(nodes: map<string, Node>, instances: seq<ComputeInstances>, regions: map<string, map<string, string>>, i: nat, n: string)
    requires RegionsAre(nodes, regions) && ListsRegions(instances, regions) && i < |instances|
    ensures n in instances[i].instances <==> n in nodes && RegionOf(nodes[n].metadata) == instances[i].region
    ensures n in instances[i].instances ==> instances[i].instances[n] == "n-" + n
  {
    hide RegionOf, SortedKeys;
    assert n in instances[i].instances <==> InRegion(regions, instances[i].region, n);
  }

  lemma RegionFound(nodes: map<string, Node>, instances: seq<ComputeInstances>, regions: map<string, map<string, string>>, n: string) returns (i: nat)
    requires RegionsAre(nodes, regions) && ListsRegions(instances, regions) && n in nodes
    ensures i < |instances| && n in instances[i].instances
  {
    hide RegionOf;
    var r, keys := RegionOf(nodes[n].metadata), SortedKeys(regions.Keys);
    assert InRegion(regions, r, n);
    assert r in regions.Keys;
    assert r in keys;
    i :| 0 <= i < |keys| && keys[i] == r;
  }

  /** The regions come in order and none twice; every node is in the list of its region and in no other. */
  lemma InstancesPartitioned(nodes: map<string, Node>, instances: seq<ComputeInstances>)
    requires InstancesFor(nodes, instances)
    ensures forall i, j :: 0 <= i < j < |instances| ==> Leq(instances[i].region, instances[j].region) && instances[i].region != instances[j].region
    ensures forall i, n :: 0 <= i < |instances| ==>
              (n in instances[i].instances
               <==> n in nodes && instances[i].region
                                  == if "region" in nodes[n].metadata then nodes[n].metadata["region"] else "none")
    ensures forall i, n :: 0 <= i < |instances| && n in instances[i].instances ==> instances[i].instances[n] == "n-" + n
    ensures forall n :: n in nodes ==> exists i :: 0 <= i < |instances| && n in instances[i].instances
  {
    hide Leq, RegionsAre, ListsRegions;
    var regions :| RegionsAre(nodes, regions) && ListsRegions(instances, regions);
    forall i, j | 0 <= i < j < |instances| ensures Leq(instances[i].region, instances[j].region) && instances[i].region != instances[j].region {
      RegionsOrdered(instances, regions, i, j);
    }
    forall i, n | 0 <= i < |instances|
      ensures n in instances[i].instances ==> instances[i].instances[n] == "n-" + n
      ensures n in instances[i].instances
              <==> n in nodes && instances[i].region
                                 == if "region" in nodes[n].metadata then nodes[n].metadata["region"] else "none"
    {
      RegionHolds(nodes, instances, regions, i, n);
    }
    forall n | n in nodes ensures exists i :: 0 <= i < |instances| && n in instances[i].instances {
      var i := RegionFound(nodes, instances, regions, n);
    }
  }
}
