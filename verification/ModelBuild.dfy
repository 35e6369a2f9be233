/** Building the graph of a model in memory, whatever the model says: `pkg/models/model.go`. */
module ModelBuild {
  import opened ModelGraph
  import opened ModelSpec
  import opened Printing
  import opened TranslateSpec

  /** A vertex object. Filing what a map does not have files nil. */
  class NetVertex {
    const name: string
    const id: string
    var vertices: map<string, NetVertex?>

    constructor (name: string, id: string)
      ensures this.name == name && this.id == id && vertices == map[]
    {
      this.name, this.id := name, id;
      vertices := map[];
    }
  }

  // ---------- what is filed under each key ----------

  datatype Target = ToSwitch(id: string) | ToNode(name: string) | ToNothing

  /** The nodes of the first block with the given name. */
  function FirstNodes(blocks: seq<CapacityBlock>, name: string): seq<string> {
    if blocks == [] then [] else if blocks[0].name == name then blocks[0].nodes else FirstNodes(blocks[1..], name)
  }

  /** The nodes of the last block with the given name. */
  function LastNodes(blocks: seq<CapacityBlock>, name: string): seq<string> {
    if blocks == [] then []
    else if blocks[|blocks| - 1].name == name then blocks[|blocks| - 1].nodes
    else LastNodes(blocks[..|blocks| - 1], name)
  }

  function NodeTargets(nodes: seq<string>): map<string, Target> {
    map n | n in nodes :: ToNode(n)
  }

  function SubTargets(declared: set<string>, subs: seq<string>): map<string, Target> {
    map k | k in subs :: if k in declared then ToSwitch(k) else ToNothing
  }

  function BlockTargets(blocks: seq<CapacityBlock>, names: seq<string>): map<string, Target> {
    if names == [] then map[]
    else BlockTargets(blocks, names[..|names| - 1]) + NodeTargets(FirstNodes(blocks, names[|names| - 1]))
  }

  /** What one switch files: its sub-switches, then the nodes of its blocks; a later key replaces an earlier one. */
  function OwnTargets(declared: set<string>, blocks: seq<CapacityBlock>, s: Switch): map<string, Target> {
    SubTargets(declared, s.switches) + BlockTargets(blocks, s.capacityBlocks)
  }

  /** What is filed on the object of `x` once the first switches have been connected. */
  function Targets(switches: seq<Switch>, blocks: seq<CapacityBlock>, upto: nat, x: string): map<string, Target>
    requires upto <= |switches|
  {
    if upto == 0 then map[]
    else
      var s, before := switches[upto - 1], Targets(switches, blocks, upto - 1, x);
      if s.name == x then before + OwnTargets(SwitchNames(switches), blocks, s) else before
  }

  ghost predicate Points(c: NetVertex?, target: Target, sws: map<string, NetVertex>, leaves: map<string, NetVertex>) {
    match target
    case ToSwitch(k) => k in sws && c == sws[k]
    case ToNode(n) => n in leaves && c == leaves[n]
    case ToNothing => c == null
  }

  ghost predicate WiredAs(c: NetVertex, kids: map<string, Target>, sws: map<string, NetVertex>, leaves: map<string, NetVertex>)
    reads c
  {
    c.vertices.Keys == kids.Keys && forall k :: k in kids ==> Points(c.vertices[k], kids[k], sws, leaves)
  }

  /** All objects carry their IDs, and the first switches have been connected. */
  ghost predicate WiredUpTo(switches: seq<Switch>, blocks: seq<CapacityBlock>, i: nat, sws: map<string, NetVertex>, leaves: map<string, NetVertex>)
    requires i <= |switches|
    reads sws.Values, leaves.Values
  {
    && sws.Keys == SwitchNames(switches)
    && (forall x :: x in sws ==> sws[x].id == x && sws[x].name == "")
    && (forall x :: x in sws ==> WiredAs(sws[x], Targets(switches, blocks, i, x), sws, leaves))
    && (forall n :: n in leaves ==> leaves[n].id == n && leaves[n].name == n && leaves[n].vertices == map[])
  }

  /** The objects of a graph: one per switch and node, linked as the model says, with the roots below the hidden root. */
  ghost predicate Wired(switches: seq<Switch>, blocks: seq<CapacityBlock>, treeRoot: NetVertex,
                        sws: map<string, NetVertex>, leaves: map<string, NetVertex>)
    reads treeRoot, sws.Values, leaves.Values
  {
    && WiredUpTo(switches, blocks, |switches|, sws, leaves)
    && treeRoot.id == "" && (forall x :: x in treeRoot.vertices <==> IsRoot(switches, x))
    && (forall x :: x in treeRoot.vertices ==> treeRoot.vertices[x] == sws[x])
    && treeRoot !in sws.Values && treeRoot !in leaves.Values
  }

  // ---------- connecting ----------

  lemma NodesNext(nodes: seq<string>, i: nat)
    requires i < |nodes|
    ensures NodeTargets(nodes[..i + 1]) == NodeTargets(nodes[..i])[nodes[i] := ToNode(nodes[i])]
  {
    assert nodes[..i + 1] == nodes[..i] + [nodes[i]];
  }

  method FileNodes(c: NetVertex, nodes: seq<string>, ghost kids: map<string, Target>, ghost sws: map<string, NetVertex>,
                   leaves: map<string, NetVertex>)
    requires WiredAs(c, kids, sws, leaves) && forall n :: n in nodes ==> n in leaves
    modifies c
    ensures WiredAs(c, kids + NodeTargets(nodes), sws, leaves)
  {
    assert kids + NodeTargets([]) == kids;
    for i := 0 to |nodes|
      invariant WiredAs(c, kids + NodeTargets(nodes[..i]), sws, leaves)
    {
      assert nodes[i] in nodes;
      NodesNext(nodes, i);
      c.vertices := c.vertices[nodes[i] := leaves[nodes[i]]];
    }
    assert nodes[..|nodes|] == nodes;
  }

  lemma SubsNext(declared: set<string>, subs: seq<string>, i: nat)
    requires i < |subs|
    ensures SubTargets(declared, subs[..i + 1]) ==
            SubTargets(declared, subs[..i])[subs[i] := if subs[i] in declared then ToSwitch(subs[i]) else ToNothing]
  {
    assert subs[..i + 1] == subs[..i] + [subs[i]];
  }

  lemma NoSubTargets(declared: set<string>, kids: map<string, Target>)
    ensures kids + SubTargets(declared, []) == kids
  {}

  method FileSwitches(c: NetVertex, subs: seq<string>, ghost kids: map<string, Target>, sws: map<string, NetVertex>,
                      ghost leaves: map<string, NetVertex>)
    requires WiredAs(c, kids, sws, leaves)
    modifies c
    ensures WiredAs(c, kids + SubTargets(sws.Keys, subs), sws, leaves)
  {
    hide SubTargets, Points, WiredAs;
    NoSubTargets(sws.Keys, kids);
    for i := 0 to |subs|
      invariant WiredAs(c, kids + SubTargets(sws.Keys, subs[..i]), sws, leaves)
    {
      SubsNext(sws.Keys, subs, i);
      var sub: NetVertex? := if subs[i] in sws then sws[subs[i]] else null;
      SubPoints(subs[i], sub, sws, leaves);
      ghost var before, target := SubTargets(sws.Keys, subs[..i]), if subs[i] in sws.Keys then ToSwitch(subs[i]) else ToNothing;
      FileSub(c, kids + before, subs[i], sub, target, sws, leaves);
      assert (kids + before)[subs[i] := target] == kids + before[subs[i] := target];
    }
    assert subs[..|subs|] == subs;
  }

  /** Files one sub-switch, or nil. */
  method FileSub(c: NetVertex, ghost kids: map<string, Target>, k: string, sub: NetVertex?, ghost target: Target,
                 ghost sws: map<string, NetVertex>, ghost leaves: map<string, NetVertex>)
    requires WiredAs(c, kids, sws, leaves) && Points(sub, target, sws, leaves)
    modifies c
    ensures WiredAs(c, kids[k := target], sws, leaves)
  {
    hide Points;
    c.vertices := c.vertices[k := sub];
  }

  lemma SubPoints(k: string, sub: NetVertex?, sws: map<string, NetVertex>, leaves: map<string, NetVertex>)
    requires sub == if k in sws then sws[k] else null
    ensures Points(sub, if k in sws.Keys then ToSwitch(k) else ToNothing, sws, leaves)
  {}

  /** Files the nodes of the first block with the given name. */
  method AddBlock(c: NetVertex, cbname: string, blocks: seq<CapacityBlock>, ghost kids: map<string, Target>,
                  ghost sws: map<string, NetVertex>, leaves: map<string, NetVertex>)
    requires WiredAs(c, kids, sws, leaves) && forall cb, n :: cb in blocks && n in cb.nodes ==> n in leaves
    modifies c
    ensures WiredAs(c, kids + NodeTargets(FirstNodes(blocks, cbname)), sws, leaves)
  {
    for i := 0 to |blocks|
      invariant WiredAs(c, kids, sws, leaves) && FirstNodes(blocks[i..], cbname) == FirstNodes(blocks, cbname)
    {
      var block := blocks[i];
      assert blocks[i..][0] == block && blocks[i..][1..] == blocks[i + 1..];
      if cbname == block.name {
        assert block in blocks;
        FileNodes(c, block.nodes, kids, sws, leaves);
        return;
      }
    }
    assert kids + NodeTargets([]) == kids;
  }

  /** Connects a switch to its sub-switches and to the nodes of its blocks. */
  method WireSwitch(sw: Switch, blocks: seq<CapacityBlock>, ghost kids: map<string, Target>, sws: map<string, NetVertex>,
                    leaves: map<string, NetVertex>)
    requires sw.name in sws && WiredAs(sws[sw.name], kids, sws, leaves)
    requires forall cb, n :: cb in blocks && n in cb.nodes ==> n in leaves
    modifies sws[sw.name]
    ensures WiredAs(sws[sw.name], kids + OwnTargets(sws.Keys, blocks, sw), sws, leaves)
  {
    hide WiredAs, FirstNodes, NodeTargets, SubTargets, BlockTargets;
    var c, cbs := sws[sw.name], sw.capacityBlocks;
    FileSwitches(c, sw.switches, kids, sws, leaves);
    ghost var subs := kids + SubTargets(sws.Keys, sw.switches);
    NoBlockTargets(blocks, subs);
    for i := 0 to |cbs|
      invariant WiredAs(c, subs + BlockTargets(blocks, cbs[..i]), sws, leaves)
    {
      AddBlock(c, cbs[i], blocks, subs + BlockTargets(blocks, cbs[..i]), sws, leaves);
      BlockTargetsNext(blocks, cbs, i, subs);
    }
    assert cbs[..|cbs|] == cbs;
    AddAssociates(kids, SubTargets(sws.Keys, sw.switches), BlockTargets(blocks, cbs));
  }

  lemma AddAssociates(a: map<string, Target>, b: map<string, Target>, c: map<string, Target>)
    ensures a + b + c == a + (b + c)
  {}

  lemma NoBlockTargets(blocks: seq<CapacityBlock>, subs: map<string, Target>)
    ensures subs + BlockTargets(blocks, []) == subs
  {}

  lemma BlockTargetsNext(blocks: seq<CapacityBlock>, cbs: seq<string>, i: nat, subs: map<string, Target>)
    requires i < |cbs|
    ensures subs + BlockTargets(blocks, cbs[..i]) + NodeTargets(FirstNodes(blocks, cbs[i])) == subs + BlockTargets(blocks, cbs[..i + 1])
  {
    hide NodeTargets, FirstNodes;
    assert cbs[..i + 1][..i] == cbs[..i];
    AddAssociates(subs, BlockTargets(blocks, cbs[..i]), NodeTargets(FirstNodes(blocks, cbs[i])));
  }

  lemma TargetsNext(switches: seq<Switch>, blocks: seq<CapacityBlock>, i: nat, x: string)
    requires i < |switches|
    ensures Targets(switches, blocks, i + 1, x) ==
            if switches[i].name == x then Targets(switches, blocks, i, x) + OwnTargets(SwitchNames(switches), blocks, switches[i])
            else Targets(switches, blocks, i, x)
  {}

  lemma ObjectsDiffer(switches: seq<Switch>, blocks: seq<CapacityBlock>, i: nat, sws: map<string, NetVertex>, leaves: map<string, NetVertex>, y: string)
    requires i <= |switches| && WiredUpTo(switches, blocks, i, sws, leaves) && sws.Values !! leaves.Values && y in sws
    ensures forall x :: x in sws && x != y ==> sws[x] != sws[y]
    ensures forall n :: n in leaves ==> leaves[n] != sws[y]
  {
    hide WiredAs, Targets;
    forall x | x in sws && x != y ensures sws[x] != sws[y] { assert sws[x].id != sws[y].id; }
    assert sws[y] in sws.Values && forall n :: n in leaves ==> leaves[n] in leaves.Values;
  }

  method WireAll(switches: seq<Switch>, blocks: seq<CapacityBlock>, sws: map<string, NetVertex>, leaves: map<string, NetVertex>)
    requires WiredUpTo(switches, blocks, 0, sws, leaves) && sws.Values !! leaves.Values
    requires forall cb, n :: cb in blocks && n in cb.nodes ==> n in leaves
    modifies sws.Values
    ensures WiredUpTo(switches, blocks, |switches|, sws, leaves)
  {
    hide WiredAs, Targets, OwnTargets;
    for i := 0 to |switches|
      invariant WiredUpTo(switches, blocks, i, sws, leaves)
    {
      var sw := switches[i];
      assert sw in switches;
      ObjectsDiffer(switches, blocks, i, sws, leaves, sw.name);
      forall x | x in sws { TargetsNext(switches, blocks, i, x); }
      WireSwitch(sw, blocks, Targets(switches, blocks, i, sw.name), sws, leaves);
    }
  }

  // ---------- creating the objects ----------

  method NodeVertices(nodes: map<string, Node>) returns (leaves: map<string, NetVertex>, instance2node: map<string, string>)
    requires forall n :: n in nodes ==> nodes[n].name == n
    ensures leaves.Keys == nodes.Keys && instance2node.Keys == nodes.Keys
    ensures forall n :: n in leaves ==> fresh(leaves[n]) && leaves[n].id == n && leaves[n].name == n && leaves[n].vertices == map[]
    ensures forall n :: n in instance2node ==> instance2node[n] == "n-" + n
  {
    leaves, instance2node := map[], map[];
    var todo := nodes.Keys;
    while todo != {}
      invariant todo <= nodes.Keys && leaves.Keys == nodes.Keys - todo && instance2node.Keys == nodes.Keys - todo
      invariant forall n :: n in leaves ==> fresh(leaves[n]) && leaves[n].id == n && leaves[n].name == n && leaves[n].vertices == map[]
      invariant forall n :: n in instance2node ==> instance2node[n] == "n-" + n
      decreases todo
    {
      var k :| k in todo;
      todo := todo - {k};
      instance2node := instance2node[k := "n-" + k];
      var vertex := new NetVertex(nodes[k].name, nodes[k].name);
      leaves := leaves[k := vertex];
    }
  }

  method SwitchVertices(switches: seq<Switch>) returns (sws: map<string, NetVertex>)
    ensures sws.Keys == SwitchNames(switches)
    ensures forall x :: x in sws ==> fresh(sws[x]) && sws[x].id == x && sws[x].name == "" && sws[x].vertices == map[]
  {
    sws := map[];
    for i := 0 to |switches|
      invariant sws.Keys == SwitchNames(switches[..i])
      invariant forall x :: x in sws ==> fresh(sws[x]) && sws[x].id == x && sws[x].name == "" && sws[x].vertices == map[]
    {
      NamesNext(switches, i);
      var vertex := new NetVertex("", switches[i].name);
      sws := sws[switches[i].name := vertex];
    }
    assert switches[..|switches|] == switches;
  }

  lemma NamesNext(switches: seq<Switch>, i: nat)
    requires i < |switches|
    ensures SwitchNames(switches[..i + 1]) == SwitchNames(switches[..i]) + {switches[i].name}
  {
    assert switches[..i + 1] == switches[..i] + [switches[i]];
  }

  /** The switches no other switch lists. */
  method FindRoots(switches: seq<Switch>) returns (roots: set<string>)
    ensures roots <= SwitchNames(switches) && forall x :: x in roots <==> IsRoot(switches, x)
  {
    roots := SwitchNames(switches);
    for i := 0 to |switches|
      invariant roots <= SwitchNames(switches)
      invariant forall x :: x in roots <==> x in SwitchNames(switches) && forall s :: s in switches[..i] ==> x !in s.switches
    {
      assert switches[..i + 1] == switches[..i] + [switches[i]];
      roots := roots - Elements(switches[i].switches);
    }
    assert switches[..|switches|] == switches;
  }

  method RootOf(keys: set<string>, below: map<string, NetVertex>) returns (root: NetVertex)
    requires keys <= below.Keys
    ensures fresh(root) && root.id == "" && root.vertices.Keys == keys
    ensures forall x :: x in keys ==> root.vertices[x] == below[x]
  {
    root := new NetVertex("", "");
    var todo := keys;
    while todo != {}
      invariant todo <= keys && root.vertices.Keys == keys - todo
      invariant forall x :: x in root.vertices ==> root.vertices[x] == below[x]
      decreases todo
    {
      var k :| k in todo;
      todo := todo - {k};
      root.vertices := root.vertices[k := below[k]];
    }
  }

  // ---------- the blocks ----------

  ghost function BlockNames(blocks: seq<CapacityBlock>): set<string> {
    set cb | cb in blocks :: cb.name
  }

  ghost predicate HasDomains(blocks: seq<CapacityBlock>) {
    exists cb :: cb in blocks && cb.nvlink != ""
  }

  /** The objects of the blocks: one per name, over the nodes of the last block with the name. */
  ghost predicate BlocksWired(blocks: seq<CapacityBlock>, cells: map<string, NetVertex>, leaves: map<string, NetVertex>)
    reads cells.Values
  {
    && cells.Keys == BlockNames(blocks)
    && (forall b :: b in cells ==> cells[b].id == b && cells[b].name == "")
    && forall b :: b in cells ==> WiredAs(cells[b], NodeTargets(LastNodes(blocks, b)), map[], leaves)
  }

  method BlockVertex(cb: CapacityBlock, leaves: map<string, NetVertex>) returns (cell: NetVertex)
    requires forall n :: n in cb.nodes ==> n in leaves
    ensures fresh(cell) && cell.id == cb.name && cell.name == "" && WiredAs(cell, NodeTargets(cb.nodes), map[], leaves)
  {
    cell := new NetVertex("", cb.name);
    FileNodes(cell, cb.nodes, map[], map[], leaves);
    assert map[] + NodeTargets(cb.nodes) == NodeTargets(cb.nodes);
  }

  lemma BlocksNext(blocks: seq<CapacityBlock>, i: nat, cells: map<string, NetVertex>, leaves: map<string, NetVertex>, cell: NetVertex)
    requires i < |blocks| && BlocksWired(blocks[..i], cells, leaves)
    requires cell.id == blocks[i].name && cell.name == "" && WiredAs(cell, NodeTargets(blocks[i].nodes), map[], leaves)
    ensures BlocksWired(blocks[..i + 1], cells[blocks[i].name := cell], leaves)
    ensures HasDomains(blocks[..i + 1]) <==> HasDomains(blocks[..i]) || blocks[i].nvlink != ""
  {
    hide WiredAs, NodeTargets;
    assert blocks[..i + 1] == blocks[..i] + [blocks[i]];
    assert blocks[..i + 1][..i] == blocks[..i];
  }

  /** The vertex of every block, over its nodes. */
  method BlockVertices(blocks: seq<CapacityBlock>, leaves: map<string, NetVertex>) returns (cells: map<string, NetVertex>, blockTopology: bool)
    requires forall cb, n :: cb in blocks && n in cb.nodes ==> n in leaves
    ensures BlocksWired(blocks, cells, leaves) && forall b :: b in cells ==> fresh(cells[b])
    ensures blockTopology <==> HasDomains(blocks)
  {
    hide BlocksWired, NodeTargets;
    cells, blockTopology := map[], false;
    NoBlocksWired(leaves);
    for i := 0 to |blocks|
      invariant BlocksWired(blocks[..i], cells, leaves) && forall b :: b in cells ==> fresh(cells[b])
      invariant blockTopology <==> HasDomains(blocks[..i])
    {
      var cb := blocks[i];
      assert cb in blocks;
      var cell := BlockVertex(cb, leaves);
      BlocksNext(blocks, i, cells, leaves, cell);
      cells := cells[cb.name := cell];
      if cb.nvlink != "" { blockTopology := true; }
    }
    assert blocks[..|blocks|] == blocks;
  }

  lemma NoBlocksWired(leaves: map<string, NetVertex>)
    ensures BlocksWired([], map[], leaves) && !HasDomains([])
  {}

  /** What the two roots hang from: the tree always, the blocks if one of them has an accelerator domain. */
  ghost predicate TwoRoots(blocks: seq<CapacityBlock>, root: NetVertex, treeRoot: NetVertex, blockRoot: NetVertex, cells: map<string, NetVertex>)
    reads root, blockRoot
  {
    && root.vertices == map[TOPOLOGY_TREE := treeRoot] + (if HasDomains(blocks) then map[TOPOLOGY_BLOCK := blockRoot] else map[])
    && blockRoot.id == "" && blockRoot.vertices == cells
  }

  lemma RootKeysDiffer()
    ensures TOPOLOGY_TREE != TOPOLOGY_BLOCK
  {
    assert |TOPOLOGY_TREE| != |TOPOLOGY_BLOCK|;
  }

  /** Puts the blocks below a hidden root, and both roots below one. */
  method TopRoot(ghost blocks: seq<CapacityBlock>, treeRoot: NetVertex, cells: map<string, NetVertex>, blockTopology: bool)
    returns (root: NetVertex, ghost blockRoot: NetVertex)
    requires blockTopology <==> HasDomains(blocks)
    ensures TwoRoots(blocks, root, treeRoot, blockRoot, cells)
  {
    hide HasDomains;
    var blockTree := RootOf(cells.Keys, cells);
    root := new NetVertex("", "");
    if blockTopology { root.vertices := root.vertices[TOPOLOGY_BLOCK := blockTree]; }
    root.vertices := root.vertices[TOPOLOGY_TREE := treeRoot];
    RootKeysDiffer();
    blockRoot := blockTree;
  }

  // ---------- the graph ----------

  /** Connects the switches, and puts those no other lists below a hidden root. */
  method WireTree(switches: seq<Switch>, blocks: seq<CapacityBlock>, sws: map<string, NetVertex>, leaves: map<string, NetVertex>)
    returns (treeRoot: NetVertex)
    requires WiredUpTo(switches, blocks, 0, sws, leaves) && sws.Values !! leaves.Values
    requires forall cb, n :: cb in blocks && n in cb.nodes ==> n in leaves
    modifies sws.Values
    ensures fresh(treeRoot) && Wired(switches, blocks, treeRoot, sws, leaves)
  {
    hide WiredAs, Targets, IsRoot;
    WireAll(switches, blocks, sws, leaves);
    var roots := FindRoots(switches);
    treeRoot := RootOf(roots, sws);
  }

  /** The graph of a model: a vertex per switch, block and node, under hidden roots. */
  method ToGraph(switches: seq<Switch>, blocks: seq<CapacityBlock>, nodes: map<string, Node>)
    returns (root: NetVertex, instance2node: map<string, string>, ghost treeRoot: NetVertex, ghost blockRoot: NetVertex,
             ghost sws: map<string, NetVertex>, ghost leaves: map<string, NetVertex>, ghost cells: map<string, NetVertex>)
    requires forall n :: n in nodes ==> nodes[n].name == n
    requires forall cb, n :: cb in blocks && n in cb.nodes ==> n in nodes
    ensures Wired(switches, blocks, treeRoot, sws, leaves) && leaves.Keys == nodes.Keys
    ensures BlocksWired(blocks, cells, leaves) && TwoRoots(blocks, root, treeRoot, blockRoot, cells)
    ensures "topology/tree" in root.vertices && root.vertices["topology/tree"] == treeRoot
    ensures "topology/block" in root.vertices <==> exists cb :: cb in blocks && cb.nvlink != ""
    ensures "topology/block" in root.vertices ==> root.vertices["topology/block"] == blockRoot
    ensures instance2node.Keys == nodes.Keys && forall n :: n in instance2node ==> instance2node[n] == "n-" + n
  {
    hide WiredAs, HasDomains;
    var nodeVertices, switchVertices, blockVertices, blockTopology, tree;
    nodeVertices, instance2node := NodeVertices(nodes);
    switchVertices := SwitchVertices(switches);
    blockVertices, blockTopology := BlockVertices(blocks, nodeVertices);
    StartWired(switches, blocks, switchVertices, nodeVertices);
    tree := WireTree(switches, blocks, switchVertices, nodeVertices);
    root, blockRoot := TopRoot(blocks, tree, blockVertices, blockTopology);
    treeRoot, sws, leaves, cells := tree, switchVertices, nodeVertices, blockVertices;
    RootKeysDiffer();
    DomainsMean(blocks);
  }

  lemma DomainsMean(blocks: seq<CapacityBlock>)
    ensures HasDomains(blocks) <==> exists cb :: cb in blocks && cb.nvlink != ""
  {}

  lemma StartWired(switches: seq<Switch>, blocks: seq<CapacityBlock>, sws: map<string, NetVertex>, leaves: map<string, NetVertex>)
    requires sws.Keys == SwitchNames(switches) && forall x :: x in sws ==> sws[x].id == x && sws[x].name == "" && sws[x].vertices == map[]
    requires forall n :: n in leaves ==> leaves[n].id == n && leaves[n].name == n && leaves[n].vertices == map[]
    ensures WiredUpTo(switches, blocks, 0, sws, leaves)
  {}

  // ---------- nil vertices ----------

  /** Of several blocks with one name, a switch has the nodes of the first. */
  lemma {:induction false} FirstBlockCounts(blocks: seq<CapacityBlock>, i: nat)
    requires i < |blocks| && forall j :: 0 <= j < i ==> blocks[j].name != blocks[i].name
    ensures FirstNodes(blocks, blocks[i].name) == blocks[i].nodes
  {
    if i > 0 { FirstBlockCounts(blocks[1..], i - 1); }
  }

  /** The vertex of a block has the nodes of the last block with its name. */
  lemma {:induction false} LastBlockCounts(blocks: seq<CapacityBlock>, i: nat)
    requires i < |blocks| && forall j :: i < j < |blocks| ==> blocks[j].name != blocks[i].name
    ensures LastNodes(blocks, blocks[i].name) == blocks[i].nodes
  {
    if i < |blocks| - 1 { LastBlockCounts(blocks[..|blocks| - 1], i); }
  }

  lemma {:induction false} BlockTargetsAre(blocks: seq<CapacityBlock>, names: seq<string>)
    ensures forall k :: k in BlockTargets(blocks, names) <==> exists b :: b in names && k in FirstNodes(blocks, b)
    ensures forall k :: k in BlockTargets(blocks, names) ==> BlockTargets(blocks, names)[k] == ToNode(k)
  {
    hide FirstNodes;
    if names != [] {
      var front, last := names[..|names| - 1], names[|names| - 1];
      assert names == front + [last];
      BlockTargetsAre(blocks, front);
      assert last in names && forall b :: b in front ==> b in names;
      forall k | k in BlockTargets(blocks, names) ensures exists b :: b in names && k in FirstNodes(blocks, b) {
        if k !in FirstNodes(blocks, last) {
          assert k !in NodeTargets(FirstNodes(blocks, last));
          assert k in BlockTargets(blocks, front);
          var b :| b in front && k in FirstNodes(blocks, b);
        }
      }
    }
  }

  /** A switch named `x` lists the undeclared `k`, and neither it nor a later one with the same name has a node `k`. */
  ghost predicate Undeclared(switches: seq<Switch>, blocks: seq<CapacityBlock>, upto: nat, x: string, k: string)
    requires upto <= |switches|
  {
    k !in SwitchNames(switches) && exists i :: 0 <= i < upto && switches[i].name == x && k in switches[i].switches
                                               && NoNodeFrom(switches, blocks, i, upto, x, k)
  }

  ghost predicate NoNodeFrom(switches: seq<Switch>, blocks: seq<CapacityBlock>, i: nat, upto: nat, x: string, k: string)
    requires upto <= |switches|
  {
    forall j :: i <= j < upto && switches[j].name == x ==> k !in BlockTargets(blocks, switches[j].capacityBlocks)
  }

  lemma {:induction false} NothingFiled(switches: seq<Switch>, blocks: seq<CapacityBlock>, upto: nat, x: string, k: string)
    requires upto <= |switches|
    ensures k in Targets(switches, blocks, upto, x) && Targets(switches, blocks, upto, x)[k] == ToNothing
            <==> Undeclared(switches, blocks, upto, x, k)
    decreases upto
  {
    hide BlockTargets;
    if upto > 0 {
      var s := switches[upto - 1];
      NothingFiled(switches, blocks, upto - 1, x, k);
      BlockTargetsAre(blocks, s.capacityBlocks);
      if s.name == x && k in s.switches && k !in BlockTargets(blocks, s.capacityBlocks) {
        assert NoNodeFrom(switches, blocks, upto - 1, upto, x, k);
      }
      UndeclaredStep(switches, blocks, upto, x, k);
    }
  }

  lemma UndeclaredStep(switches: seq<Switch>, blocks: seq<CapacityBlock>, upto: nat, x: string, k: string)
    requires 0 < upto <= |switches|
    ensures var s := switches[upto - 1];
            Undeclared(switches, blocks, upto, x, k) <==>
            if s.name != x then Undeclared(switches, blocks, upto - 1, x, k)
            else k !in BlockTargets(blocks, s.capacityBlocks)
                 && (Undeclared(switches, blocks, upto - 1, x, k) || (k in s.switches && k !in SwitchNames(switches)))
  {
    hide BlockTargets, SwitchNames;
    var s := switches[upto - 1];
    if Undeclared(switches, blocks, upto - 1, x, k) && (s.name != x || k !in BlockTargets(blocks, s.capacityBlocks)) {
      var i :| 0 <= i < upto - 1 && switches[i].name == x && k in switches[i].switches && NoNodeFrom(switches, blocks, i, upto - 1, x, k);
      assert NoNodeFrom(switches, blocks, i, upto, x, k);
    }
    if Undeclared(switches, blocks, upto, x, k) {
      var i :| 0 <= i < upto && switches[i].name == x && k in switches[i].switches && NoNodeFrom(switches, blocks, i, upto, x, k);
      if i < upto - 1 { assert NoNodeFrom(switches, blocks, i, upto - 1, x, k); }
    }
    if s.name == x && k in s.switches && k !in SwitchNames(switches) && k !in BlockTargets(blocks, s.capacityBlocks) {
      assert NoNodeFrom(switches, blocks, upto - 1, upto, x, k);
    }
  }

  /** Some object has nil filed under a key. */
  ghost predicate HasNil(sws: map<string, NetVertex>)
    reads sws.Values
  {
    exists x, k :: x in sws && k in sws[x].vertices && sws[x].vertices[k] == null
  }

  lemma PointsNil(c: NetVertex?, target: Target, sws: map<string, NetVertex>, leaves: map<string, NetVertex>)
    requires Points(c, target, sws, leaves)
    ensures c == null <==> target == ToNothing
  {}

  /** The graph has a nil vertex if and only if a switch lists one that is not declared and no node takes its place. */
  lemma NilExactly(switches: seq<Switch>, blocks: seq<CapacityBlock>, treeRoot: NetVertex, sws: map<string, NetVertex>, leaves: map<string, NetVertex>)
    requires Wired(switches, blocks, treeRoot, sws, leaves)
    ensures HasNil(sws) <==> exists x, k :: Undeclared(switches, blocks, |switches|, x, k)
  {
    hide Targets, Undeclared, Points, IsRoot;
    forall x, k | x in sws && k in sws[x].vertices
      ensures sws[x].vertices[k] == null <==> Undeclared(switches, blocks, |switches|, x, k)
    {
      NothingFiled(switches, blocks, |switches|, x, k);
      PointsNil(sws[x].vertices[k], Targets(switches, blocks, |switches|, x)[k], sws, leaves);
    }
    if x, k :| Undeclared(switches, blocks, |switches|, x, k) {
      NothingFiled(switches, blocks, |switches|, x, k);
      UndeclaredName(switches, blocks, x, k);
    }
  }

  /** Switch `s` files something under `k`: a node of the first block with one of its block names, or a sub-switch. */
  ghost predicate HasNodeOf(blocks: seq<CapacityBlock>, s: Switch, k: string) {
    exists b :: b in s.capacityBlocks && k in FirstNodes(blocks, b)
  }

  ghost predicate FilesUnder(blocks: seq<CapacityBlock>, s: Switch, k: string) {
    k in s.switches || HasNodeOf(blocks, s, k)
  }

  /** Of several entries for one switch, the last with the key decides what is filed under it: a node, or else the
      sub-switch, or else nothing. */
  lemma {:induction false} LastEntryDecides(switches: seq<Switch>, blocks: seq<CapacityBlock>, upto: nat, i: nat, k: string)
    requires i < upto <= |switches| && FilesUnder(blocks, switches[i], k)
    requires forall j :: i < j < upto && switches[j].name == switches[i].name ==> !FilesUnder(blocks, switches[j], k)
    ensures var kids := Targets(switches, blocks, upto, switches[i].name);
            k in kids && kids[k] == if HasNodeOf(blocks, switches[i], k) then ToNode(k)
                                    else if k in SwitchNames(switches) then ToSwitch(k) else ToNothing
  {
    hide FirstNodes, SwitchNames, BlockTargets;
    var s := switches[upto - 1];
    BlockTargetsAre(blocks, s.capacityBlocks);
    if i < upto - 1 { LastEntryDecides(switches, blocks, upto - 1, i, k); }
  }

  lemma UndeclaredName(switches: seq<Switch>, blocks: seq<CapacityBlock>, x: string, k: string)
    requires Undeclared(switches, blocks, |switches|, x, k)
    ensures x in SwitchNames(switches)
  {
    hide BlockTargets;
    var i :| 0 <= i < |switches| && switches[i].name == x;
    assert switches[i] in switches;
  }

  /** If no node is named like a sub-switch, there is no nil vertex if and only if all sub-switches are declared. */
  lemma NilIfUndeclared(switches: seq<Switch>, blocks: seq<CapacityBlock>, treeRoot: NetVertex,
                        sws: map<string, NetVertex>, leaves: map<string, NetVertex>)
    requires Wired(switches, blocks, treeRoot, sws, leaves)
    requires forall s, c, cb :: s in switches && c in s.switches && cb in blocks ==> c !in cb.nodes
    ensures HasNil(sws) <==> exists s, c :: s in switches && c in s.switches && c !in SwitchNames(switches)
  {
    hide Targets, Points, IsRoot, SwitchNames, Wired, HasNil, FirstNodes;
    NilExactly(switches, blocks, treeRoot, sws, leaves);
    if x, k :| Undeclared(switches, blocks, |switches|, x, k) {
      var i :| 0 <= i < |switches| && switches[i].name == x && k in switches[i].switches && NoNodeFrom(switches, blocks, i, |switches|, x, k);
      assert switches[i] in switches;
    }
    if s, c :| s in switches && c in s.switches && c !in SwitchNames(switches) {
      var i :| 0 <= i < |switches| && switches[i] == s;
      forall j | i <= j < |switches| ensures c !in BlockTargets(blocks, switches[j].capacityBlocks) {
        BlockTargetsAre(blocks, switches[j].capacityBlocks);
        forall b ensures c !in FirstNodes(blocks, b) { FirstNodesFrom(blocks, b); }
      }
      assert NoNodeFrom(switches, blocks, i, |switches|, s.name, c);
      assert Undeclared(switches, blocks, |switches|, s.name, c);
    }
  }

  lemma {:induction false} FirstNodesFrom(blocks: seq<CapacityBlock>, name: string)
    ensures forall n :: n in FirstNodes(blocks, name) ==> exists cb :: cb in blocks && cb.name == name && n in cb.nodes
  {
    if blocks != [] {
      assert blocks == [blocks[0]] + blocks[1..];
      FirstNodesFrom(blocks[1..], name);
    }
  }

  /** A model that is loaded without complaint, although its graph has a nil vertex. */
  lemma UndeclaredIsNil(treeRoot: NetVertex, sws: map<string, NetVertex>, leaves: map<string, NetVertex>)
    requires Wired([Switch("a", map[], ["b"], [])], [], treeRoot, sws, leaves)
    ensures HasNil(sws)
  {
    hide Wired, HasNil;
    var s := Switch("a", map[], ["b"], []);
    assert s in [s] && "b" in s.switches && "b" !in SwitchNames([s]);
    NilIfUndeclared([s], [], treeRoot, sws, leaves);
  }

  // ---------- when everything is declared ----------

  lemma {:induction false} FirstNodesAre(blocks: seq<CapacityBlock>, name: string)
    requires forall b, c :: b in blocks && c in blocks && b.name == c.name ==> b == c
    ensures forall n :: n in FirstNodes(blocks, name) <==> exists cb :: cb in blocks && cb.name == name && n in cb.nodes
  {
    if blocks != [] {
      var rest := blocks[1..];
      assert blocks == [blocks[0]] + rest && forall cb :: cb in rest ==> cb in blocks;
      FirstNodesAre(rest, name);
    }
  }

  lemma OwnTargetsAre(switches: seq<Switch>, blocks: seq<CapacityBlock>, s: Switch, k: string)
    requires Declared(switches, blocks) && s in switches
    ensures var own := OwnTargets(SwitchNames(switches), blocks, s);
            && (k in own <==> KidOf(s, blocks, k))
            && (k in own ==> own[k] == if k in SwitchNames(switches) then ToSwitch(k) else ToNode(k))
  {
    hide FirstNodes, SwitchNames;
    BlockTargetsAre(blocks, s.capacityBlocks);
    forall b { FirstNodesAre(blocks, b); }
    if NodeBelow(s, blocks, k) {
      var cb :| cb in blocks && cb.name in s.capacityBlocks && k in cb.nodes;
      assert k in FirstNodes(blocks, cb.name);
    }
  }

  lemma {:induction false} TargetsAre(switches: seq<Switch>, blocks: seq<CapacityBlock>, upto: nat, x: string)
    requires upto <= |switches| && forall i, j :: 0 <= i < j < |switches| ==> switches[i].name != switches[j].name
    ensures forall i :: 0 <= i < upto && switches[i].name == x ==>
              Targets(switches, blocks, upto, x) == OwnTargets(SwitchNames(switches), blocks, switches[i])
    ensures (forall i :: 0 <= i < upto ==> switches[i].name != x) ==> Targets(switches, blocks, upto, x) == map[]
    decreases upto
  {
    hide OwnTargets;
    if upto > 0 {
      TargetsAre(switches, blocks, upto - 1, x);
      var own := OwnTargets(SwitchNames(switches), blocks, switches[upto - 1]);
      assert map[] + own == own;
    }
  }

  /** With everything declared, the keys filed are exactly those of the relation the paths are made of. */
  lemma TargetsFollowModel(switches: seq<Switch>, blocks: seq<CapacityBlock>, x: string, k: string)
    requires Declared(switches, blocks)
    ensures var kids := Targets(switches, blocks, |switches|, x);
            && (k in kids <==> ModelStep(switches, blocks, x, k))
            && (k in kids ==> kids[k] == if k in SwitchNames(switches) then ToSwitch(k) else ToNode(k))
  {
    hide OwnTargets, KidOf, SwitchNames;
    TargetsAre(switches, blocks, |switches|, x);
    if i :| 0 <= i < |switches| && switches[i].name == x {
      assert switches[i] in switches;
      OwnTargetsAre(switches, blocks, switches[i], k);
      forall r | r in switches && r.name == x ensures r == switches[i] { SwitchByName(switches, blocks, r, switches[i]); }
    } else {
      forall s | s in switches ensures s.name != x {
        var i :| 0 <= i < |switches| && switches[i] == s;
      }
    }
  }

  lemma SwitchByName(switches: seq<Switch>, blocks: seq<CapacityBlock>, r: Switch, s: Switch)
    requires Declared(switches, blocks) && r in switches && s in switches && r.name == s.name
    ensures r == s
  {
    var i :| 0 <= i < |switches| && switches[i] == r;
    var j :| 0 <= j < |switches| && switches[j] == s;
  }
}
