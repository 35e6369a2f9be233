/** The network topology the translation works on: `pkg/translate/topology.go`. */
module Translate {
  import opened Arrivals
  import opened BlockSizes
  import opened BlocksSpec
  import opened BlockUnit
  import opened FakeNodes
  import opened Loading
  import opened Options
  import opened Ordering
  import opened PartitionSpec
  import opened PartitionUnit
  import opened Printing
  import opened SearchOrder
  import opened Topology
  import opened TranslateSpec
  import opened TreeOutput
  import opened Trees
  import opened WalkOrder

  import Cluset
  import ClusetSpec
  import Numerals
  import Text

  method ListChildren(v: Vertex) returns (ids: seq<string>, kids: seq<Vertex>)
    ensures Lists(ids, v.vertices.Keys) && kids == ChildrenAt(v, ids)
  {
    ids, kids := [], [];
    var todo := v.vertices.Keys;
    while todo != {}
      invariant todo <= v.vertices.Keys && forall k :: k in ids <==> k in v.vertices && k !in todo
      invariant kids == ChildrenAt(v, ids)
      invariant forall i, j :: 0 <= i < j < |ids| ==> ids[i] != ids[j]
      decreases todo
    {
      var id :| id in todo;
      todo := todo - {id};
      ids, kids := ids + [id], kids + [v.vertices[id]];
    }
  }

  class NetworkTopology {
    var tree: map<string, seq<string>>   // adjacency list
    var blocks: seq<BlockInfo>
    var vertices: map<string, Vertex>    // object ID to vertex
    var nodeInfo: map<string, NodeInfo>  // node name to its information

    constructor ()
      ensures tree == map[] && blocks == [] && vertices == map[] && nodeInfo == map[]
    {
      tree, blocks, vertices, nodeInfo := map[], [], map[], map[];
    }

    /** Breadth-first traversal of the tree data into adjacency lists. */
    method InitTree(root: Vertex) returns (ghost order: seq<Vertex>)
      requires tree == map[] && vertices == map[] && nodeInfo == map[]
      modifies this`tree, this`vertices, this`nodeInfo
      ensures TOPOLOGY_TREE !in root.vertices ==> tree == map[] && vertices == map[] && nodeInfo == map[]
      ensures TOPOLOGY_TREE in root.vertices ==>
                var t := root.vertices[TOPOLOGY_TREE];
                && BreadthFirst(t, order) && WalkLoaded(order, tree, vertices, nodeInfo)
                && (WellFiled(t) ==> GraphLoaded(t, tree, vertices) && NodesKnown(t, nodeInfo))
      ensures NoBlocksYet(nodeInfo)
    {
      hide WellFiled, BreadthFirst, Tabled, NodesSeen, WalkLoaded, GraphLoaded, NodesKnown, NoBlocksYet, Subs;
      order := [];
      NoNodesNoBlocks();
      if TOPOLOGY_TREE !in root.vertices { return; }
      var t := root.vertices[TOPOLOGY_TREE];
      order := WalkGraph(t);
      ghost var lists := tree;
      SortLists();
      WalkIsLoaded(order, lists, vertices, nodeInfo, tree);
      SeenWithoutBlocks(order, nodeInfo);
      if WellFiled(t) { GraphIsLoaded(t, order, tree, vertices, nodeInfo); }
    }

    /** Visits a vertex once for every path that leads to it. */
    method WalkGraph(t: Vertex) returns (ghost order: seq<Vertex>)
      requires tree == map[] && vertices == map[] && nodeInfo == map[]
      modifies this`tree, this`vertices, this`nodeInfo
      ensures BreadthFirst(t, order) && Tabled(order, tree, vertices) && NodesSeen(order, nodeInfo)
    {
      hide Accounted, Unrolled, BreadthFirst, Tabled, NodesSeen, Subs, Lists, AppendsKids, ToCome, IsNode;
      var queue := [t];
      order := [];
      AccountStart(map[], t);
      UnrolledStart(t);
      NothingTabled();
      while |queue| > 0
        invariant Accounted(map[], t, order, queue) && Unrolled(t, order, queue)
        invariant Tabled(order, tree, vertices) && NodesSeen(order, nodeInfo)
        decreases ToCome(map[], queue, Subs(t))
      {
        var v := queue[0];
        var ids, kids := ListChildren(v);
        KidsListed(v, ids);
        AccountKids(t, order, queue, kids);
        UnrolledStep(t, order, queue, kids);
        FiledIfSeen(order, tree, vertices, v.id);
        TabledStep(order, tree, vertices, v, ids);
        SeenStep(order, nodeInfo, v, v.id !in tree);
        queue := queue[1..];
        FileVertex(v, ids);
        queue := queue + kids;
        order := order + [v];
      }
      assert queue == [];
      WalkedOut(t, order);
    }

    /** Files a vertex when it is first visited, and lists its children on every visit. */
    method FileVertex(v: Vertex, ids: seq<string>)
      modifies this`tree, this`vertices, this`nodeInfo
      ensures tree == old(tree)[v.id := (if v.id in old(tree) then old(tree)[v.id] else []) + ids]
      ensures vertices == if v.id in old(tree) then old(vertices) else old(vertices)[v.id := v]
      ensures nodeInfo == if v.id !in old(tree) && |v.vertices| == 0 then old(nodeInfo)[v.name := NodeInfo(v.id, "", None)]
                          else old(nodeInfo)
    {
      if v.id !in tree {
        tree := tree[v.id := []];
        vertices := vertices[v.id := v];
        if |v.vertices| == 0 {
          nodeInfo := nodeInfo[v.name := NodeInfo(v.id, "", None)];
        }
      }
      tree := tree[v.id := tree[v.id] + ids];
    }

    method SortLists()
      modifies this`tree
      ensures tree.Keys == old(tree).Keys
      ensures forall id :: id in tree ==> tree[id] == SortBy(old(tree)[id], LeqStrings)
    {
      hide SortBy;
      var todo := tree.Keys;
      while todo != {}
        invariant todo <= tree.Keys && tree.Keys == old(tree).Keys
        invariant forall id :: id in todo ==> tree[id] == old(tree)[id]
        invariant forall id :: id in tree && id !in todo ==> tree[id] == SortBy(old(tree)[id], LeqStrings)
        decreases todo
      {
        var id :| id in todo;
        todo := todo - {id};
        tree := tree[id := SortBy(tree[id], LeqStrings)];
      }
    }

    /** The block data, ordered by the tree if there is one. */
    method InitBlocks(root: Vertex) returns (ghost ord: seq<string>, ghost home: map<string, string>, ghost blockMap: map<string, Vertex>)
      requires blocks == [] && (TOPOLOGY_TREE in root.vertices ==> NoBlocksYet(nodeInfo))
      modifies this`blocks, this`nodeInfo
      ensures TOPOLOGY_BLOCK !in root.vertices || |root.vertices[TOPOLOGY_BLOCK].vertices| == 0 ==>
                blocks == [] && nodeInfo == old(nodeInfo)
      ensures TOPOLOGY_BLOCK in root.vertices && |root.vertices[TOPOLOGY_BLOCK].vertices| > 0 && TOPOLOGY_TREE in root.vertices ==>
                var order := BlockOrder(blockMap, home, DfsLeaves(root.vertices[TOPOLOGY_TREE]));
                && ByOrder(root.vertices[TOPOLOGY_BLOCK], ord, old(nodeInfo).Keys, home, blockMap)
                && BlocksListed(blockMap, order, blocks) && NodesIndexed(blockMap, home, order, nodeInfo, old(nodeInfo))
      ensures TOPOLOGY_BLOCK in root.vertices && |root.vertices[TOPOLOGY_BLOCK].vertices| > 0 && TOPOLOGY_TREE !in root.vertices ==>
                var b := root.vertices[TOPOLOGY_BLOCK];
                && KeyOrdered(b, |b.vertices|, blocks, nodeInfo, old(nodeInfo))
                && exists keys :: BlocksByKey(b, keys, blocks, nodeInfo, old(nodeInfo))
      ensures TOPOLOGY_BLOCK in root.vertices && |root.vertices[TOPOLOGY_BLOCK].vertices| > 0 && TOPOLOGY_TREE in root.vertices ==>
                var t, b := root.vertices[TOPOLOGY_TREE], root.vertices[TOPOLOGY_BLOCK];
                BlocksOk(b) && NodesKnown(t, old(nodeInfo)) ==>
                  BlocksWithNodes(t, b, blocks) && BlocksAsSearched(t, blocks) && NodesFollowBlocks(blocks, nodeInfo, old(nodeInfo))
    {
      hide BlocksListed, NodesIndexed, ByOrder, BlockOrder, DfsLeaves, KeyOrdered, BlocksByKey, BlocksOk, NodesKnown, BlocksWithNodes,
           BlocksAsSearched, NodesFollowBlocks;
      ord, home, blockMap := [], map[], map[];
      if TOPOLOGY_BLOCK !in root.vertices { return; }
      var b := root.vertices[TOPOLOGY_BLOCK];
      if |b.vertices| == 0 { return; }
      ghost var base := nodeInfo;
      if TOPOLOGY_TREE in root.vertices {
        var filed;
        filed, ord, home := AssignBlocks(b);
        blockMap := filed;
        OrderBlocks(home, filed, root.vertices[TOPOLOGY_TREE], base);
        var t := root.vertices[TOPOLOGY_TREE];
        if BlocksOk(b) && NodesKnown(t, base) {
          BlocksHaveNodes(t, b, ord, home, blockMap, blocks, nodeInfo, base);
          BlocksComeAsSearched(t, b, ord, home, blockMap, blocks, nodeInfo, base);
          NodesKnowBlocks(t, b, ord, home, blockMap, blocks, nodeInfo, base);
        }
      } else {
        KeyOrderBlocks(b);
        KeyOrderMeans(b, blocks, nodeInfo, base);
      }
    }

    /** Without tree data the blocks come in key order. */
    method KeyOrderBlocks(b: Vertex)
      requires blocks == []
      modifies this`blocks, this`nodeInfo
      ensures KeyOrdered(b, |b.vertices|, blocks, nodeInfo, old(nodeInfo))
    {
      hide HasNode, LastWith, NodeOf;
      var ids := SortedKeys(b.vertices.Keys);
      ghost var base := nodeInfo;
      KeyOrderStart(b, base);
      for indx := 0 to |ids|
        invariant KeyOrdered(b, indx, blocks, nodeInfo, base)
      {
        assert ids[indx] in ids;
        ghost var before := nodeInfo;
        var bInfo := RecordBlock(b.vertices[ids[indx]], ids[indx], indx);
        KeyOrderStep(b, indx, ids[indx], b.vertices[ids[indx]], blocks, before, nodeInfo, base);
        blocks := blocks + [bInfo];
      }
    }

    method RecordBlock(v: Vertex, id: string, indx: nat) returns (bInfo: BlockInfo)
      modifies this`nodeInfo
      ensures bInfo == InfoOf(v, indx)
      ensures forall n :: n in nodeInfo <==> n in old(nodeInfo) || HasNode(v, n)
      ensures forall n :: n in nodeInfo ==> if HasNode(v, n) then NodeOf(v, id, indx, n, nodeInfo[n]) else nodeInfo[n] == old(nodeInfo)[n]
    {
      hide HasNode, NodeOf, Names, SortedKeys;
      var keys := SortedKeys(v.vertices.Keys);
      var names := Names(v);
      for i := 0 to |keys|
        invariant forall n :: n in nodeInfo <==> n in old(nodeInfo) || n in names[..i]
        invariant forall n :: n in nodeInfo ==> if n in names[..i] then NodeOf(v, id, indx, n, nodeInfo[n]) else nodeInfo[n] == old(nodeInfo)[n]
      {
        assert keys[i] in keys;
        NthName(v, i);
        var w := v.vertices[keys[i]];
        assert names[..i + 1] == names[..i] + [w.name];
        NewNode(v, id, indx, keys[i]);
        nodeInfo := nodeInfo[w.name := NodeInfo(w.id, id, Some(indx))];
      }
      assert names[..|keys|] == names;
      bInfo := BlockInfo(v.id, v.name, indx, names);
    }

    /** Tells every node a block it is in; the order in which the blocks are visited decides which. */
    method AssignBlocks(b: Vertex) returns (blockMap: map<string, Vertex>, ghost ord: seq<string>, ghost home: map<string, string>)
      requires NoBlocksYet(nodeInfo)
      modifies this`nodeInfo
      ensures ByOrder(b, ord, old(nodeInfo).Keys, home, blockMap) && NodesIndexed(blockMap, home, [], nodeInfo, old(nodeInfo))
    {
      hide HasNode, NodesIndexed, Assigned, ByOrder, FiledBy, Lists;
      blockMap, ord := map[], [];
      ghost var base := nodeInfo;
      NoneAssigned(b, nodeInfo);
      var todo := b.vertices.Keys;
      assert b.vertices.Keys - todo == {};
      while todo != {}
        invariant todo <= b.vertices.Keys && Lists(ord, b.vertices.Keys - todo)
        invariant Assigned(b, ord, nodeInfo, base) && blockMap == FiledBy(b, ord)
        decreases todo
      {
        var k :| k in todo;
        var block := b.vertices[k];
        blockMap := blockMap[block.id := block];
        ghost var before := nodeInfo;
        SetBlock(block);
        AssignStep(b, ord, b.vertices.Keys - todo, k, before, nodeInfo, base);
        ord := ord + [k];
        assert b.vertices.Keys - (todo - {k}) == b.vertices.Keys - todo + {k};
        todo := todo - {k};
      }
      assert b.vertices.Keys - todo == b.vertices.Keys;
      AllAssigned(b, ord, nodeInfo, base);
      home := map n | n in nodeInfo :: nodeInfo[n].blockID;
    }

    method SetBlock(block: Vertex)
      modifies this`nodeInfo
      ensures nodeInfo.Keys == old(nodeInfo).Keys
      ensures forall n :: n in nodeInfo ==>
                nodeInfo[n] == if HasNode(block, n) then old(nodeInfo)[n].(blockID := block.id) else old(nodeInfo)[n]
    {
      hide HasNode;
      var names := Names(block);
      for i := 0 to |names|
        invariant nodeInfo.Keys == old(nodeInfo).Keys
        invariant forall n :: n in nodeInfo ==>
                    nodeInfo[n] == if n in names[..i] then old(nodeInfo)[n].(blockID := block.id) else old(nodeInfo)[n]
      {
        assert names[..i + 1] == names[..i] + [names[i]];
        if names[i] in nodeInfo {
          nodeInfo := nodeInfo[names[i] := nodeInfo[names[i]].(blockID := block.id)];
        }
      }
    }

    /** Assigns the block index to the nodes of a block. */
    method MarkBlockNodes(block: Vertex, indx: nat) returns (bInfo: BlockInfo)
      modifies this`nodeInfo
      ensures bInfo == InfoOf(block, indx)
      ensures nodeInfo.Keys == old(nodeInfo).Keys
      ensures forall n :: n in nodeInfo ==>
                nodeInfo[n] == if HasNode(block, n) then old(nodeInfo)[n].(blockIndx := Some(indx)) else old(nodeInfo)[n]
    {
      hide HasNode;
      var names := Names(block);
      for i := 0 to |names|
        invariant nodeInfo.Keys == old(nodeInfo).Keys
        invariant forall n :: n in nodeInfo ==>
                    nodeInfo[n] == if n in names[..i] then old(nodeInfo)[n].(blockIndx := Some(indx)) else old(nodeInfo)[n]
      {
        assert names[..i + 1] == names[..i] + [names[i]];
        if names[i] in nodeInfo {
          nodeInfo := nodeInfo[names[i] := nodeInfo[names[i]].(blockIndx := Some(indx))];
        }
      }
      bInfo := BlockInfo(block.id, block.name, indx, names);
    }

    /** Depth-first traversal with an explicit stack: a block is emitted when its first node is met. */
    method OrderBlocks(ghost home: map<string, string>, blockMap: map<string, Vertex>, t: Vertex, ghost base: map<string, NodeInfo>)
      requires blocks == [] && NodesIndexed(blockMap, home, [], nodeInfo, base)
      modifies this`blocks, this`nodeInfo
      ensures var order := BlockOrder(blockMap, home, DfsLeaves(t));
              BlocksListed(blockMap, order, blocks) && NodesIndexed(blockMap, home, order, nodeInfo, base)
      ensures exists nodes :: EmittedBy(t, home, blockMap, blocks, nodes)
    {
      hide EmittedBy, HasBlock, IndexIn, BlocksListed, NodesIndexed, DfsLeaves, BlockOrder, StackLeaves, Emits, StackWeight;
      var indx := 0;
      var stack := [t];
      ghost var visited: seq<Vertex> := [];
      OrderStart(blockMap, home, t);
      while |stack| > 0
        invariant visited + StackLeaves(stack) == DfsLeaves(t)
        invariant BlocksListed(blockMap, BlockOrder(blockMap, home, visited), blocks)
        invariant NodesIndexed(blockMap, home, BlockOrder(blockMap, home, visited), nodeInfo, base)
        invariant indx == |BlockOrder(blockMap, home, visited)|
        decreases StackWeight(stack)
      {
        StackShrinks(stack);
        StackTop(stack);
        var v := stack[0];
        if |v.vertices| == 0 {
          stack := stack[1..];
          OneLeaf(v);
          ghost var order := BlockOrder(blockMap, home, visited);
          LeafInfo(blockMap, home, order, nodeInfo, base, v.name);
          BlockOrderSnoc(blockMap, home, visited, v);
          if v.name in nodeInfo && |nodeInfo[v.name].blockID| != 0 && nodeInfo[v.name].blockIndx.None? {
            if nodeInfo[v.name].blockID in blockMap {
              ghost var before, id := nodeInfo, nodeInfo[v.name].blockID;
              var bInfo := MarkBlockNodes(blockMap[nodeInfo[v.name].blockID], indx);
              EmitBlock(blockMap, home, order, id, before, nodeInfo, base);
              ListBlock(blockMap, order, id, blocks);
              blocks := blocks + [bInfo];
              indx := indx + 1;
            }
          }
          visited := visited + [v];
        } else {
          StackExpand(stack);
          stack := PushKids(v, stack[1..]);
        }
      }
      assert visited + [] == visited;
      ghost var nodes := EmittedAsSearched(t, home, blockMap, blocks);
    }

    // ---------- cluster-wide tree output ----------

    /** Breadth-first traversal of the adjacency lists, printing every vertex it comes to. */
    method ToTreeTopology(ghost t: Vertex) returns (output: Output)
      requires "" in vertices ==> WellFiled(t) && t.id == "" && GraphLoaded(t, tree, vertices)
      ensures if "" in vertices then output.Lines? && GraphPrinted(t, output.lines) else output == MissingVertex("")
    {
      hide WellFiled, GraphLoaded, Accounted, WrittenUpTo, WritesVertex, GraphPrinted, Subs, Waits, InTurn, Ascending, Listings, KidsTimes,
           Factor, ToCome;
      ghost var m := Listings(t);
      ghost var order: seq<Vertex>, waiting: seq<Vertex> := [], [t];
      ListingsPositive(t);
      AccountStart(m, t);
      NothingWritten(t);
      TurnStart(t);
      var queue := [""];
      var lines: seq<Line> := [];
      while |queue| > 0
        invariant |waiting| == |queue|
        invariant "" in vertices ==>
                    Accounted(m, t, order, waiting) && WrittenUpTo(t, order, lines) && Waits(t, order, waiting) && InTurn(order, waiting)
                    && forall i :: 0 <= i < |queue| ==> waiting[i].id == queue[i]
        invariant "" !in vertices ==> queue == [""]
        decreases ToCome(m, waiting, Subs(t))
      {
        var id := queue[0];
        queue := queue[1..];
        if id !in vertices {
          if "" in vertices { FrontLoaded(t, tree, vertices, m, order, waiting); }
          return MissingVertex(id);
        }
        FrontLoaded(t, tree, vertices, m, order, waiting);
        ghost var u := waiting[0];
        FiledKids(t, u);
        ghost var kids := LoadedKids(t, tree, vertices, u);
        var chunk := WriteVertex(vertices[id]);
        WaitsStep(t, order, waiting, kids);
        TurnStep(order, waiting, kids);
        WriteFront(t, order, lines, u, chunk);
        AccountStep(m, t, order, waiting, kids);
        lines := lines + chunk;
        queue := queue + tree[id];
        order, waiting := order + [u], waiting[1..] + kids;
      }
      assert waiting == [];
      GraphWritten(t, order, lines);
      output := Lines(lines);
    }

    // ---------- cluster-wide block output ----------

    /** The blocks with their nodes, padded from the pool if there is one, and the block sizes. */
    method ToBlockTopology(blockSizes: seq<int>, fakeNodePool: string) returns (ok: bool, lines: seq<BlockLine>, sizes: seq<int>)
      requires ClusetSpec.EntryEnds(fakeNodePool)
      ensures sizes != []
      ensures SizesOf(blocks, blockSizes, fakeNodePool != "", sizes)
      ensures var pool := ClusetSpec.Expand([fakeNodePool]);
              if fakeNodePool == "" then
                ok && |lines| == |blocks| && forall i :: 0 <= i < |blocks| ==> lines[i] == LineOf(blocks[i], [])
              else
                && (ok <==> TotalDeficit(blocks, sizes[0]) <= |pool|)
                && PaddedLines(blocks, sizes[0], pool, lines) && (ok ==> |lines| == |blocks|)
                && (!ok ==> |lines| < |blocks| && TotalDeficit(blocks[..|lines| + 1], sizes[0]) > |pool|)
      ensures AreLinesOf(lines, blocks)
    {
      hide SizesOf, AreLinesOf, LineOf, PaddedLine, PaddedLines, ClusetSpec.Expand, ClusetSpec.EntryEnds;
      sizes := GetBlockSize(blocks, blockSizes, |fakeNodePool| != 0);
      SizesNonempty(blocks, blockSizes, |fakeNodePool| != 0, sizes);
      ok := true;
      if |fakeNodePool| == 0 {
        lines := WriteBlocks();
      } else {
        var fnc := new FakeNodeConfig(fakeNodePool);
        fnc.baseBlockSize := sizes[0];
        ok, lines := WritePadded(fnc);
      }
    }

    method WriteBlocks() returns (lines: seq<BlockLine>)
      ensures |lines| == |blocks| && forall i :: 0 <= i < |blocks| ==> lines[i] == LineOf(blocks[i], [])
      ensures AreLinesOf(lines, blocks)
    {
      hide ClusetSpec.Compact;
      lines := [];
      for i := 0 to |blocks|
        invariant |lines| == i && forall j :: 0 <= j < i ==> lines[j] == LineOf(blocks[j], [])
      {
        var bInfo := blocks[i];
        var comment := if |bInfo.name| != 0 then "# " + bInfo.id + "=" + bInfo.name + "\n" else "";
        var parts := Cluset.Compact(bInfo.nodes);
        lines := lines + [BlockLine(comment, bInfo.id, Text.Join(parts, ","))];
      }
      PlainLinesRead(blocks, lines);
    }

    /** The blocks padded to the base size, until the pool runs out. */
    method WritePadded(fnc: FakeNodeConfig) returns (ok: bool, lines: seq<BlockLine>)
      requires fnc.Valid() && fnc.index == 0
      modifies fnc`index
      ensures ok <==> TotalDeficit(blocks, fnc.baseBlockSize) <= |fnc.nodes|
      ensures PaddedLines(blocks, fnc.baseBlockSize, fnc.nodes, lines) && (ok ==> |lines| == |blocks|)
      ensures !ok ==> |lines| < |blocks| && TotalDeficit(blocks[..|lines| + 1], fnc.baseBlockSize) > |fnc.nodes|
      ensures AreLinesOf(lines, blocks)
    {
      hide ClusetSpec.Compact, PaddedLines, PaddedLine, AreLinesOf, TotalDeficit, FakesOf;
      lines := [];
      ghost var base := fnc.baseBlockSize;
      NothingPadded(blocks, base, fnc.nodes);
      NoDeficit(base);
      for i := 0 to |blocks|
        invariant |lines| == i && PaddedLines(blocks, base, fnc.nodes, lines)
        invariant fnc.Valid() && fnc.index == TotalDeficit(blocks[..i], base)
      {
        var bInfo := blocks[i];
        DeficitStep(blocks, base, i);
        var comment := if |bInfo.name| != 0 then "# " + bInfo.id + "=" + bInfo.name + "\n" else "";
        var parts := Cluset.Compact(bInfo.nodes);
        var outputNodeNames := Text.Join(parts, ",");
        if |bInfo.nodes| < fnc.baseBlockSize {
          var fakeNodeNames := fnc.GetFreeFakeNodes(fnc.baseBlockSize - |bInfo.nodes|);
          if fakeNodeNames.None? {
            LinesRead(blocks, base, fnc.nodes, lines);
            return false, lines;
          }
          outputNodeNames := outputNodeNames + "," + fakeNodeNames.value;
        }
        PaddedLineIs(blocks, base, fnc.nodes, i);
        var line := BlockLine(comment, bInfo.id, outputNodeNames);
        LinesStep(blocks, base, fnc.nodes, lines, line);
        lines := lines + [line];
      }
      assert blocks[..|blocks|] == blocks;
      LinesRead(blocks, base, fnc.nodes, lines);
      ok := true;
    }

    // ---------- per-partition output ----------

    /** The switches a partition needs, each with its kept sub-switches and its requested nodes. */
    method GetTreeTopologyUnit(ghost t: Vertex, nodes: seq<string>) returns (unit: TreeUnit)
      requires forall entry :: entry in nodes ==> ClusetSpec.EntryEnds(entry)
      requires WellFiled(t) && t.id == "" && GraphLoaded(t, tree, vertices) && InstancesFrom(t, nodeInfo)
      ensures match unit
              case MissingNode(name) => FirstMissing(ClusetSpec.Expand(nodes), nodeInfo, name)
              case Switches(out) =>
                var names := Elements(ClusetSpec.Expand(nodes));
                (forall n :: n in names ==> n in nodeInfo) && GraphEmitted(t, names, LeafIds(nodeInfo, names), out)
    {
      hide WellFiled, GraphLoaded, InstancesFrom, GraphEmitted, ClusetSpec.EntryEnds;
      var nodeNames := Cluset.Expand(nodes);
      var missing, nodeIDs := FindInstances(nodeNames);
      if missing.Some? { return MissingNode(missing.value); }
      ghost var names := Elements(nodeNames);
      LeavesLookedUp(t, nodeInfo, names);
      assert Elements(nodeIDs) == LeafIds(nodeInfo, names);
      var subtree := GetPartitionTree(t, nodeIDs);
      var out := WriteSwitches(t, LeafIds(nodeInfo, names), subtree, Elements(nodeNames));
      unit := Switches(out);
    }

    /** The instance IDs of the nodes, or the first node that is not known. */
    method FindInstances(nodeNames: seq<string>) returns (missing: Option<string>, nodeIDs: seq<string>)
      ensures missing.Some? ==> FirstMissing(nodeNames, nodeInfo, missing.value)
      ensures missing.None? ==> (forall n :: n in nodeNames ==> n in nodeInfo)
                                && Elements(nodeIDs) == set n | n in nodeNames :: nodeInfo[n].instanceID
    {
      nodeIDs := [];
      for i := 0 to |nodeNames|
        invariant forall n :: n in nodeNames[..i] ==> n in nodeInfo
        invariant |nodeIDs| == i && forall j :: 0 <= j < i ==> nodeIDs[j] == nodeInfo[nodeNames[j]].instanceID
      {
        assert nodeNames[..i + 1] == nodeNames[..i] + [nodeNames[i]];
        if nodeNames[i] !in nodeInfo {
          assert forall j :: 0 <= j < i ==> nodeNames[j] in nodeNames[..i];
          return Some(nodeNames[i]), nodeIDs;
        }
        nodeIDs := nodeIDs + [nodeInfo[nodeNames[i]].instanceID];
      }
      assert nodeNames[..|nodeNames|] == nodeNames;
      missing := None;
    }

    /** The blocks of the requested nodes, renumbered, and the block sizes. */
    method GetBlockTopologyUnit(nodes: seq<string>, blockSizes: seq<int>) returns (out: seq<BlockOut>, sizes: seq<int>)
      requires forall entry :: entry in nodes ==> ClusetSpec.EntryEnds(entry)
      ensures exists infos ::
                && Grouped(ClusetSpec.Expand(nodes), nodeInfo, infos) && Renumbered(infos, out)
                && SizesOf(infos, blockSizes, false, sizes)
      ensures forall i :: 0 <= i < |out| ==> out[i].name == "block" + Numerals.Dec(i)
      ensures out != [] <==> exists n :: n in ClusetSpec.Expand(nodes) && IndexOfNode(nodeInfo, n).Some?
    {
      hide ClusetSpec.Expand, ClusetSpec.Compact, ClusetSpec.EntryEnds, Grouped, Group, SizesOf;
      var nodeNames := Cluset.Expand(nodes);
      var bInfos := CollectBlocks(nodeNames);
      SomeBlock(nodeNames, nodeInfo, bInfos);
      out := [];
      for indx := 0 to |bInfos|
        invariant |out| == indx
        invariant forall i :: 0 <= i < indx ==> out[i] == BlockOut("block" + Numerals.Dec(i), OneLine(bInfos[i].nodes))
      {
        var parts := Cluset.Compact(bInfos[indx].nodes);
        out := out + [BlockOut("block" + Numerals.Dec(indx), Text.Join(parts, ","))];
      }
      sizes := GetBlockSize(bInfos, blockSizes, false);
    }

    method CollectBlocks(nodeNames: seq<string>) returns (bInfos: seq<BlockInfo>)
      ensures Grouped(nodeNames, nodeInfo, bInfos)
    {
      hide Group;
      var blockMap: map<nat, seq<string>> := map[];
      NoGroups(nodeInfo);
      for i := 0 to |nodeNames|
        invariant forall k: nat :: k in blockMap <==> Group(nodeNames[..i], nodeInfo, k) != []
        invariant forall k: nat :: k in blockMap ==> blockMap[k] == Group(nodeNames[..i], nodeInfo, k)
      {
        forall k: nat { GroupSnoc(nodeNames, i, nodeInfo, k); }
        var nodeName := nodeNames[i];
        if nodeName in nodeInfo && nodeInfo[nodeName].blockIndx.Some? {
          var indx := nodeInfo[nodeName].blockIndx.value;
          blockMap := blockMap[indx := (if indx in blockMap then blockMap[indx] else []) + [nodeName]];
        }
      }
      assert nodeNames[..|nodeNames|] == nodeNames;
      bInfos := ListBlocks(blockMap);
      SortedGroups(nodeNames, nodeInfo, bInfos);
      bInfos := SortBy(bInfos, ByIndx);
    }

    method GetPartitionTree(ghost t: Vertex, nodes: seq<string>) returns (subtree: map<string, seq<string>>)
      requires WellFiled(t) && t.id == "" && GraphLoaded(t, tree, vertices)
      ensures Filtered(tree, Required(t, Elements(nodes)), subtree)
    {
      hide WellFiled, GraphLoaded, Required, Filtered, Keeps;
      SubsSelf(t);
      var keep, required := FindRequired(t, t, "", Elements(nodes), {});
      assert {} + Required(t, Elements(nodes)) == Required(t, Elements(nodes));
      subtree := BuildSubTree(required);
    }

    /** Depth-first search: adds the vertices on the way to a leaf, and says whether there is one. */
    method FindRequired(ghost t: Vertex, ghost v: Vertex, node: string, leaves: set<string>, required: set<string>)
      returns (keep: bool, all: set<string>)
      requires WellFiled(t) && GraphLoaded(t, tree, vertices) && v in Subs(t) && v.id == node
      ensures keep <==> Keeps(v, leaves)
      ensures all == required + Required(v, leaves)
      decreases v
    {
      hide Subs, Keeps, Required, KeepsAny, RequiredBelow, WellFiled, GraphLoaded, Elements;
      keep, all := node in leaves, required;
      ChildrenLoaded(t, tree, vertices, v);
      var children := if node in tree then tree[node] else [];
      SearchStarts(v, children, leaves);
      for i := 0 to |children|
        invariant keep <==> node in leaves || KeepsAny(v, children[..i], leaves)
        invariant all == required + RequiredBelow(v, Elements(children[..i]), leaves)
      {
        assert children[i] in children;
        var found, more := FindRequired(t, v.vertices[children[i]], children[i], leaves, all);
        AnySnoc(v, children, i, leaves);
        BelowSnoc(v, children, i, leaves);
        all := more;
        if found { keep := true; }
      }
      assert children[..|children|] == children;
      SearchEnds(v, children, leaves);
      if keep { all := all + {node}; }
    }

    /** Breadth-first traversal of the pruned lists. */
    method WriteSwitches(ghost t: Vertex, ghost leaves: set<string>, subtree: map<string, seq<string>>, names: set<string>)
      returns (out: seq<SwitchOut>)
      requires WellFiled(t) && t.id == "" && GraphLoaded(t, tree, vertices) && LeavesNamed(t, leaves, names)
      requires Filtered(tree, Required(t, leaves), subtree)
      ensures GraphEmitted(t, names, leaves, out)
    {
      hide WellFiled, GraphLoaded, GraphEmitted, LeavesNamed, Filtered, EmittedAlong, ChunkOf, Accounted, Subs, Prune, Waits, InTurn, Ascending,
           SortedBy, Listings, KidsTimes, Factor, ToCome, Repeats, SwitchFor, HasParentIn;
      ghost var m, p := Listings(t), Prune(t, leaves);
      ghost var order: seq<Vertex>, waiting: seq<Vertex> := [], [p];
      ListingsPositive(t);
      PruneWellFiled(t, leaves);
      EmitStart(t, names, leaves);
      TurnStart(p);
      var queue := [""];
      out := [];
      while |queue| > 0
        invariant Accounted(m, p, order, waiting) && EmittedAlong(t, names, leaves, order, out) && Waits(p, order, waiting)
        invariant InTurn(order, waiting)
        invariant |waiting| == |queue| && forall i :: 0 <= i < |queue| ==> waiting[i].id == queue[i]
        decreases ToCome(m, waiting, Subs(p))
      {
        var switchID := queue[0];
        queue := queue[1..];
        ghost var u := waiting[0];
        AccountFront(m, p, order, waiting);
        FrontFacts(t, tree, vertices, leaves, subtree, u);
        ghost var kids: seq<Vertex> := [];
        var more := [];
        if switchID !in subtree {
          NoKids(u, Factor(m, u));
          NoneAscend();
        } else {
          var connects := subtree[switchID];
          kids := KeptFiled(p, u, connects, Factor(m, u));
          if |switchID| != 0 { more := WriteSwitch(t, leaves, vertices[switchID], Elements(connects), names); }
          queue := queue + connects;
        }
        ChunkWritten(t, names, leaves, vertices[switchID], u, more);
        WaitsStep(p, order, waiting, kids);
        TurnStep(order, waiting, kids);
        EmitFront(t, names, leaves, order, out, u, more);
        AccountStep(m, p, order, waiting, kids);
        out := out + more;
        order, waiting := order + [u], waiting[1..] + kids;
      }
      assert waiting == [];
      EmitEnd(t, names, leaves, order, out);
    }

    method BuildSubTree(required: set<string>) returns (subtree: map<string, seq<string>>)
      ensures Filtered(tree, required, subtree)
    {
      subtree := map[];
      var todo := tree.Keys;
      while todo != {}
        invariant todo <= tree.Keys
        invariant forall p :: p in subtree <==> p in tree && p !in todo && p in required && Among(tree[p], required) != []
        invariant forall p :: p in subtree ==> subtree[p] == Among(tree[p], required)
        decreases todo
      {
        var parent :| parent in todo;
        todo := todo - {parent};
        if parent in required {
          var children := tree[parent];
          ghost var before := subtree;
          for i := 0 to |children|
            invariant forall p :: p in subtree <==> p in before || (p == parent && Among(children[..i], required) != [])
            invariant forall p :: p in subtree ==> subtree[p] == if p == parent then Among(children[..i], required) else before[p]
          {
            assert children[..i + 1][..i] == children[..i];
            if children[i] in required {
              subtree := subtree[parent := (if parent in subtree then subtree[parent] else []) + [children[i]]];
            }
          }
          assert children[..|children|] == children;
        }
      }
    }
  }

  /** The collected blocks, in the order in which the map yields them. */
  method ListBlocks(blockMap: map<nat, seq<string>>) returns (bInfos: seq<BlockInfo>)
    ensures forall i, j :: 0 <= i < j < |bInfos| ==> bInfos[i].indx != bInfos[j].indx
    ensures forall b :: b in bInfos ==> b.indx in blockMap && b == BlockInfo("", "", b.indx, blockMap[b.indx])
    ensures forall k :: k in blockMap ==> BlockInfo("", "", k, blockMap[k]) in bInfos
  {
    bInfos := [];
    var todo := blockMap.Keys;
    while todo != {}
      invariant todo <= blockMap.Keys
      invariant forall i, j :: 0 <= i < j < |bInfos| ==> bInfos[i].indx != bInfos[j].indx
      invariant forall b :: b in bInfos ==> b.indx in blockMap && b.indx !in todo && b == BlockInfo("", "", b.indx, blockMap[b.indx])
      invariant forall k :: k in blockMap && k !in todo ==> BlockInfo("", "", k, blockMap[k]) in bInfos
      decreases todo
    {
      var k :| k in todo;
      todo := todo - {k};
      bInfos := bInfos + [BlockInfo("", "", k, blockMap[k])];
    }
  }

  /** The labels of the switches and the names of the nodes among the children, as the map yields them. */
  method SortChildren(v: Vertex) returns (switches: seq<string>, nodes: seq<string>, ghost kids: seq<Vertex>)
    requires forall k :: k in v.vertices ==> v.vertices[k].id == k
    ensures ChildListing(v, kids) && switches == EntriesIn(kids, SwitchList) && nodes == EntriesIn(kids, NodeList)
  {
    hide ChildListing;
    switches, nodes := [], [];
    var ids, all := ListChildren(v);
    FiledListing(v, ids);
    for i := 0 to |all|
      invariant switches == EntriesIn(all[..i], SwitchList) && nodes == EntriesIn(all[..i], NodeList)
    {
      assert all[..i + 1] == all[..i] + [all[i]];
      EntriesSnoc(all[..i], all[i], SwitchList);
      EntriesSnoc(all[..i], all[i], NodeList);
      var w := all[i];
      if |w.vertices| == 0 {
        nodes := nodes + [w.name];
      } else if |w.name| != 0 {
        switches := switches + [w.name];
      } else {
        switches := switches + [w.id];
      }
    }
    assert all[..|all|] == all;
    kids := all;
  }

  /** The lines for one vertex. */
  method WriteVertex(v: Vertex) returns (chunk: seq<Line>)
    requires forall k :: k in v.vertices ==> v.vertices[k].id == k
    ensures WritesVertex(v, chunk)
    ensures forall line :: line in chunk ==>
              && line.name == (if v.name == "" then v.id else v.name)
              && line.comment == (if v.name == "" then "" else "# " + v.name + "=" + v.id + "\n")
    ensures |chunk| <= 2 && (|chunk| == 2 ==> chunk[0].kind == SwitchList && chunk[1].kind == NodeList)
  {
    hide ChildListing, EntriesIn, ClusetSpec.Compact;
    if |v.id| == 0 { return []; }
    var switches, nodes;
    ghost var kids;
    switches, nodes, kids := SortChildren(v);
    var comment, name := "", "";
    if |v.name| == 0 {
      name := v.id;
    } else {
      comment := "# " + v.name + "=" + v.id + "\n";
      name := v.name;
    }
    chunk := [];
    if |switches| != 0 {
      var parts := Cluset.Compact(switches);
      chunk := chunk + [Line(comment, name, SwitchList, Text.Join(parts, ","))];
    }
    if |nodes| != 0 {
      var parts := Cluset.Compact(nodes);
      chunk := chunk + [Line(comment, name, NodeList, Text.Join(parts, ","))];
    }
    assert chunk == LinesFor(v, kids);
  }

  /** The kept sub-switches and the requested nodes among the children, as the map yields them. */
  method ChooseChildren(ghost leaves: set<string>, v: Vertex, connects: set<string>, names: set<string>)
    returns (children: seq<string>, leafNames: seq<string>, ghost kids: seq<Vertex>)
    requires connects == Prune(v, leaves).vertices.Keys && forall k :: k in v.vertices ==> v.vertices[k].id == k
    ensures ChildListing(v, kids) && children == KeptIds(kids, leaves) && leafNames == Among(NodesIn(kids), names)
  {
    hide Prune, Keeps, ChildListing, KeptIds, Among, NodesIn;
    children, leafNames := [], [];
    NothingChosen(leaves, names);
    var ids, all := ListChildren(v);
    FiledListing(v, ids);
    ConnectsAre(v, all, connects, leaves);
    for i := 0 to |all|
      invariant children == KeptIds(all[..i], leaves) && leafNames == Among(NodesIn(all[..i]), names)
    {
      assert all[i] in all;
      assert all[..i + 1] == all[..i] + [all[i]];
      KeptIdsSnoc(all[..i], all[i], leaves);
      ChosenSnoc(all[..i], all[i], names);
      var w := all[i];
      if |w.vertices| == 0 {
        if w.name in names { leafNames := leafNames + [w.name]; }
      } else {
        if w.id in connects { children := children + [w.id]; }
      }
    }
    assert all[..|all|] == all;
    kids := all;
  }

  /** The entry of one switch. */
  method WriteSwitch(ghost t: Vertex, ghost leaves: set<string>, v: Vertex, connects: set<string>, names: set<string>)
    returns (more: seq<SwitchOut>)
    requires WellFiled(t) && LeavesNamed(t, leaves, names) && v in Subs(t) && Prune(v, leaves).vertices != map[]
    requires connects == Prune(v, leaves).vertices.Keys
    ensures |more| == 1 && more[0].name == v.id && SwitchFor(more[0], v, names, leaves)
  {
    hide LeavesNamed, Subs, Prune, ChildListing, KeptIds, Among, NodesIn, ClusetSpec.Compact;
    var children, leafNames;
    ghost var kids;
    children, leafNames, kids := ChooseChildren(leaves, v, connects, names);
    SomethingListed(t, names, leaves, v, kids);
    more := [];
    if |children| != 0 || |leafNames| != 0 {
      var childText, nodeText := "", "";
      if |children| != 0 {
        var parts := Cluset.Compact(children);
        childText := Text.Join(parts, ",");
      }
      if |leafNames| != 0 {
        var parts := Cluset.Compact(leafNames);
        nodeText := Text.Join(parts, ",");
      }
      NothingPrinted();
      more := [SwitchOut(v.id, childText, nodeText)];
      assert Describes(more[0], v, kids, names, leaves);
    }
  }

  /** Pushes the children, so that the largest key ends on top. */
  method PushKids(v: Vertex, rest: seq<Vertex>) returns (stack: seq<Vertex>)
    ensures stack == KidsAt(v, Descending(v.vertices.Keys)) + rest
  {
    hide SortedKeys, KidsAt, Reverse;
    stack := rest;
    var keys := SortedKeys(v.vertices.Keys);
    ReversedKeys(keys);
    PushedNone(v, keys, rest);
    for j := 0 to |keys|
      invariant stack == KidsAt(v, Reverse(keys)[|keys| - j..]) + rest
    {
      assert keys[j] in keys;
      assert Reverse(keys)[|keys| - (j + 1)] == keys[j];
      PushedNext(v, Reverse(keys), |keys| - (j + 1), rest);
      stack := [v.vertices[keys[j]]] + stack;
    }
  }
}
