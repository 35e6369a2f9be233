/**
 The order in which the translation comes to the compute nodes and to their blocks, read off the tree:
 of two children of a vertex, everything below the one with the larger key comes first (`pkg/translate/topology.go`).
 */
module SearchOrder {
  import opened Arrivals
  import opened BlocksSpec
  import opened Loading
  import opened Options
  import opened Ordering
  import opened Topology
  import opened TranslateSpec
  import opened Trees

  /** Somewhere in the graph, `v` is below a child with a larger key and `w` below one with a smaller key. */
  ghost predicate SearchedBefore(t: Vertex, v: Vertex, w: Vertex) {
    exists u, k, l :: LargerKeyFirst(t, u, k, l, v, w)
  }

  ghost predicate LargerKeyFirst(t: Vertex, u: Vertex, k: string, l: string, v: Vertex, w: Vertex) {
    && u in Subs(t) && k in u.vertices && l in u.vertices && k != l && Leq(l, k)
    && v in Subs(u.vertices[k]) && w in Subs(u.vertices[l])
  }

  lemma SearchedInGraph(t: Vertex, k: string, v: Vertex, w: Vertex)
    requires k in t.vertices && SearchedBefore(t.vertices[k], v, w)
    ensures SearchedBefore(t, v, w)
  {
    hide Subs, Leq;
    var u, m, n :| LargerKeyFirst(t.vertices[k], u, m, n, v, w);
    SubsOfChild(t, k);
    assert LargerKeyFirst(t, u, m, n, v, w);
  }

  ghost predicate Falling(keys: seq<string>) {
    forall i, j :: 0 <= i < j < |keys| ==> Leq(keys[j], keys[i]) && keys[i] != keys[j]
  }

  lemma DescendingFalls(keys: set<string>)
    ensures Falling(Descending(keys))
  {
    hide Leq, Reverse;
    SortedKeysSorted(keys);
  }

  lemma {:induction false} LeavesSearched(u: Vertex)
    ensures forall i, j :: 0 <= i < j < |DfsLeaves(u)| ==> SearchedBefore(u, DfsLeaves(u)[i], DfsLeaves(u)[j])
    decreases u, |u.vertices| + 1
  {
    hide SearchedBefore, Descending;
    if u.vertices != map[] {
      DescendingFalls(u.vertices.Keys);
      LeavesSearchedFrom(u, Descending(u.vertices.Keys));
    }
  }

  lemma {:induction false} LeavesSearchedFrom(u: Vertex, keys: seq<string>)
    requires Falling(keys) && forall k :: k in keys ==> k in u.vertices
    ensures forall i, j :: 0 <= i < j < |DfsFrom(u, keys)| ==> SearchedBefore(u, DfsFrom(u, keys)[i], DfsFrom(u, keys)[j])
    decreases u, |keys|
  {
    hide SearchedBefore, DfsLeaves, Leq;
    if keys != [] {
      var c, rest := u.vertices[keys[0]], DfsFrom(u, keys[1..]);
      LeavesSearched(c);
      LeavesSearchedFrom(u, keys[1..]);
      var n, all := |DfsLeaves(c)|, DfsFrom(u, keys);
      forall i, j | 0 <= i < j < |all| ensures SearchedBefore(u, all[i], all[j]) {
        if j < n {
          SearchedInGraph(u, keys[0], DfsLeaves(c)[i], DfsLeaves(c)[j]);
        } else if i >= n {
          assert all[i] == rest[i - n] && all[j] == rest[j - n];
        } else {
          assert all[i] in DfsLeaves(c) && all[j] in rest;
          AcrossKeys(u, keys, all[i], all[j]);
        }
      }
    }
  }

  lemma AcrossKeys(u: Vertex, keys: seq<string>, v: Vertex, w: Vertex)
    requires Falling(keys) && keys != [] && forall k :: k in keys ==> k in u.vertices
    requires v in DfsLeaves(u.vertices[keys[0]]) && w in DfsFrom(u, keys[1..])
    ensures SearchedBefore(u, v, w)
  {
    hide Subs, DfsLeaves, Leq;
    DfsLeavesAre(u.vertices[keys[0]]);
    var l := BelowSome(u, keys[1..], w);
    var i :| 0 <= i < |keys[1..]| && keys[1..][i] == l;
    assert keys[i + 1] == l;
    SubsSelf(u);
    assert LargerKeyFirst(u, u, keys[0], l, v, w);
  }

  lemma {:induction false} BelowSome(u: Vertex, keys: seq<string>, w: Vertex) returns (l: string)
    requires (forall k :: k in keys ==> k in u.vertices) && w in DfsFrom(u, keys)
    ensures l in keys && w in Subs(u.vertices[l])
  {
    hide Subs, DfsLeaves;
    if w in DfsLeaves(u.vertices[keys[0]]) {
      l := keys[0];
      DfsLeavesAre(u.vertices[l]);
    } else {
      l := BelowSome(u, keys[1..], w);
    }
  }

  // ---------- in a tree, one of two nodes is searched before the other ----------

  /** In a tree, of two vertices with something common below them, one is below the other. */
  lemma {:induction false} Nested(t: Vertex, a: Vertex, b: Vertex, x: Vertex)
    requires IsTree(t) && a in Subs(t) && b in Subs(t) && x in Subs(a) && x in Subs(b)
    ensures a in Subs(b) || b in Subs(a)
    decreases a
  {
    hide WellFiled, OneParent;
    if x != a {
      var k :| k in a.vertices && x in Subs(a.vertices[k]);
      FiledChild(t, a, k);
      Nested(t, a.vertices[k], b, x);
      SubsOfChild(a, k);
      if a.vertices[k] in Subs(b) {
        if a.vertices[k] == b {
          SubsSelf(b);
        } else {
          ParentInside(t, a, k, b);
        }
      }
    }
  }

  /** A child of `a` that is properly below `b` has its parent there. */
  lemma ParentInside(t: Vertex, a: Vertex, k: string, b: Vertex)
    requires IsTree(t) && a in Subs(t) && b in Subs(t) && k in a.vertices && a.vertices[k] in Subs(b) && a.vertices[k] != b
    ensures a in Subs(b)
  {
    hide Subs, WellFiled;
    FiledChild(t, a, k);
    var p, l := ParentOf(b, a.vertices[k]);
    SubsTransitive(t, b, p);
    FiledChild(t, p, l);
  }

  lemma {:induction false} ParentOf(b: Vertex, x: Vertex) returns (p: Vertex, l: string)
    requires x in Subs(b) && x != b
    ensures p in Subs(b) && l in p.vertices && p.vertices[l] == x
  {
    var m :| m in b.vertices && x in Subs(b.vertices[m]);
    if x == b.vertices[m] {
      p, l := b, m;
    } else {
      p, l := ParentOf(b.vertices[m], x);
      SubsOfChild(b, m);
    }
  }

  /** In a tree nothing is below two children of one vertex. */
  lemma ChildrenApart(t: Vertex, u: Vertex, k: string, l: string, x: Vertex)
    requires IsTree(t) && u in Subs(t) && k in u.vertices && l in u.vertices && x in Subs(u.vertices[k]) && x in Subs(u.vertices[l])
    ensures k == l
  {
    hide Subs, WellFiled, OneParent;
    FiledChild(t, u, k);
    FiledChild(t, u, l);
    Nested(t, u.vertices[k], u.vertices[l], x);
    if k != l {
      if u.vertices[k] in Subs(u.vertices[l]) {
        ParentInside(t, u, k, u.vertices[l]);
        NotBelowItself(u, l);
      } else {
        ParentInside(t, u, l, u.vertices[k]);
        NotBelowItself(u, k);
      }
    }
  }

  lemma SameFork(t: Vertex, u: Vertex, k: string, l: string, a: Vertex, v: Vertex, w: Vertex)
    requires IsTree(t) && u in Subs(t) && k in u.vertices && l in u.vertices && k != l
    requires v in Subs(u.vertices[k]) && w in Subs(u.vertices[l])
    requires a in Subs(u) && v in Subs(a) && w in Subs(a)
    ensures a == u
  {
    hide WellFiled, OneParent;
    if a != u {
      var m :| m in u.vertices && a in Subs(u.vertices[m]);
      SubsTransitive(u.vertices[m], a, v);
      SubsTransitive(u.vertices[m], a, w);
      ChildrenApart(t, u, k, m, v);
      ChildrenApart(t, u, l, m, w);
    }
  }

  lemma SearchedOneWay(t: Vertex, v: Vertex, w: Vertex)
    requires IsTree(t) && SearchedBefore(t, v, w)
    ensures !SearchedBefore(t, w, v) && v != w
  {
    hide Subs, WellFiled, OneParent, Leq;
    var u, k, l :| LargerKeyFirst(t, u, k, l, v, w);
    if v == w { ChildrenApart(t, u, k, l, v); }
    if SearchedBefore(t, w, v) {
      var a, m, n :| LargerKeyFirst(t, a, m, n, w, v);
      SubsOfChild(u, k);
      SubsOfChild(u, l);
      SubsOfChild(a, m);
      SubsOfChild(a, n);
      Nested(t, u, a, v);
      if a in Subs(u) { SameFork(t, u, k, l, a, v, w); } else { SameFork(t, a, m, n, u, w, v); }
      ChildrenApart(t, u, k, n, v);
      ChildrenApart(t, u, l, m, w);
      LeqAntisymmetric(k, l);
    }
  }

  /** In a tree the search comes to a compute node before another one if and only if it is below a child with a larger key
      where their ways part. */
  lemma SearchFollowsKeys(t: Vertex, i: nat, j: nat)
    requires IsTree(t) && i < |DfsLeaves(t)| && j < |DfsLeaves(t)|
    ensures i < j <==> SearchedBefore(t, DfsLeaves(t)[i], DfsLeaves(t)[j])
  {
    hide SearchedBefore, WellFiled, OneParent, DfsLeaves;
    LeavesSearched(t);
    var leaves := DfsLeaves(t);
    if SearchedBefore(t, leaves[i], leaves[j]) { SearchedOneWay(t, leaves[i], leaves[j]); }
  }

  // ---------- the blocks ----------

  /** The listed block is the one filed under `k`: its ID, its name, and the names of its nodes. */
  ghost predicate ListedAs(b: Vertex, info: BlockInfo, k: string) {
    && k in b.vertices && info.id == b.vertices[k].id && info.name == b.vertices[k].name
    && |info.nodes| == |b.vertices[k].vertices| && forall n :: n in info.nodes <==> NamedIn(b.vertices[k], n)
  }

  ghost predicate NamedIn(block: Vertex, n: string) {
    exists key :: key in block.vertices && block.vertices[key].name == n
  }

  ghost predicate NodeIn(t: Vertex, v: Vertex) {
    v in Subs(t) && v.vertices == map[]
  }

  /** Every listed block has its position as index; a block is listed, once, exactly if the tree has one of its nodes. */
  ghost predicate BlocksWithNodes(t: Vertex, b: Vertex, blocks: seq<BlockInfo>) {
    && (forall i :: 0 <= i < |blocks| ==> IsListing(b, blocks[i], i))
    && (forall i, j :: 0 <= i < j < |blocks| ==> blocks[i].id != blocks[j].id)
    && (forall k :: k in b.vertices ==> (IsListed(blocks, b.vertices[k].id) <==> HasNodeIn(t, b.vertices[k])))
  }

  ghost predicate IsListing(b: Vertex, info: BlockInfo, i: int) {
    info.indx == i && exists k :: ListedAs(b, info, k)
  }

  ghost predicate IsListed(blocks: seq<BlockInfo>, id: string) {
    exists i :: 0 <= i < |blocks| && blocks[i].id == id
  }

  ghost predicate HasNodeIn(t: Vertex, block: Vertex) {
    exists v :: NodeIn(t, v) && NamedIn(block, v.name)
  }

  /** Of two listed blocks, the earlier one has a node that is searched before all nodes of the later one. */
  ghost predicate BlocksAsSearched(t: Vertex, blocks: seq<BlockInfo>) {
    forall i, j :: 0 <= i < j < |blocks| ==> FirstNodeBefore(t, blocks[i], blocks[j])
  }

  ghost predicate FirstNodeBefore(t: Vertex, x: BlockInfo, y: BlockInfo) {
    exists v :: NodeIn(t, v) && v.name in x.nodes && forall w :: NodeIn(t, w) && w.name in y.nodes ==> SearchedBefore(t, v, w)
  }

  /** Every known node has the ID and the position of the listed block it is in; one that is in none has neither. */
  ghost predicate NodesFollowBlocks(blocks: seq<BlockInfo>, nodeInfo: map<string, NodeInfo>, base: map<string, NodeInfo>) {
    && nodeInfo.Keys == base.Keys
    && (forall n, i: nat :: n in base && i < |blocks| && n in blocks[i].nodes ==>
          nodeInfo[n] == NodeInfo(base[n].instanceID, blocks[i].id, Some(i)))
    && (forall n :: n in base && (forall i: nat :: i < |blocks| ==> n !in blocks[i].nodes) ==>
          nodeInfo[n] == NodeInfo(base[n].instanceID, "", None))
  }

  /** For every listed block there is a node of the tree that was told it, and these nodes are searched in the order of the list. */
  ghost predicate EmittedBy(t: Vertex, home: map<string, string>, blockMap: map<string, Vertex>, blocks: seq<BlockInfo>, nodes: seq<Vertex>) {
    && |nodes| == |blocks|
    && (forall i :: 0 <= i < |blocks| ==> EmittedAt(t, home, blockMap, blocks[i], i, nodes[i]))
    && forall i, j :: 0 <= i < j < |nodes| ==> SearchedBefore(t, nodes[i], nodes[j])
  }

  ghost predicate EmittedAt(t: Vertex, home: map<string, string>, blockMap: map<string, Vertex>, info: BlockInfo, i: int, v: Vertex) {
    && NodeIn(t, v) && v.name in home && home[v.name] in blockMap
    && info.indx == i && info.id == blockMap[home[v.name]].id && info.name == blockMap[home[v.name]].name
    && forall n :: n in info.nodes <==> NamedIn(blockMap[home[v.name]], n)
  }

  ghost predicate Rising(at: seq<nat>, n: nat) {
    (forall i :: 0 <= i < |at| ==> at[i] < n) && forall i, j :: 0 <= i < j < |at| ==> at[i] < at[j]
  }

  /** Where in the search the blocks are emitted. */
  lemma {:induction false} EmittedWhere(blockMap: map<string, Vertex>, home: map<string, string>, leaves: seq<Vertex>) returns (at: seq<nat>)
    ensures |at| == |BlockOrder(blockMap, home, leaves)| && Rising(at, |leaves|)
    ensures forall i :: 0 <= i < |at| ==> leaves[at[i]].name in home && home[leaves[at[i]].name] == BlockOrder(blockMap, home, leaves)[i]
  {
    hide IndexIn, HasBlock;
    if leaves == [] {
      at := [];
    } else {
      var k := |leaves| - 1;
      var before := EmittedWhere(blockMap, home, leaves[..k]);
      at := if Emits(blockMap, home, BlockOrder(blockMap, home, leaves[..k]), leaves[k].name) then before + [k] else before;
    }
  }

  lemma EmittedAsSearched(t: Vertex, home: map<string, string>, blockMap: map<string, Vertex>, blocks: seq<BlockInfo>) returns (nodes: seq<Vertex>)
    requires BlocksListed(blockMap, BlockOrder(blockMap, home, DfsLeaves(t)), blocks)
    ensures EmittedBy(t, home, blockMap, blocks, nodes)
  {
    hide DfsLeaves, BlockOrder, SearchedBefore, NodeIn, EmittedAt;
    var leaves := DfsLeaves(t);
    var at := EmittedWhere(blockMap, home, leaves);
    nodes := seq(|at|, i requires 0 <= i < |at| => leaves[at[i]]);
    LeavesSearched(t);
    forall i | 0 <= i < |blocks| ensures EmittedAt(t, home, blockMap, blocks[i], i, nodes[i]) {
      assert nodes[i] in leaves;
      NodesAreLeaves(t, nodes[i]);
      EmittedInfo(t, home, blockMap, i, nodes[i]);
    }
  }

  lemma EmittedInfo(t: Vertex, home: map<string, string>, blockMap: map<string, Vertex>, i: nat, v: Vertex)
    requires NodeIn(t, v) && v.name in home && home[v.name] in blockMap
    ensures EmittedAt(t, home, blockMap, InfoOf(blockMap[home[v.name]], i), i, v)
  {
    hide HasNode, NamedIn, NodeIn;
    var block := blockMap[home[v.name]];
    forall n ensures n in Names(block) <==> NamedIn(block, n) { NamedIsHas(block, n); }
  }

  lemma NamedIsHas(block: Vertex, n: string)
    ensures NamedIn(block, n) <==> HasNode(block, n)
  {}

  lemma InfoLists(b: Vertex, k: string, i: nat)
    requires k in b.vertices
    ensures ListedAs(b, InfoOf(b.vertices[k], i), k) && InfoOf(b.vertices[k], i).indx == i
  {
    hide HasNode, NamedIn;
    forall n ensures n in Names(b.vertices[k]) <==> NamedIn(b.vertices[k], n) { NamedIsHas(b.vertices[k], n); }
  }

  lemma NodesAreLeaves(t: Vertex, v: Vertex)
    ensures NodeIn(t, v) <==> v in DfsLeaves(t)
  {
    hide DfsLeaves, Subs;
    DfsLeavesAre(t);
  }

  lemma LeavesKnown(t: Vertex, base: map<string, NodeInfo>)
    requires NodesKnown(t, base)
    ensures AllKnown(DfsLeaves(t), base.Keys)
  {
    hide DfsLeaves, Subs;
    DfsLeavesAre(t);
  }

  /** What is listed at `i`, and the block it stands for. */
  lemma ListedBlock(b: Vertex, ord: seq<string>, names: set<string>, home: map<string, string>, blockMap: map<string, Vertex>,
                    order: seq<string>, blocks: seq<BlockInfo>, i: nat) returns (k: string)
    requires IdsDiffer(b) && ByOrder(b, ord, names, home, blockMap) && BlocksListed(blockMap, order, blocks) && i < |blocks|
    ensures i < |order| && order[i] in blockMap && ListedAs(b, blocks[i], k) && blocks[i].indx == i && blocks[i].id == order[i]
    ensures forall n :: n in blocks[i].nodes <==> HasBlock(blockMap, order[i], n)
  {
    hide ByOrder, InfoOf, ListedAs, NamedIn, HasNode;
    k := FiledKey(b, ord, names, home, blockMap, order[i]);
    InfoLists(b, k, i);
    forall n ensures n in blocks[i].nodes <==> HasBlock(blockMap, order[i], n) {
      NamedIsHas(b.vertices[k], n);
      ListedNodes(b, blocks[i], k, n);
    }
    ListedId(b, blocks[i], k);
  }

  lemma ListedNodes(b: Vertex, info: BlockInfo, k: string, n: string)
    requires ListedAs(b, info, k)
    ensures k in b.vertices && (n in info.nodes <==> NamedIn(b.vertices[k], n))
  {}

  lemma ListedId(b: Vertex, info: BlockInfo, k: string)
    requires ListedAs(b, info, k)
    ensures k in b.vertices && info.id == b.vertices[k].id
  {}

  /** What initBlocks has listed and recorded. */
  ghost predicate BlocksLoaded(t: Vertex, b: Vertex, ord: seq<string>, home: map<string, string>, blockMap: map<string, Vertex>,
                               blocks: seq<BlockInfo>, nodeInfo: map<string, NodeInfo>, base: map<string, NodeInfo>) {
    var order := BlockOrder(blockMap, home, DfsLeaves(t));
    && ByOrder(b, ord, base.Keys, home, blockMap)
    && BlocksListed(blockMap, order, blocks) && NodesIndexed(blockMap, home, order, nodeInfo, base)
  }

  lemma OrderDiffers(b: Vertex, ord: seq<string>, names: set<string>, home: map<string, string>, blockMap: map<string, Vertex>,
                     leaves: seq<Vertex>)
    requires IdsDiffer(b) && ByOrder(b, ord, names, home, blockMap) && AllKnown(leaves, names)
    ensures forall i, j :: 0 <= i < j < |BlockOrder(blockMap, home, leaves)| ==>
              BlockOrder(blockMap, home, leaves)[i] != BlockOrder(blockMap, home, leaves)[j]
  {
    hide ByOrder, BlockOrder, IndexIn;
    EmittedOnce(b, ord, names, home, blockMap, leaves);
  }

  lemma BlocksHaveNodes(t: Vertex, b: Vertex, ord: seq<string>, home: map<string, string>, blockMap: map<string, Vertex>,
                        blocks: seq<BlockInfo>, nodeInfo: map<string, NodeInfo>, base: map<string, NodeInfo>)
    requires BlocksOk(b) && NodesKnown(t, base) && BlocksLoaded(t, b, ord, home, blockMap, blocks, nodeInfo, base)
    ensures BlocksWithNodes(t, b, blocks)
  {
    hide NodesIndexed, ByOrder, DfsLeaves, BlockOrder, NodesKnown, AllKnown, BlocksListed, BlocksOk, ListedAs, HasNodeIn, IsListed, IsListing;
    var order := BlockOrder(blockMap, home, DfsLeaves(t));
    BlocksOkIds(b);
    LeavesKnown(t, base);
    AsManyListed(blockMap, order, blocks);
    OrderDiffers(b, ord, base.Keys, home, blockMap, DfsLeaves(t));
    forall i | 0 <= i < |blocks| ensures IsListing(b, blocks[i], i) && blocks[i].id == order[i] {
      var k := ListedBlock(b, ord, base.Keys, home, blockMap, order, blocks, i);
      assert IsListing(b, blocks[i], i) by { ListingFound(b, blocks[i], i, k); }
    }
    forall i, j | 0 <= i < j < |blocks| ensures blocks[i].id != blocks[j].id { assert order[i] != order[j]; }
    forall k | k in b.vertices ensures IsListed(blocks, b.vertices[k].id) <==> HasNodeIn(t, b.vertices[k]) {
      ListedExactly(t, b, ord, home, blockMap, base, k);
      ListedInOrder(blocks, order, b.vertices[k].id);
    }
  }

  lemma ListingFound(b: Vertex, info: BlockInfo, i: int, k: string)
    requires ListedAs(b, info, k) && info.indx == i
    ensures IsListing(b, info, i)
  {}

  lemma ListedInOrder(blocks: seq<BlockInfo>, order: seq<string>, id: string)
    requires |blocks| == |order| && forall i :: 0 <= i < |blocks| ==> blocks[i].id == order[i]
    ensures IsListed(blocks, id) <==> id in order
  {
    if i :| 0 <= i < |blocks| && blocks[i].id == id { assert order[i] in order; }
    if id in order {
      var i :| 0 <= i < |order| && order[i] == id;
      assert blocks[i].id == id;
    }
  }

  /** A block is emitted exactly if the tree has one of its nodes. */
  lemma ListedExactly(t: Vertex, b: Vertex, ord: seq<string>, home: map<string, string>, blockMap: map<string, Vertex>,
                      base: map<string, NodeInfo>, k: string)
    requires BlocksOk(b) && NodesKnown(t, base) && ByOrder(b, ord, base.Keys, home, blockMap) && k in b.vertices
    ensures b.vertices[k].id in BlockOrder(blockMap, home, DfsLeaves(t)) <==> HasNodeIn(t, b.vertices[k])
  {
    hide ByOrder, DfsLeaves, BlockOrder, NodesKnown, AllKnown, HasNode, NamedIn, NodeIn, BlocksOk;
    var id, leaves := b.vertices[k].id, DfsLeaves(t);
    BlocksOkIds(b);
    LeavesKnown(t, base);
    BlockOrderIs(b, ord, base.Keys, home, blockMap, leaves);
    FiledAt(b, ord, base.Keys, home, blockMap, k);
    if id in BlockOrder(blockMap, home, leaves) {
      var v :| v in leaves && HasBlock(blockMap, id, v.name);
      NodesAreLeaves(t, v);
      NamedIsHas(b.vertices[k], v.name);
    }
    if v :| NodeIn(t, v) && NamedIn(b.vertices[k], v.name) {
      NodesAreLeaves(t, v);
      NamedIsHas(b.vertices[k], v.name);
      assert v in leaves && HasBlock(blockMap, id, v.name);
    }
  }

  lemma BlocksComeAsSearched(t: Vertex, b: Vertex, ord: seq<string>, home: map<string, string>, blockMap: map<string, Vertex>,
                             blocks: seq<BlockInfo>, nodeInfo: map<string, NodeInfo>, base: map<string, NodeInfo>)
    requires BlocksOk(b) && NodesKnown(t, base) && BlocksLoaded(t, b, ord, home, blockMap, blocks, nodeInfo, base)
    ensures BlocksAsSearched(t, blocks)
  {
    hide NodesIndexed, ByOrder, DfsLeaves, BlockOrder, NodesKnown, AllKnown, HasBlock, SearchedBefore, NodeIn, ListedAs, IdsOk, NodesApart, InfoOf, IdsDiffer;
    var leaves := DfsLeaves(t);
    var order := BlockOrder(blockMap, home, leaves);
    BlocksOkIds(b);
    LeavesKnown(t, base);
    LeavesSearched(t);
    forall i, j | 0 <= i < j < |blocks| ensures FirstNodeBefore(t, blocks[i], blocks[j]) {
      OrderOfFirstNodes(b, ord, base.Keys, home, blockMap, leaves, i, j);
      var k := ListedBlock(b, ord, base.Keys, home, blockMap, order, blocks, i);
      var l := ListedBlock(b, ord, base.Keys, home, blockMap, order, blocks, j);
      var a :| 0 <= a < |leaves| && HasBlock(blockMap, order[i], leaves[a].name) && forall c :: 0 <= c <= a ==> !HasBlock(blockMap, order[j], leaves[c].name);
      NodesAreLeaves(t, leaves[a]);
      forall w | NodeIn(t, w) && w.name in blocks[j].nodes ensures SearchedBefore(t, leaves[a], w) {
        NodesAreLeaves(t, w);
        var c :| 0 <= c < |leaves| && leaves[c] == w;
        assert c > a;
      }
    }
  }

  lemma NodesKnowBlocks(t: Vertex, b: Vertex, ord: seq<string>, home: map<string, string>, blockMap: map<string, Vertex>,
                        blocks: seq<BlockInfo>, nodeInfo: map<string, NodeInfo>, base: map<string, NodeInfo>)
    requires BlocksOk(b) && NodesKnown(t, base) && BlocksLoaded(t, b, ord, home, blockMap, blocks, nodeInfo, base)
    ensures NodesFollowBlocks(blocks, nodeInfo, base)
  {
    hide ByOrder, DfsLeaves, BlockOrder, NodesKnown, AllKnown, HasBlock, ListedAs, IdsOk, NodesApart, InfoOf, IdsDiffer, IndexIn, BlocksListed;
    var order := BlockOrder(blockMap, home, DfsLeaves(t));
    BlocksOkIds(b);
    AsManyListed(blockMap, order, blocks);
    forall i: nat | i < |blocks| ensures blocks[i].id == order[i] && forall n :: n in blocks[i].nodes <==> HasBlock(blockMap, order[i], n) {
      var k := ListedBlock(b, ord, base.Keys, home, blockMap, order, blocks, i);
    }
    forall n | n in base
      ensures var i := IndexIn(blockMap, order, n);
              if i.Some? then i.value < |blocks| && n in blocks[i.value].nodes && home[n] == blocks[i.value].id
                              && forall j: nat :: j < |blocks| && n in blocks[j].nodes ==> j == i.value
              else home[n] == "" && forall j: nat :: j < |blocks| ==> n !in blocks[j].nodes
    {
      IndexOfKnown(t, b, ord, home, blockMap, base, n);
    }
  }

  lemma AsManyListed(blockMap: map<string, Vertex>, order: seq<string>, blocks: seq<BlockInfo>)
    requires BlocksListed(blockMap, order, blocks)
    ensures |blocks| == |order|
  {}

  lemma IndexOfKnown(t: Vertex, b: Vertex, ord: seq<string>, home: map<string, string>, blockMap: map<string, Vertex>,
                     base: map<string, NodeInfo>, n: string)
    requires BlocksOk(b) && NodesKnown(t, base) && ByOrder(b, ord, base.Keys, home, blockMap) && n in base
    ensures var order := BlockOrder(blockMap, home, DfsLeaves(t));
            var i := IndexIn(blockMap, order, n);
            n in home &&
            if i.Some? then i.value < |order| && HasBlock(blockMap, order[i.value], n) && home[n] == order[i.value]
                            && forall j: nat :: j < |order| && HasBlock(blockMap, order[j], n) ==> j == i.value
            else home[n] == "" && forall j: nat :: j < |order| ==> !HasBlock(blockMap, order[j], n)
  {
    hide ByOrder, DfsLeaves, BlockOrder, AllKnown, HasBlock, IdsOk, NodesApart, IdsDiffer, IndexIn, Subs;
    var order := BlockOrder(blockMap, home, DfsLeaves(t));
    BlocksOkIds(b);
    LeavesKnown(t, base);
    EmittedOnce(b, ord, base.Keys, home, blockMap, DfsLeaves(t));
    IndexIs(blockMap, order, n);
    HomeHas(b, ord, base.Keys, home, blockMap, n);
    var v :| v in Subs(t) && InfoFrom(v, n, base[n]);
    NodesAreLeaves(t, v);
    var i := IndexIn(blockMap, order, n);
    if i.Some? {
      HasHome(b, ord, base.Keys, home, blockMap, order[i.value], n);
      OnlyHome(b, ord, base.Keys, home, blockMap, home[n], order[i.value], n);
      forall j: nat | j < |order| && HasBlock(blockMap, order[j], n) ensures j == i.value {
        OnlyHome(b, ord, base.Keys, home, blockMap, order[j], order[i.value], n);
      }
    }
  }

  // ---------- without a tree ----------

  /** The blocks come by key; a node is told the last block it is in, under the key of that block. */
  ghost predicate BlocksByKey(b: Vertex, keys: seq<string>, blocks: seq<BlockInfo>, nodeInfo: map<string, NodeInfo>, base: map<string, NodeInfo>) {
    && StrictlySorted(keys) && (forall k :: k in keys <==> k in b.vertices) && |blocks| == |keys|
    && (forall i :: 0 <= i < |blocks| ==> blocks[i].indx == i && ListedAs(b, blocks[i], keys[i]))
    && (forall i: nat, n :: LastNamed(b, keys, i, n) ==> TellsOf(b, keys[i], i, n, nodeInfo))
    && (forall n :: n in nodeInfo ==> n in base || exists i: nat :: LastNamed(b, keys, i, n))
  }

  /** The last block, by key, with a node of the given name. */
  ghost predicate LastNamed(b: Vertex, keys: seq<string>, i: nat, n: string) {
    && i < |keys| && keys[i] in b.vertices && NamedIn(b.vertices[keys[i]], n)
    && forall j :: i < j < |keys| && keys[j] in b.vertices ==> !NamedIn(b.vertices[keys[j]], n)
  }

  ghost predicate TellsOf(b: Vertex, k: string, i: nat, n: string, nodeInfo: map<string, NodeInfo>) {
    && n in nodeInfo && nodeInfo[n].blockID == k && nodeInfo[n].blockIndx == Some(i)
    && k in b.vertices && exists key :: key in b.vertices[k].vertices && b.vertices[k].vertices[key].name == n
                                        && b.vertices[k].vertices[key].id == nodeInfo[n].instanceID
  }

  lemma LastAgree(b: Vertex, i: nat, n: string)
    ensures LastNamed(b, SortedKeys(b.vertices.Keys), i, n) <==> LastWith(b, |b.vertices|, i, n)
  {
    hide HasNode, NamedIn;
    var keys := SortedKeys(b.vertices.Keys);
    assert |b.vertices| == |b.vertices.Keys|;
    assert forall j :: 0 <= j < |keys| ==> keys[j] in keys;
    forall j | 0 <= j < |keys| ensures NamedIn(b.vertices[keys[j]], n) <==> HasNode(b.vertices[keys[j]], n) { NamedIsHas(b.vertices[keys[j]], n); }
  }

  lemma KeyOrderLists(b: Vertex, blocks: seq<BlockInfo>)
    requires KeyListed(b, |b.vertices|, blocks)
    ensures var keys := SortedKeys(b.vertices.Keys);
            |blocks| == |keys| && forall i :: 0 <= i < |blocks| ==> blocks[i].indx == i && ListedAs(b, blocks[i], keys[i])
  {
    hide ListedAs, InfoOf, Leq;
    var keys := SortedKeys(b.vertices.Keys);
    assert |b.vertices| == |b.vertices.Keys|;
    forall i | 0 <= i < |blocks| ensures blocks[i].indx == i && ListedAs(b, blocks[i], keys[i]) { InfoLists(b, keys[i], i); }
  }

  lemma KeyOrderTells(b: Vertex, nodeInfo: map<string, NodeInfo>, base: map<string, NodeInfo>, i: nat, n: string)
    requires KeyTold(b, |b.vertices|, nodeInfo, base) && LastNamed(b, SortedKeys(b.vertices.Keys), i, n)
    ensures i < |SortedKeys(b.vertices.Keys)| && TellsOf(b, SortedKeys(b.vertices.Keys)[i], i, n, nodeInfo)
  {
    hide HasNode, NamedIn, LastWith, LastNamed, Leq, TellsOf, ToldBy;
    LastAgree(b, i, n);
    ToldTells(b, i, n, nodeInfo);
  }

  lemma KeyOrderKnows(b: Vertex, nodeInfo: map<string, NodeInfo>, base: map<string, NodeInfo>, n: string)
    requires KeyTold(b, |b.vertices|, nodeInfo, base) && n in nodeInfo && n !in base
    ensures exists i: nat :: LastNamed(b, SortedKeys(b.vertices.Keys), i, n)
  {
    hide HasNode, NamedIn, LastWith, LastNamed, Leq, ToldBy;
    var i: nat :| LastWith(b, |b.vertices|, i, n);
    LastAgree(b, i, n);
  }

  lemma KeyOrderMeans(b: Vertex, blocks: seq<BlockInfo>, nodeInfo: map<string, NodeInfo>, base: map<string, NodeInfo>)
    requires KeyOrdered(b, |b.vertices|, blocks, nodeInfo, base)
    ensures BlocksByKey(b, SortedKeys(b.vertices.Keys), blocks, nodeInfo, base)
  {
    hide ListedAs, Leq, TellsOf, LastNamed, KeyListed, KeyTold;
    var keys := SortedKeys(b.vertices.Keys);
    SortedKeysSorted(b.vertices.Keys);
    KeyOrderLists(b, blocks);
    forall i: nat, n | LastNamed(b, keys, i, n) ensures i < |keys| && TellsOf(b, keys[i], i, n, nodeInfo) {
      KeyOrderTells(b, nodeInfo, base, i, n);
    }
    forall n | n in nodeInfo && n !in base ensures exists i: nat :: LastNamed(b, keys, i, n) {
      KeyOrderKnows(b, nodeInfo, base, n);
    }
  }

  lemma ToldTells(b: Vertex, i: nat, n: string, nodeInfo: map<string, NodeInfo>)
    requires LastWith(b, |b.vertices|, i, n) && ToldBy(b, |b.vertices|, i, n, nodeInfo)
    ensures i < |SortedKeys(b.vertices.Keys)| && TellsOf(b, SortedKeys(b.vertices.Keys)[i], i, n, nodeInfo)
  {}
}
