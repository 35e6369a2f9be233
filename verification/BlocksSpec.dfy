/** Which blocks are emitted, in which order, and which index every node gets. */
module BlocksSpec {
  import opened Loading
  import opened Options
  import opened Ordering
  import opened Topology
  import opened TranslateSpec
  import opened Trees

  // ---------- block data ----------

  ghost predicate HasNode(block: Vertex, n: string) {
    exists k :: k in block.vertices && block.vertices[k].name == n
  }

  ghost predicate IdsDiffer(b: Vertex) {
    forall k, l :: k in b.vertices && l in b.vertices && b.vertices[k].id == b.vertices[l].id ==> k == l
  }

  /** Block IDs are distinct and not empty. */
  ghost predicate IdsOk(b: Vertex) {
    IdsDiffer(b) && forall k :: k in b.vertices ==> b.vertices[k].id != ""
  }

  /** A node is in at most one block. */
  ghost predicate NodesApart(b: Vertex) {
    forall k, l, n :: k in b.vertices && l in b.vertices && HasNode(b.vertices[k], n) && HasNode(b.vertices[l], n) ==> k == l
  }

  ghost predicate BlocksOk(b: Vertex) {
    IdsOk(b) && NodesApart(b)
  }

  /** The block filed under the ID has the node. */
  ghost predicate HasBlock(blockMap: map<string, Vertex>, id: string, n: string) {
    id in blockMap && HasNode(blockMap[id], n)
  }

  // ---------- one order of iteration ----------

  /** The block a node is told last when the blocks are visited in the given order. */
  ghost function LastHome(b: Vertex, ord: seq<string>, n: string): string {
    if ord == [] then ""
    else
      var k := ord[|ord| - 1];
      if k in b.vertices && HasNode(b.vertices[k], n) then b.vertices[k].id else LastHome(b, ord[..|ord| - 1], n)
  }

  /** The block filed last under each ID. */
  ghost function FiledBy(b: Vertex, ord: seq<string>): map<string, Vertex> {
    if ord == [] then map[]
    else
      var k, filed := ord[|ord| - 1], FiledBy(b, ord[..|ord| - 1]);
      if k in b.vertices then filed[b.vertices[k].id := b.vertices[k]] else filed
  }

  /** `ord` is an order in which the map of blocks may be iterated; it decides the block of all nodes together. */
  ghost predicate ByOrder(b: Vertex, ord: seq<string>, names: set<string>, home: map<string, string>, blockMap: map<string, Vertex>) {
    && Lists(ord, b.vertices.Keys) && home.Keys == names
    && (forall n :: n in names ==> home[n] == LastHome(b, ord, n))
    && blockMap == FiledBy(b, ord)
  }

  lemma {:induction false} LastHomeIs(b: Vertex, ord: seq<string>, n: string)
    ensures LastHome(b, ord, n) != "" ==>
              exists k :: k in ord && k in b.vertices && HasNode(b.vertices[k], n) && b.vertices[k].id == LastHome(b, ord, n)
    ensures IdsOk(b) && (exists k :: k in ord && k in b.vertices && HasNode(b.vertices[k], n)) ==> LastHome(b, ord, n) != ""
  {
    hide HasNode, IdsDiffer;
    if ord != [] {
      var front, last := ord[..|ord| - 1], ord[|ord| - 1];
      assert ord == front + [last];
      LastHomeIs(b, front, n);
    }
  }

  lemma {:induction false} FiledByIs(b: Vertex, ord: seq<string>)
    ensures forall id :: id in FiledBy(b, ord) ==> exists k :: k in ord && k in b.vertices && b.vertices[k].id == id && FiledBy(b, ord)[id] == b.vertices[k]
    ensures forall k :: k in ord && k in b.vertices ==> b.vertices[k].id in FiledBy(b, ord)
  {
    if ord != [] {
      var front, last := ord[..|ord| - 1], ord[|ord| - 1];
      assert ord == front + [last];
      FiledByIs(b, front);
    }
  }

  lemma FiledAt(b: Vertex, ord: seq<string>, names: set<string>, home: map<string, string>, blockMap: map<string, Vertex>, k: string)
    requires IdsDiffer(b) && ByOrder(b, ord, names, home, blockMap) && k in b.vertices
    ensures b.vertices[k].id in blockMap && blockMap[b.vertices[k].id] == b.vertices[k]
  {
    hide LastHome;
    FiledByIs(b, ord);
  }

  lemma FiledKey(b: Vertex, ord: seq<string>, names: set<string>, home: map<string, string>, blockMap: map<string, Vertex>, id: string)
    returns (k: string)
    requires ByOrder(b, ord, names, home, blockMap) && id in blockMap
    ensures k in b.vertices && b.vertices[k].id == id && blockMap[id] == b.vertices[k]
  {
    hide LastHome;
    FiledByIs(b, ord);
    k :| k in ord && k in b.vertices && b.vertices[k].id == id && blockMap[id] == b.vertices[k];
  }

  lemma HomeHas(b: Vertex, ord: seq<string>, names: set<string>, home: map<string, string>, blockMap: map<string, Vertex>, n: string)
    requires IdsDiffer(b) && ByOrder(b, ord, names, home, blockMap) && n in names
    ensures home.Keys == names
    ensures home[n] != "" ==> HasBlock(blockMap, home[n], n)
    ensures IdsOk(b) && (exists k :: k in b.vertices && HasNode(b.vertices[k], n)) ==> home[n] != ""
  {
    hide HasNode, FiledBy;
    LastHomeIs(b, ord, n);
    if home[n] != "" {
      var k :| k in ord && k in b.vertices && HasNode(b.vertices[k], n) && b.vertices[k].id == home[n];
      FiledAt(b, ord, names, home, blockMap, k);
    }
  }

  lemma OnlyHome(b: Vertex, ord: seq<string>, names: set<string>, home: map<string, string>, blockMap: map<string, Vertex>,
                 x: string, y: string, n: string)
    requires BlocksOk(b) && ByOrder(b, ord, names, home, blockMap) && HasBlock(blockMap, x, n) && HasBlock(blockMap, y, n)
    ensures x == y
  {
    hide HasNode, ByOrder;
    var k := FiledKey(b, ord, names, home, blockMap, x);
    var l := FiledKey(b, ord, names, home, blockMap, y);
  }

  // ---------- depth-first order ----------

  function Reverse<T>(s: seq<T>): (r: seq<T>)
    ensures |r| == |s| && forall i :: 0 <= i < |s| ==> r[i] == s[|s| - 1 - i]
  {
    if s == [] then [] else Reverse(s[1..]) + [s[0]]
  }

  function Descending(keys: set<string>): (r: seq<string>)
    ensures |r| == |keys| && forall k :: k in r <==> k in keys
  {
    var up := SortedKeys(keys);
    var r := Reverse(up);
    assert forall k :: k in r ==> k in up;
    assert forall i :: 0 <= i < |up| ==> up[i] == r[|up| - 1 - i];
    r
  }

  /** The compute nodes below `v` in recursive depth-first order, children by descending key. */
  ghost function DfsLeaves(v: Vertex): seq<Vertex>
    decreases v, |v.vertices| + 1
  {
    if v.vertices == map[] then [v] else DfsFrom(v, Descending(v.vertices.Keys))
  }

  ghost function DfsFrom(v: Vertex, keys: seq<string>): seq<Vertex>
    requires forall k :: k in keys ==> k in v.vertices
    decreases v, |keys|
  {
    if keys == [] then [] else DfsLeaves(v.vertices[keys[0]]) + DfsFrom(v, keys[1..])
  }

  /** What is still to come when the stack is as given. */
  ghost function StackLeaves(stack: seq<Vertex>): seq<Vertex> {
    if stack == [] then [] else DfsLeaves(stack[0]) + StackLeaves(stack[1..])
  }

  function KidsAt(v: Vertex, keys: seq<string>): (kids: seq<Vertex>)
    requires forall k :: k in keys ==> k in v.vertices
    ensures |kids| == |keys| && forall i :: 0 <= i < |keys| ==> kids[i] == v.vertices[keys[i]]
  {
    seq(|keys|, i requires 0 <= i < |keys| => v.vertices[keys[i]])
  }

  lemma {:induction false} StackOfKids(v: Vertex, keys: seq<string>, rest: seq<Vertex>)
    requires forall k :: k in keys ==> k in v.vertices
    ensures StackLeaves(KidsAt(v, keys) + rest) == DfsFrom(v, keys) + StackLeaves(rest)
  {
    hide DfsLeaves;
    if keys == [] {
      assert KidsAt(v, keys) + rest == rest;
    } else {
      StackOfKids(v, keys[1..], rest);
      assert (KidsAt(v, keys) + rest)[1..] == KidsAt(v, keys[1..]) + rest;
    }
  }

  /** Expanding the top of the stack does not change what is to come. */
  lemma StackExpand(stack: seq<Vertex>)
    requires stack != [] && stack[0].vertices != map[]
    ensures var v := stack[0];
            StackLeaves(KidsAt(v, Descending(v.vertices.Keys)) + stack[1..]) == StackLeaves(stack)
  {
    hide StackLeaves;
    StackOfKids(stack[0], Descending(stack[0].vertices.Keys), stack[1..]);
    StackTop(stack);
  }

  lemma ReversedKeys(keys: seq<string>)
    ensures forall k :: k in Reverse(keys) <==> k in keys
  {
    hide Reverse;
    assert forall i :: 0 <= i < |keys| ==> keys[i] == Reverse(keys)[|keys| - 1 - i];
  }

  lemma PushedNone(v: Vertex, keys: seq<string>, rest: seq<Vertex>)
    requires forall k :: k in keys ==> k in v.vertices
    ensures KidsAt(v, Reverse(keys)[|keys|..]) + rest == rest
  {}

  lemma KidsCons(v: Vertex, k: string, tail: seq<string>, rest: seq<Vertex>)
    requires k in v.vertices && forall l :: l in tail ==> l in v.vertices
    ensures KidsAt(v, [k] + tail) + rest == [v.vertices[k]] + (KidsAt(v, tail) + rest)
  {
    assert KidsAt(v, [k] + tail) == [v.vertices[k]] + KidsAt(v, tail);
  }

  /** One more child on top of the stack. */
  lemma PushedNext(v: Vertex, keys: seq<string>, i: nat, rest: seq<Vertex>)
    requires i < |keys| && forall k :: k in keys ==> k in v.vertices
    ensures [v.vertices[keys[i]]] + (KidsAt(v, keys[i + 1..]) + rest) == KidsAt(v, keys[i..]) + rest
  {
    hide KidsAt;
    assert keys[i..] == [keys[i]] + keys[i + 1..];
    KidsCons(v, keys[i], keys[i + 1..], rest);
  }

  lemma StackTop(stack: seq<Vertex>)
    requires stack != []
    ensures StackLeaves(stack) == DfsLeaves(stack[0]) + StackLeaves(stack[1..])
  {}

  // ---------- the number of steps left ----------

  ghost function Weight(v: Vertex): (w: nat)
    ensures w > 0
    decreases v, |v.vertices| + 1
  {
    1 + WeightFrom(v, Descending(v.vertices.Keys))
  }

  ghost function WeightFrom(v: Vertex, keys: seq<string>): nat
    requires forall k :: k in keys ==> k in v.vertices
    decreases v, |keys|
  {
    if keys == [] then 0 else Weight(v.vertices[keys[0]]) + WeightFrom(v, keys[1..])
  }

  ghost function StackWeight(stack: seq<Vertex>): nat {
    if stack == [] then 0 else Weight(stack[0]) + StackWeight(stack[1..])
  }

  lemma {:induction false} WeightOfKids(v: Vertex, keys: seq<string>, rest: seq<Vertex>)
    requires forall k :: k in keys ==> k in v.vertices
    ensures StackWeight(KidsAt(v, keys) + rest) == WeightFrom(v, keys) + StackWeight(rest)
  {
    hide Weight;
    if keys == [] {
      assert KidsAt(v, keys) + rest == rest;
    } else {
      WeightOfKids(v, keys[1..], rest);
      assert (KidsAt(v, keys) + rest)[1..] == KidsAt(v, keys[1..]) + rest;
    }
  }

  lemma StackShrinks(stack: seq<Vertex>)
    requires stack != []
    ensures StackWeight(stack[1..]) < StackWeight(stack)
    ensures StackWeight(KidsAt(stack[0], Descending(stack[0].vertices.Keys)) + stack[1..]) < StackWeight(stack)
  {
    WeightOfKids(stack[0], Descending(stack[0].vertices.Keys), stack[1..]);
  }

  // ---------- the order of the blocks ----------

  /** The position of the last block in the list that has the node. */
  ghost function IndexIn(blockMap: map<string, Vertex>, order: seq<string>, n: string): Option<nat> {
    if order == [] then None
    else if HasBlock(blockMap, order[|order| - 1], n) then Some(|order| - 1)
    else IndexIn(blockMap, order[..|order| - 1], n)
  }

  /** A node that is in no emitted block emits the one it was told. */
  ghost predicate Emits(blockMap: map<string, Vertex>, home: map<string, string>, order: seq<string>, n: string) {
    n in home && home[n] != "" && home[n] in blockMap && IndexIn(blockMap, order, n).None?
  }

  ghost function BlockOrder(blockMap: map<string, Vertex>, home: map<string, string>, leaves: seq<Vertex>): seq<string> {
    if leaves == [] then []
    else
      var order, n := BlockOrder(blockMap, home, leaves[..|leaves| - 1]), leaves[|leaves| - 1].name;
      if Emits(blockMap, home, order, n) then order + [home[n]] else order
  }

  lemma BlockOrderSnoc(blockMap: map<string, Vertex>, home: map<string, string>, leaves: seq<Vertex>, v: Vertex)
    ensures var order := BlockOrder(blockMap, home, leaves);
            BlockOrder(blockMap, home, leaves + [v]) == if Emits(blockMap, home, order, v.name) then order + [home[v.name]] else order
  {
    assert (leaves + [v])[..|leaves|] == leaves;
  }

  lemma IndexSnoc(blockMap: map<string, Vertex>, order: seq<string>, id: string, n: string)
    ensures IndexIn(blockMap, order + [id], n) == if HasBlock(blockMap, id, n) then Some(|order|) else IndexIn(blockMap, order, n)
  {
    assert (order + [id])[..|order|] == order;
  }

  lemma {:induction false} IndexIs(blockMap: map<string, Vertex>, order: seq<string>, n: string)
    ensures var i := IndexIn(blockMap, order, n);
            if i.Some? then i.value < |order| && HasBlock(blockMap, order[i.value], n)
            else forall j :: 0 <= j < |order| ==> !HasBlock(blockMap, order[j], n)
  {
    hide HasBlock;
    if order != [] && !HasBlock(blockMap, order[|order| - 1], n) {
      IndexIs(blockMap, order[..|order| - 1], n);
      assert forall j :: 0 <= j < |order| - 1 ==> order[..|order| - 1][j] == order[j];
    }
  }

  /** The nodes met are all known by name. */
  ghost predicate AllKnown(leaves: seq<Vertex>, names: set<string>) {
    forall v :: v in leaves ==> v.name in names
  }

  lemma KnownFront(front: seq<Vertex>, v: Vertex, names: set<string>)
    requires AllKnown(front + [v], names)
    ensures AllKnown(front, names) && v.name in names
  {
    assert v in front + [v] && forall w :: w in front ==> w in front + [v];
  }

  /** A node met was told this block. */
  ghost predicate Told(home: map<string, string>, leaves: seq<Vertex>, id: string) {
    exists v :: v in leaves && v.name in home && home[v.name] == id
  }

  lemma ToldSnoc(home: map<string, string>, front: seq<Vertex>, v: Vertex, id: string)
    ensures Told(home, front + [v], id) <==> Told(home, front, id) || (v.name in home && home[v.name] == id)
  {
    assert v in front + [v];
    if w :| w in front && w.name in home && home[w.name] == id { assert w in front + [v]; }
  }

  /** Every block is emitted at most once, and only because one of its nodes was told it; in the end every node met
      that is in a block is in an emitted one. */
  lemma {:induction false} EmittedOnce(b: Vertex, ord: seq<string>, names: set<string>, home: map<string, string>,
                                       blockMap: map<string, Vertex>, leaves: seq<Vertex>)
    requires IdsDiffer(b) && ByOrder(b, ord, names, home, blockMap) && AllKnown(leaves, names)
    ensures var order := BlockOrder(blockMap, home, leaves);
            && (forall i, j :: 0 <= i < j < |order| ==> order[i] != order[j])
            && (forall id :: id in order ==> id != "" && Told(home, leaves, id))
            && (forall v :: v in leaves && v.name in home && home[v.name] != "" ==> IndexIn(blockMap, order, v.name).Some?)
  {
    hide HasBlock, ByOrder, IdsDiffer, IndexIn, Told;
    if leaves != [] {
      var front, v := leaves[..|leaves| - 1], leaves[|leaves| - 1];
      assert leaves == front + [v];
      KnownFront(front, v, names);
      EmittedOnce(b, ord, names, home, blockMap, front);
      BlockOrderSnoc(blockMap, home, front, v);
      HomeHas(b, ord, names, home, blockMap, v.name);
      var order, id := BlockOrder(blockMap, home, front), home[v.name];
      HomeIsFiled(blockMap, id, v.name);
      IndexIs(blockMap, order, v.name);
      forall x { ToldSnoc(home, front, v, x); }
      if id in order && id != "" {
        var i :| 0 <= i < |order| && order[i] == id;
        assert IndexIn(blockMap, order, v.name).Some?;
      }
      forall w | w in leaves { IndexSnoc(blockMap, order, id, w.name); }
    }
  }

  lemma HomeIsFiled(blockMap: map<string, Vertex>, id: string, n: string)
    ensures HasBlock(blockMap, id, n) ==> id in blockMap
  {}

  /** If no node is in two blocks, exactly the blocks with a node in the list appear. */
  lemma BlockOrderIs(b: Vertex, ord: seq<string>, names: set<string>, home: map<string, string>, blockMap: map<string, Vertex>, leaves: seq<Vertex>)
    requires BlocksOk(b) && ByOrder(b, ord, names, home, blockMap) && AllKnown(leaves, names)
    ensures forall id :: id in BlockOrder(blockMap, home, leaves) <==> exists v :: v in leaves && HasBlock(blockMap, id, v.name)
  {
    hide IdsOk, NodesApart, HasNode, BlockOrder, IndexIn, ByOrder, HasBlock;
    var order := BlockOrder(blockMap, home, leaves);
    BlocksOkIds(b);
    EmittedOnce(b, ord, names, home, blockMap, leaves);
    forall id | id in order ensures exists v :: v in leaves && HasBlock(blockMap, id, v.name) {
      assert Told(home, leaves, id);
      var v :| v in leaves && v.name in home && home[v.name] == id;
      HomeHas(b, ord, names, home, blockMap, v.name);
    }
    forall v, id | v in leaves && HasBlock(blockMap, id, v.name) ensures id in order {
      HasHome(b, ord, names, home, blockMap, id, v.name);
      IndexIs(blockMap, order, v.name);
      OnlyHome(b, ord, names, home, blockMap, id, order[IndexIn(blockMap, order, v.name).value], v.name);
    }
  }

  lemma BlocksOkIds(b: Vertex)
    requires BlocksOk(b)
    ensures IdsOk(b) && IdsDiffer(b)
  {}

  lemma HasHome(b: Vertex, ord: seq<string>, names: set<string>, home: map<string, string>, blockMap: map<string, Vertex>, id: string, n: string)
    requires IdsOk(b) && ByOrder(b, ord, names, home, blockMap) && n in names && HasBlock(blockMap, id, n)
    ensures n in home && home[n] != ""
  {
    hide HasNode, ByOrder;
    HomeHas(b, ord, names, home, blockMap, n);
    var k := FiledKey(b, ord, names, home, blockMap, id);
  }

  // ---------- blocks that share nodes ----------

  /** Some node met is in this block and in no other. */
  ghost predicate HasOwn(b: Vertex, k: string, leaves: seq<Vertex>)
    requires k in b.vertices
  {
    exists v :: v in leaves && HasNode(b.vertices[k], v.name) && OnlyIn(b, k, v.name)
  }

  ghost predicate OnlyIn(b: Vertex, k: string, n: string) {
    forall l :: l in b.vertices && HasNode(b.vertices[l], n) ==> l == k
  }

  /** An order that visits `k` first tells `k` to a node only if no other block has the node. */
  lemma {:induction false} FirstIsOverwritten(b: Vertex, k: string, rest: seq<string>, n: string)
    requires IdsOk(b) && k in b.vertices && k !in rest && LastHome(b, [k] + rest, n) == b.vertices[k].id
    ensures HasNode(b.vertices[k], n) && forall l :: l in rest && l in b.vertices ==> !HasNode(b.vertices[l], n)
  {
    hide HasNode;
    if rest == [] {
      assert [k] + rest == [k] && [k][..0] == [];
    } else {
      var front, last := rest[..|rest| - 1], rest[|rest| - 1];
      assert rest == front + [last];
      assert ([k] + rest)[..|rest|] == [k] + front && ([k] + rest)[|rest|] == last;
      FirstIsOverwritten(b, k, front, n);
    }
  }

  lemma ListsCons(rest: seq<string>, keys: set<string>, k: string)
    requires Lists(rest, keys) && k !in keys
    ensures Lists([k] + rest, keys + {k}) && k !in rest
  {
    assert forall i :: 0 <= i < |rest| ==> rest[i] in rest;
  }

  lemma ListedFirst(keys: set<string>, k: string)
    requires k in keys
    ensures Lists([k] + SortedKeys(keys - {k}), keys) && k !in SortedKeys(keys - {k})
  {
    hide Lists, SortedKeys;
    SortedLists(keys - {k});
    ListsCons(SortedKeys(keys - {k}), keys - {k}, k);
    assert keys - {k} + {k} == keys;
  }

  /** Visiting `k` first. */
  lemma FirstOrder(b: Vertex, k: string, names: set<string>)
    returns (ord: seq<string>, home: map<string, string>, blockMap: map<string, Vertex>)
    requires IdsOk(b) && k in b.vertices
    ensures ByOrder(b, ord, names, home, blockMap)
    ensures forall n :: n in names && home[n] == b.vertices[k].id ==> HasNode(b.vertices[k], n) && OnlyIn(b, k, n)
  {
    hide HasNode, LastHome, FiledBy, IdsOk, Lists;
    var rest := SortedKeys(b.vertices.Keys - {k});
    ord := [k] + rest;
    ListedFirst(b.vertices.Keys, k);
    home := map n | n in names :: LastHome(b, ord, n);
    blockMap := FiledBy(b, ord);
    forall n | n in names && home[n] == b.vertices[k].id ensures HasNode(b.vertices[k], n) && OnlyIn(b, k, n) {
      FirstIsOverwritten(b, k, rest, n);
    }
  }

  lemma OwnIsEmitted(b: Vertex, ord: seq<string>, names: set<string>, home: map<string, string>, blockMap: map<string, Vertex>,
                     leaves: seq<Vertex>, k: string)
    requires IdsOk(b) && ByOrder(b, ord, names, home, blockMap) && AllKnown(leaves, names) && k in b.vertices && HasOwn(b, k, leaves)
    ensures b.vertices[k].id in BlockOrder(blockMap, home, leaves)
  {
    hide HasNode, BlockOrder, IndexIn, ByOrder;
    var v :| v in leaves && HasNode(b.vertices[k], v.name) && OnlyIn(b, k, v.name);
    var order := BlockOrder(blockMap, home, leaves);
    EmittedOnce(b, ord, names, home, blockMap, leaves);
    HomeHas(b, ord, names, home, blockMap, v.name);
    IndexIs(blockMap, order, v.name);
    var l := FiledKey(b, ord, names, home, blockMap, order[IndexIn(blockMap, order, v.name).value]);
  }

  /** Whatever order the map of blocks is iterated in, a block is emitted: this is so if and only if the tree has a node
      that is in this block and in no other. */
  lemma EmittedAlways(b: Vertex, names: set<string>, leaves: seq<Vertex>, k: string)
    requires IdsOk(b) && AllKnown(leaves, names) && k in b.vertices
    ensures (forall ord, home, blockMap :: ByOrder(b, ord, names, home, blockMap) ==> b.vertices[k].id in BlockOrder(blockMap, home, leaves))
            <==> HasOwn(b, k, leaves)
  {
    hide HasNode, BlockOrder, IndexIn, ByOrder, IdsOk, OnlyIn;
    if HasOwn(b, k, leaves) {
      forall ord, home, blockMap | ByOrder(b, ord, names, home, blockMap) ensures b.vertices[k].id in BlockOrder(blockMap, home, leaves) {
        OwnIsEmitted(b, ord, names, home, blockMap, leaves, k);
      }
    } else {
      var ord, home, blockMap := FirstOrder(b, k, names);
      ToldHasOwn(b, ord, names, home, blockMap, leaves, k);
    }
  }

  lemma ToldHasOwn(b: Vertex, ord: seq<string>, names: set<string>, home: map<string, string>, blockMap: map<string, Vertex>,
                   leaves: seq<Vertex>, k: string)
    requires IdsOk(b) && ByOrder(b, ord, names, home, blockMap) && AllKnown(leaves, names) && k in b.vertices
    requires forall n :: n in names && home[n] == b.vertices[k].id ==> HasNode(b.vertices[k], n) && OnlyIn(b, k, n)
    ensures b.vertices[k].id in BlockOrder(blockMap, home, leaves) ==> HasOwn(b, k, leaves)
  {
    hide HasNode, BlockOrder, IndexIn, ByOrder, OnlyIn;
    EmittedOnce(b, ord, names, home, blockMap, leaves);
    if b.vertices[k].id in BlockOrder(blockMap, home, leaves) {
      assert Told(home, leaves, b.vertices[k].id);
      var v :| v in leaves && v.name in home && home[v.name] == b.vertices[k].id;
    }
  }

  /** The depth-first order visits exactly the compute nodes of the tree. */
  lemma {:induction false} DfsLeavesAre(v: Vertex)
    ensures forall w :: w in DfsLeaves(v) <==> w in Subs(v) && IsNode(w)
    decreases v, |v.vertices| + 1
  {
    if v.vertices == map[] {
    } else {
      var keys := Descending(v.vertices.Keys);
      DfsFromAre(v, keys);
      forall w | w in Subs(v) && IsNode(w) ensures w in DfsLeaves(v) {
        var k :| k in v.vertices && w in Subs(v.vertices[k]);
        assert k in keys;
      }
    }
  }

  lemma {:induction false} DfsFromAre(v: Vertex, keys: seq<string>)
    requires forall k :: k in keys ==> k in v.vertices
    ensures forall w :: w in DfsFrom(v, keys) <==> exists k :: k in keys && w in Subs(v.vertices[k]) && IsNode(w)
    decreases v, |keys|
  {
    if keys != [] {
      assert keys == [keys[0]] + keys[1..];
      DfsLeavesAre(v.vertices[keys[0]]);
      DfsFromAre(v, keys[1..]);
    }
  }

  // ---------- what the fields hold after initBlocks ----------

  /** The node names of a block. A map yields them in any order; here they are listed by key. */
  function Names(block: Vertex): (names: seq<string>)
    ensures |names| == |block.vertices|
    ensures forall n :: n in names <==> HasNode(block, n)
  {
    var keys := SortedKeys(block.vertices.Keys);
    assert forall i :: 0 <= i < |keys| ==> keys[i] in keys;
    var names := seq(|keys|, i requires 0 <= i < |keys| => block.vertices[keys[i]].name);
    assert forall k :: k in block.vertices ==> k in keys;
    assert forall i :: 0 <= i < |keys| ==> names[i] == block.vertices[keys[i]].name;
    names
  }

  function InfoOf(block: Vertex, indx: nat): BlockInfo {
    BlockInfo(block.id, block.name, indx, Names(block))
  }

  ghost predicate BlocksListed(blockMap: map<string, Vertex>, order: seq<string>, blocks: seq<BlockInfo>) {
    && |blocks| == |order|
    && forall i :: 0 <= i < |order| ==> order[i] in blockMap && blocks[i] == InfoOf(blockMap[order[i]], i)
  }

  /** Every node of `base` knows the block it was told and, if blocks with it have been emitted, the position of the last. */
  ghost predicate NodesIndexed(blockMap: map<string, Vertex>, home: map<string, string>, order: seq<string>,
                               nodeInfo: map<string, NodeInfo>, base: map<string, NodeInfo>) {
    && nodeInfo.Keys == base.Keys && home.Keys == base.Keys
    && forall n :: n in base ==> nodeInfo[n] == NodeInfo(base[n].instanceID, home[n], IndexIn(blockMap, order, n))
  }

  /** The blocks visited so far have told their nodes. */
  ghost predicate Assigned(b: Vertex, ord: seq<string>, nodeInfo: map<string, NodeInfo>, base: map<string, NodeInfo>) {
    && nodeInfo.Keys == base.Keys
    && forall n :: n in nodeInfo ==> nodeInfo[n] == NodeInfo(base[n].instanceID, LastHome(b, ord, n), None)
  }

  lemma NoneAssigned(b: Vertex, nodeInfo: map<string, NodeInfo>)
    requires forall n :: n in nodeInfo ==> nodeInfo[n].blockID == "" && nodeInfo[n].blockIndx == None
    ensures Assigned(b, [], nodeInfo, nodeInfo) && FiledBy(b, []) == map[] && Lists([], {})
  {}

  lemma AssignStep(b: Vertex, ord: seq<string>, done: set<string>, k: string, before: map<string, NodeInfo>,
                   after: map<string, NodeInfo>, base: map<string, NodeInfo>)
    requires k in b.vertices && k !in done && Lists(ord, done) && Assigned(b, ord, before, base)
    requires after.Keys == before.Keys
    requires forall n :: n in after ==>
               after[n] == if HasNode(b.vertices[k], n) then before[n].(blockID := b.vertices[k].id) else before[n]
    ensures Assigned(b, ord + [k], after, base) && Lists(ord + [k], done + {k})
    ensures FiledBy(b, ord + [k]) == FiledBy(b, ord)[b.vertices[k].id := b.vertices[k]]
  {
    hide HasNode;
    assert (ord + [k])[..|ord|] == ord;
    assert forall i :: 0 <= i < |ord| ==> ord[i] in ord;
  }

  lemma AllAssigned(b: Vertex, ord: seq<string>, nodeInfo: map<string, NodeInfo>, base: map<string, NodeInfo>)
    requires Lists(ord, b.vertices.Keys) && Assigned(b, ord, nodeInfo, base)
    ensures var home := map n | n in nodeInfo :: nodeInfo[n].blockID;
            ByOrder(b, ord, base.Keys, home, FiledBy(b, ord)) && NodesIndexed(FiledBy(b, ord), home, [], nodeInfo, base)
  {
    hide LastHome, FiledBy, Lists;
  }

  // ---------- without tree data ----------

  /** The information of a node filed under block key `id` at position `indx`. */
  ghost predicate NodeOf(block: Vertex, id: string, indx: nat, n: string, info: NodeInfo) {
    && info.blockID == id && info.blockIndx == Some(indx)
    && exists k :: k in block.vertices && block.vertices[k].name == n && block.vertices[k].id == info.instanceID
  }

  /** Block `i` is the last of the first `upto`, in key order, that has the node. */
  ghost predicate LastWith(b: Vertex, upto: nat, i: nat, n: string) {
    var keys := SortedKeys(b.vertices.Keys);
    && i < upto <= |keys| && keys[i] in b.vertices && HasNode(b.vertices[keys[i]], n)
    && forall j :: i < j < upto ==> keys[j] in b.vertices && !HasNode(b.vertices[keys[j]], n)
  }

  ghost predicate InFirst(b: Vertex, upto: nat, n: string) {
    exists i: nat :: LastWith(b, upto, i, n)
  }

  /** Block `i` of the first `upto` has told the node. */
  ghost predicate ToldBy(b: Vertex, upto: nat, i: nat, n: string, nodeInfo: map<string, NodeInfo>)
    requires LastWith(b, upto, i, n)
  {
    var k := SortedKeys(b.vertices.Keys)[i];
    n in nodeInfo && NodeOf(b.vertices[k], k, i, n, nodeInfo[n])
  }

  ghost predicate KeyListed(b: Vertex, upto: nat, blocks: seq<BlockInfo>) {
    var keys := SortedKeys(b.vertices.Keys);
    && upto <= |keys| && |blocks| == upto
    && forall i :: 0 <= i < upto ==> keys[i] in b.vertices && blocks[i] == InfoOf(b.vertices[keys[i]], i)
  }

  ghost predicate KeyTold(b: Vertex, upto: nat, nodeInfo: map<string, NodeInfo>, base: map<string, NodeInfo>) {
    && (forall i: nat, n :: LastWith(b, upto, i, n) ==> ToldBy(b, upto, i, n, nodeInfo))
    && (forall n :: n in nodeInfo ==> n in base || InFirst(b, upto, n))
  }

  /** The first `upto` blocks, in key order, and their nodes have been recorded, each with the last block it is in. */
  ghost predicate KeyOrdered(b: Vertex, upto: nat, blocks: seq<BlockInfo>, nodeInfo: map<string, NodeInfo>, base: map<string, NodeInfo>) {
    KeyListed(b, upto, blocks) && KeyTold(b, upto, nodeInfo, base)
  }

  /** Reaching a node that is in no emitted block: the one it was told is appended and the nodes of that one get its position. */
  lemma EmitBlock(blockMap: map<string, Vertex>, home: map<string, string>, order: seq<string>, id: string, before: map<string, NodeInfo>,
                  after: map<string, NodeInfo>, base: map<string, NodeInfo>)
    requires id in blockMap && NodesIndexed(blockMap, home, order, before, base) && after.Keys == before.Keys
    requires forall n :: n in after ==>
               after[n] == if HasNode(blockMap[id], n) then before[n].(blockIndx := Some(|order|)) else before[n]
    ensures NodesIndexed(blockMap, home, order + [id], after, base)
  {
    hide HasNode, IndexIn;
    forall n | n in base ensures after[n] == NodeInfo(base[n].instanceID, home[n], IndexIn(blockMap, order + [id], n)) {
      IndexSnoc(blockMap, order, id, n);
    }
  }

  lemma ListBlock(blockMap: map<string, Vertex>, order: seq<string>, id: string, blocks: seq<BlockInfo>)
    requires id in blockMap && BlocksListed(blockMap, order, blocks)
    ensures BlocksListed(blockMap, order + [id], blocks + [InfoOf(blockMap[id], |order|)])
  {
    hide InfoOf;
  }

  lemma OrderStart(blockMap: map<string, Vertex>, home: map<string, string>, t: Vertex)
    ensures BlockOrder(blockMap, home, []) == [] && StackLeaves([t]) == DfsLeaves(t) && StackLeaves([]) == []
    ensures BlocksListed(blockMap, [], [])
  {}

  lemma OneLeaf(v: Vertex)
    requires |v.vertices| == 0
    ensures DfsLeaves(v) == [v]
  {}

  lemma LeafInfo(blockMap: map<string, Vertex>, home: map<string, string>, order: seq<string>, nodeInfo: map<string, NodeInfo>,
                 base: map<string, NodeInfo>, n: string)
    requires NodesIndexed(blockMap, home, order, nodeInfo, base)
    ensures Emits(blockMap, home, order, n) <==>
            n in nodeInfo && |nodeInfo[n].blockID| != 0 && nodeInfo[n].blockIndx.None? && nodeInfo[n].blockID in blockMap
    ensures n in nodeInfo ==> n in home && nodeInfo[n].blockID == home[n]
  {
    hide IndexIn;
  }

  lemma NthName(v: Vertex, i: nat)
    requires i < |v.vertices|
    ensures SortedKeys(v.vertices.Keys)[i] in v.vertices && Names(v)[i] == v.vertices[SortedKeys(v.vertices.Keys)[i]].name
  {
    assert SortedKeys(v.vertices.Keys)[i] in SortedKeys(v.vertices.Keys);
  }

  lemma NewNode(v: Vertex, id: string, indx: nat, k: string)
    requires k in v.vertices
    ensures NodeOf(v, id, indx, v.vertices[k].name, NodeInfo(v.vertices[k].id, id, Some(indx)))
  {}

  lemma LastWithStep(b: Vertex, indx: nat, i: nat, n: string)
    requires indx < |b.vertices| && SortedKeys(b.vertices.Keys)[indx] in b.vertices
    ensures LastWith(b, indx + 1, i, n) <==>
            if HasNode(b.vertices[SortedKeys(b.vertices.Keys)[indx]], n) then i == indx else LastWith(b, indx, i, n)
  {
    hide HasNode, SortedKeys;
    var keys := SortedKeys(b.vertices.Keys);
    assert forall j :: 0 <= j < |keys| ==> keys[j] in keys;
    if LastWith(b, indx + 1, i, n) && i != indx { assert i < indx < indx + 1; }
  }

  lemma KeyOrderStart(b: Vertex, nodeInfo: map<string, NodeInfo>)
    ensures KeyOrdered(b, 0, [], nodeInfo, nodeInfo)
  {
    hide HasNode, NodeOf;
  }

  lemma KeyOrderStep(b: Vertex, indx: nat, key: string, v: Vertex, blocks: seq<BlockInfo>,
                     before: map<string, NodeInfo>, after: map<string, NodeInfo>, base: map<string, NodeInfo>)
    requires indx < |b.vertices| && KeyOrdered(b, indx, blocks, before, base)
    requires key == SortedKeys(b.vertices.Keys)[indx] && key in b.vertices && v == b.vertices[key]
    requires forall n :: n in after <==> n in before || HasNode(v, n)
    requires forall n :: n in after ==> if HasNode(v, n) then NodeOf(v, key, indx, n, after[n]) else after[n] == before[n]
    ensures KeyOrdered(b, indx + 1, blocks + [InfoOf(v, indx)], after, base)
  {
    hide HasNode, NodeOf, InfoOf, SortedKeys, KeyTold;
    KeyToldStep(b, indx, key, v, before, after, base);
  }

  lemma KeyToldAt(b: Vertex, indx: nat, before: map<string, NodeInfo>, after: map<string, NodeInfo>, i: nat, n: string)
    requires indx < |b.vertices| && SortedKeys(b.vertices.Keys)[indx] in b.vertices && LastWith(b, indx + 1, i, n)
    requires var key := SortedKeys(b.vertices.Keys)[indx];
             n in after && if HasNode(b.vertices[key], n) then NodeOf(b.vertices[key], key, indx, n, after[n])
                           else n in before && after[n] == before[n]
    requires LastWith(b, indx, i, n) ==> ToldBy(b, indx, i, n, before)
    ensures ToldBy(b, indx + 1, i, n, after)
  {
    hide HasNode, NodeOf, SortedKeys;
    LastWithStep(b, indx, i, n);
  }

  lemma KeyToldStep(b: Vertex, indx: nat, key: string, v: Vertex, before: map<string, NodeInfo>, after: map<string, NodeInfo>,
                    base: map<string, NodeInfo>)
    requires indx < |b.vertices| && KeyTold(b, indx, before, base)
    requires key == SortedKeys(b.vertices.Keys)[indx] && key in b.vertices && v == b.vertices[key]
    requires forall n :: n in after <==> n in before || HasNode(v, n)
    requires forall n :: n in after ==> if HasNode(v, n) then NodeOf(v, key, indx, n, after[n]) else after[n] == before[n]
    ensures KeyTold(b, indx + 1, after, base)
  {
    hide HasNode, NodeOf, SortedKeys, LastWith;
    var next := indx + 1;
    forall i: nat, n | LastWith(b, next, i, n) ensures ToldBy(b, next, i, n, after) {
      LastWithStep(b, indx, i, n);
      KeyToldAt(b, indx, before, after, i, n);
    }
    forall n | n in after ensures n in base || InFirst(b, indx + 1, n) {
      LastWithStep(b, indx, indx, n);
      if !HasNode(v, n) && n !in base {
        var i: nat :| LastWith(b, indx, i, n);
        LastWithStep(b, indx, i, n);
      }
    }
  }

  // ---------- what the order and the indices mean ----------

  /** A node of block `x` is met before any node of block `y`. */
  ghost predicate MetBefore(blockMap: map<string, Vertex>, leaves: seq<Vertex>, x: string, y: string) {
    exists a :: 0 <= a < |leaves| && HasBlock(blockMap, x, leaves[a].name) && forall c :: 0 <= c <= a ==> !HasBlock(blockMap, y, leaves[c].name)
  }

  lemma MetBeforeSnoc(blockMap: map<string, Vertex>, front: seq<Vertex>, v: Vertex, x: string, y: string)
    requires MetBefore(blockMap, front, x, y)
    ensures MetBefore(blockMap, front + [v], x, y)
  {
    hide HasBlock;
    var a :| 0 <= a < |front| && HasBlock(blockMap, x, front[a].name) && forall c :: 0 <= c <= a ==> !HasBlock(blockMap, y, front[c].name);
    var more := front + [v];
    assert more[a] == front[a] && forall c :: 0 <= c <= a ==> more[c] == front[c];
  }

  lemma MetLast(b: Vertex, ord: seq<string>, names: set<string>, home: map<string, string>, blockMap: map<string, Vertex>,
                front: seq<Vertex>, v: Vertex, x: string, y: string)
    requires BlocksOk(b) && ByOrder(b, ord, names, home, blockMap) && AllKnown(front, names)
    requires x in BlockOrder(blockMap, home, front) && y !in BlockOrder(blockMap, home, front)
    ensures MetBefore(blockMap, front + [v], x, y)
  {
    hide HasBlock, BlockOrder, ByOrder, IdsOk, NodesApart;
    BlockOrderIs(b, ord, names, home, blockMap, front);
    var w :| w in front && HasBlock(blockMap, x, w.name);
    var a :| 0 <= a < |front| && front[a] == w;
    var more := front + [v];
    assert more[a] == w;
    assert forall c :: 0 <= c <= a ==> more[c] in front;
  }

  /** If no node is in two blocks, blocks are emitted in the order in which their first nodes are met. */
  lemma {:induction false} OrderOfFirstNodes(b: Vertex, ord: seq<string>, names: set<string>, home: map<string, string>,
                                             blockMap: map<string, Vertex>, leaves: seq<Vertex>, i: nat, j: nat)
    requires BlocksOk(b) && ByOrder(b, ord, names, home, blockMap) && AllKnown(leaves, names) && i < j < |BlockOrder(blockMap, home, leaves)|
    ensures MetBefore(blockMap, leaves, BlockOrder(blockMap, home, leaves)[i], BlockOrder(blockMap, home, leaves)[j])
    decreases |leaves|
  {
    hide HasBlock, MetBefore, ByOrder, IdsOk, NodesApart, IndexIn, BlockOrder;
    if leaves == [] {
      OrderStart(blockMap, home, Vertex("", "", map[]));
    } else {
      var front, v := leaves[..|leaves| - 1], leaves[|leaves| - 1];
      assert leaves == front + [v];
      KnownFront(front, v, names);
      BlocksOkIds(b);
      BlockOrderSnoc(blockMap, home, front, v);
      var order, all := BlockOrder(blockMap, home, front), BlockOrder(blockMap, home, leaves);
      if j < |order| {
        OrderOfFirstNodes(b, ord, names, home, blockMap, front, i, j);
        MetBeforeSnoc(blockMap, front, v, order[i], order[j]);
      } else {
        EmittedOnce(b, ord, names, home, blockMap, leaves);
        forall m | 0 <= m < |order| ensures order[m] != all[j] { assert all[m] == order[m]; }
        MetLast(b, ord, names, home, blockMap, front, v, order[i], all[j]);
      }
    }
  }

  /** After initBlocks a tree node in a block has the position of an emitted block it is in; any other has none. */
  lemma IndexOfEveryNode(b: Vertex, t: Vertex, ord: seq<string>, home: map<string, string>, blockMap: map<string, Vertex>,
                         blocks: seq<BlockInfo>, nodeInfo: map<string, NodeInfo>, base: map<string, NodeInfo>, v: Vertex)
    requires IdsOk(b) && NodesKnown(t, base) && v in Subs(t) && IsNode(v) && ByOrder(b, ord, base.Keys, home, blockMap)
    requires var order := BlockOrder(blockMap, home, DfsLeaves(t));
             BlocksListed(blockMap, order, blocks) && NodesIndexed(blockMap, home, order, nodeInfo, base)
    ensures v.name in nodeInfo
    ensures if exists k :: k in b.vertices && HasNode(b.vertices[k], v.name)
            then nodeInfo[v.name].blockIndx.Some? && nodeInfo[v.name].blockIndx.value < |blocks|
                 && exists k :: k in b.vertices && HasNode(b.vertices[k], v.name)
                                && blocks[nodeInfo[v.name].blockIndx.value] == InfoOf(b.vertices[k], nodeInfo[v.name].blockIndx.value)
            else nodeInfo[v.name].blockIndx == None
  {
    hide HasNode, DfsLeaves, BlockOrder, Subs, InfoOf, ByOrder, IndexIn, IdsDiffer;
    var order := BlockOrder(blockMap, home, DfsLeaves(t));
    DfsLeavesAre(t);
    assert v in DfsLeaves(t);
    EmittedOnce(b, ord, base.Keys, home, blockMap, DfsLeaves(t));
    HomeHas(b, ord, base.Keys, home, blockMap, v.name);
    IndexIs(blockMap, order, v.name);
    if IndexIn(blockMap, order, v.name).Some? {
      var i := IndexIn(blockMap, order, v.name).value;
      var k := FiledKey(b, ord, base.Keys, home, blockMap, order[i]);
    }
  }

  const ONE_NODE := Vertex("n1", "i-1", map[])
  const BLOCK_X := Vertex("x", "block001", map["n1" := ONE_NODE])
  const BLOCK_Y := Vertex("y", "block002", map["n1" := ONE_NODE])

  lemma OneNodeBlocks()
    ensures HasNode(BLOCK_X, "n1") && HasNode(BLOCK_Y, "n1") && BLOCK_X.id != BLOCK_Y.id && BLOCK_X.id != "" && BLOCK_Y.id != ""
  {
    assert "n1" in BLOCK_X.vertices && "n1" in BLOCK_Y.vertices;
    assert "block001"[7] != "block002"[7];
  }

  lemma OneEmitted(blockMap: map<string, Vertex>, id: string)
    requires id in blockMap && id != ""
    ensures BlockOrder(blockMap, map["n1" := id], [ONE_NODE]) == [id]
  {
    assert [ONE_NODE][..0] == [];
    assert BlockOrder(blockMap, map["n1" := id], []) == [];
    assert Emits(blockMap, map["n1" := id], [], "n1");
  }

  /** Two blocks over the same node: only one of them is emitted, and the order of iteration decides which. */
  lemma SharedNodeLosesBlock()
    ensures var b := Vertex("", "", map["x" := BLOCK_X, "y" := BLOCK_Y]);
            var blockMap := map["block001" := BLOCK_X, "block002" := BLOCK_Y];
            && IdsOk(b)
            && ByOrder(b, ["y", "x"], {"n1"}, map["n1" := "block001"], blockMap)
            && ByOrder(b, ["x", "y"], {"n1"}, map["n1" := "block002"], blockMap)
            && BlockOrder(blockMap, map["n1" := "block001"], [ONE_NODE]) == ["block001"]
            && BlockOrder(blockMap, map["n1" := "block002"], [ONE_NODE]) == ["block002"]
  {
    hide HasNode, BlockOrder, Lists;
    var b, blockMap := Vertex("", "", map["x" := BLOCK_X, "y" := BLOCK_Y]), map["block001" := BLOCK_X, "block002" := BLOCK_Y];
    assert b.vertices["x"] == BLOCK_X && b.vertices["y"] == BLOCK_Y && b.vertices.Keys == {"x", "y"};
    OneNodeBlocks();
    TwoInOrder(b, "x", "y", "n1");
    TwoInOrder(b, "y", "x", "n1");
    assert blockMap == map["block002" := BLOCK_Y, "block001" := BLOCK_X];
    OneEmitted(blockMap, "block001");
    OneEmitted(blockMap, "block002");
  }

  lemma TwoInOrder(b: Vertex, k: string, l: string, n: string)
    requires k != l && b.vertices.Keys == {k, l} && HasNode(b.vertices[l], n)
    ensures Lists([k, l], b.vertices.Keys) && LastHome(b, [k, l], n) == b.vertices[l].id
    ensures FiledBy(b, [k, l]) == map[][b.vertices[k].id := b.vertices[k]][b.vertices[l].id := b.vertices[l]]
  {
    hide HasNode;
    assert [k, l][..1] == [k] && [k][..0] == [];
    assert FiledBy(b, [k]) == map[][b.vertices[k].id := b.vertices[k]];
  }
}
