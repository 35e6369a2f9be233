/** Loading a graph into adjacency lists, also one whose vertices share children or IDs: `pkg/translate/topology.go`. */
module Loading {
  import opened Arrivals
  import opened Options
  import opened Ordering
  import opened Topology
  import opened TranslateSpec
  import opened Trees

  /** The visits made and the visits to come are those the root leads to. */
  ghost predicate Accounted(m: map<string, nat>, t: Vertex, order: seq<Vertex>, queue: seq<Vertex>) {
    forall v :: multiset(order)[v] + ToCome(m, queue, {v}) == Visits(m, t, {v})
  }

  lemma AccountStart(m: map<string, nat>, t: Vertex)
    ensures Accounted(m, t, [], [t])
  {
    hide Visits, ToCome;
    forall v ensures ToCome(m, [t], {v}) == Visits(m, t, {v}) { ToComeOne(m, t, {v}); }
  }

  lemma AccountFront(m: map<string, nat>, t: Vertex, order: seq<Vertex>, queue: seq<Vertex>)
    requires Positive(m) && Accounted(m, t, order, queue) && queue != []
    ensures queue[0] in Subs(t)
  {
    hide Visits, Subs;
    var u := queue[0];
    SubsSelf(u);
    SomeVisit(m, u, u, {u});
    VisitedAreBelow(m, t, u);
  }

  lemma AccountStep(m: map<string, nat>, t: Vertex, order: seq<Vertex>, queue: seq<Vertex>, kids: seq<Vertex>)
    requires Positive(m) && WellFiled(t) && Accounted(m, t, order, queue) && queue != []
    requires KidsTimes(queue[0], kids, Factor(m, queue[0]))
    ensures Accounted(m, t, order + [queue[0]], queue[1..] + kids)
    ensures ToCome(m, queue[1..] + kids, Subs(t)) < ToCome(m, queue, Subs(t))
  {
    hide Visits, ToCome, Subs, KidsTimes, Factor;
    var u := queue[0];
    AccountFront(m, t, order, queue);
    forall v ensures multiset(order + [u])[v] + ToCome(m, queue[1..] + kids, {v}) == Visits(m, t, {v}) {
      VisitFront(m, queue, kids, {v});
    }
    VisitFront(m, queue, kids, Subs(t));
  }

  lemma AccountEnd(m: map<string, nat>, t: Vertex, order: seq<Vertex>)
    requires Positive(m) && Accounted(m, t, order, [])
    ensures forall v :: multiset(order)[v] == Visits(m, t, {v})
    ensures forall v :: v in order <==> v in Subs(t)
  {
    hide Visits, Subs;
    forall v ensures v in order <==> v in Subs(t) {
      assert v in order <==> multiset(order)[v] > 0;
      VisitedAreBelow(m, t, v);
    }
  }

  // ---------- the order of the visits ----------

  /** The children of `v`, one for each key, in some order. */
  ghost predicate AppendsKids(v: Vertex, kids: seq<Vertex>) {
    exists ids :: Lists(ids, v.vertices.Keys) && kids == ChildrenAt(v, ids)
  }

  lemma KidsListed(v: Vertex, ids: seq<string>)
    requires Lists(ids, v.vertices.Keys)
    ensures AppendsKids(v, ChildrenAt(v, ids))
  {}

  lemma FiledListing(v: Vertex, ids: seq<string>)
    requires Lists(ids, v.vertices.Keys) && forall k :: k in v.vertices ==> v.vertices[k].id == k
    ensures ChildListing(v, ChildrenAt(v, ids))
  {
    forall k | k in v.vertices ensures v.vertices[k] in ChildrenAt(v, ids) {
      var i :| 0 <= i < |ids| && ids[i] == k;
      assert ChildrenAt(v, ids)[i] == v.vertices[k];
    }
  }

  lemma SameKeysCount(a: seq<string>, b: seq<string>, keys: set<string>)
    requires Lists(a, keys) && Lists(b, keys)
    ensures multiset(a) == multiset(b)
  {
    CountOfDistinct(a);
    CountOfDistinct(b);
    assert forall x :: multiset(a)[x] == multiset(b)[x];
  }

  lemma {:induction false} ChildrenConcat(v: Vertex, a: seq<string>, b: seq<string>)
    requires forall k :: k in a + b ==> k in v.vertices
    ensures (forall k :: k in a ==> k in a + b) && (forall k :: k in b ==> k in a + b)
    ensures ChildrenAt(v, a + b) == ChildrenAt(v, a) + ChildrenAt(v, b)
  {
    assert forall k :: k in a || k in b ==> k in a + b;
  }

  lemma {:induction false} SameChildrenCount(v: Vertex, a: seq<string>, b: seq<string>)
    requires multiset(a) == multiset(b) && (forall k :: k in a ==> k in v.vertices) && forall k :: k in b ==> k in v.vertices
    ensures multiset(ChildrenAt(v, a)) == multiset(ChildrenAt(v, b))
  {
    if a == [] {
      assert |multiset(a)| == |multiset(b)|;
    } else {
      var left, right := TakeOut(a, b);
      assert b == left + ([a[0]] + right) && a == [a[0]] + a[1..];
      SameChildrenCount(v, a[1..], left + right);
      ChildrenConcat(v, [a[0]], a[1..]);
      ChildrenConcat(v, left, [a[0]] + right);
      ChildrenConcat(v, [a[0]], right);
      ChildrenConcat(v, left, right);
    }
  }

  /** Without lists to follow, a visit appends one child for each key. */
  lemma AccountKids(t: Vertex, order: seq<Vertex>, queue: seq<Vertex>, kids: seq<Vertex>)
    requires Accounted(map[], t, order, queue) && queue != [] && AppendsKids(queue[0], kids)
    ensures Accounted(map[], t, order + [queue[0]], queue[1..] + kids)
    ensures ToCome(map[], queue[1..] + kids, Subs(t)) < ToCome(map[], queue, Subs(t))
  {
    hide Visits, ToCome, Subs, AppendsKids;
    var u := queue[0];
    AccountFront(map[], t, order, queue);
    forall v ensures multiset(order + [u])[v] + ToCome(map[], queue[1..] + kids, {v}) == Visits(map[], t, {v}) {
      KidsFollow(queue, kids, {v});
    }
    KidsFollow(queue, kids, Subs(t));
  }

  lemma KidsFollow(queue: seq<Vertex>, kids: seq<Vertex>, s: set<Vertex>)
    requires queue != [] && AppendsKids(queue[0], kids)
    ensures ToCome(map[], queue, s) == (if queue[0] in s then 1 else 0) + ToCome(map[], queue[1..] + kids, s)
  {
    hide VisitsBelow, ToCome;
    var u := queue[0];
    var keys := SortedKeys(u.vertices.Keys);
    var ids :| Lists(ids, u.vertices.Keys) && kids == ChildrenAt(u, ids);
    SortedLists(u.vertices.Keys);
    SameKeysCount(ids, keys, u.vertices.Keys);
    SameChildrenCount(u, ids, keys);
    ToComePermutes(map[], kids, ChildrenAt(u, keys), s);
    ToComeOfKids(map[], u, keys, s);
    ToComeConcat(map[], queue[1..], kids, s);
    FrontToCome(queue, s);
  }

  lemma FrontToCome(queue: seq<Vertex>, s: set<Vertex>)
    requires queue != []
    ensures ToCome(map[], queue, s) ==
            (if queue[0] in s then 1 else 0) + VisitsBelow(map[], queue[0], SortedKeys(queue[0].vertices.Keys), s) + ToCome(map[], queue[1..], s)
  {}

  /** Visits and queue together are the root followed by the children of every visited vertex, visit by visit. */
  ghost predicate Unrolled(t: Vertex, order: seq<Vertex>, queue: seq<Vertex>) {
    exists chunks :: UnrolledBy(t, order, queue, chunks)
  }

  ghost predicate UnrolledBy(t: Vertex, order: seq<Vertex>, queue: seq<Vertex>, chunks: seq<seq<Vertex>>) {
    && AppendsAll(order, chunks) && order + queue == [t] + Flatten(chunks)
    && forall n :: 0 <= n < |chunks| ==> n <= |Flatten(chunks[..n])|
  }

  ghost predicate AppendsAll(order: seq<Vertex>, chunks: seq<seq<Vertex>>) {
    |chunks| == |order| && forall i :: 0 <= i < |order| ==> AppendsKids(order[i], chunks[i])
  }

  lemma UnrolledStart(t: Vertex)
    ensures Unrolled(t, [], [t])
  {
    assert UnrolledBy(t, [], [t], []);
  }

  lemma UnrolledStep(t: Vertex, order: seq<Vertex>, queue: seq<Vertex>, kids: seq<Vertex>)
    requires Unrolled(t, order, queue) && queue != [] && AppendsKids(queue[0], kids)
    ensures Unrolled(t, order + [queue[0]], queue[1..] + kids)
  {
    hide AppendsKids;
    var chunks :| UnrolledBy(t, order, queue, chunks);
    var more := chunks + [kids];
    assert more[..|chunks|] == chunks;
    assert AppendsAll(order + [queue[0]], more);
    assert (order + [queue[0]]) + (queue[1..] + kids) == (order + queue) + kids;
    forall n | 0 <= n < |more| ensures n <= |Flatten(more[..n])| {
      if n < |chunks| { assert more[..n] == chunks[..n]; } else { assert |order + queue| == 1 + |Flatten(chunks)|; }
    }
    assert UnrolledBy(t, order + [queue[0]], queue[1..] + kids, more);
  }

  /** A breadth-first walk: every vertex as often as paths lead to it, level by level. */
  ghost predicate BreadthFirst(t: Vertex, order: seq<Vertex>) {
    Unrolled(t, order, []) && forall v :: multiset(order)[v] == Paths(t, v)
  }

  lemma WalkedOut(t: Vertex, order: seq<Vertex>)
    requires Accounted(map[], t, order, []) && Unrolled(t, order, [])
    ensures BreadthFirst(t, order)
  {
    hide Unrolled, Visits;
    AccountEnd(map[], t, order);
  }

  // ---------- the tables, in any graph ----------

  /** `v` is the first visited vertex with the given ID. */
  ghost predicate FirstWith(order: seq<Vertex>, id: string, v: Vertex) {
    exists i :: 0 <= i < |order| && order[i] == v && v.id == id && NoneBefore(order, i, id)
  }

  ghost predicate NoneBefore(order: seq<Vertex>, i: int, id: string) {
    forall j :: 0 <= j < i && j < |order| ==> order[j].id != id
  }

  /** How many visits to vertices with the given ID found a child under the key. */
  ghost function KeyCount(order: seq<Vertex>, id: string, k: string): nat {
    if order == [] then 0
    else
      var last := order[|order| - 1];
      KeyCount(order[..|order| - 1], id, k) + if last.id == id && k in last.vertices then 1 else 0
  }

  ghost predicate CountsKeys(order: seq<Vertex>, id: string, list: seq<string>) {
    forall k :: multiset(list)[k] == KeyCount(order, id, k)
  }

  /** Under each ID, the first visited vertex is filed, and the keys found by all visits are listed. */
  ghost predicate Tabled(order: seq<Vertex>, tree: map<string, seq<string>>, vertices: map<string, Vertex>) {
    && tree.Keys == vertices.Keys
    && (forall v :: v in order ==> v.id in vertices)
    && (forall id :: id in vertices ==> FirstWith(order, id, vertices[id]) && CountsKeys(order, id, tree[id]))
  }

  lemma NothingTabled()
    ensures Tabled([], map[], map[]) && NodesSeen([], map[])
  {}

  lemma FirstStays(order: seq<Vertex>, id: string, v: Vertex, u: Vertex)
    requires FirstWith(order, id, v)
    ensures FirstWith(order + [u], id, v) && v in order && v.id == id
  {
    hide NoneBefore;
    var i :| 0 <= i < |order| && order[i] == v && v.id == id && NoneBefore(order, i, id);
    assert (order + [u])[i] == v && NoneBefore(order + [u], i, id) by { BeforeStays(order, i, id, u); }
  }

  lemma BeforeStays(order: seq<Vertex>, i: int, id: string, u: Vertex)
    requires i <= |order|
    ensures NoneBefore(order + [u], i, id) <==> NoneBefore(order, i, id)
  {
    assert forall j :: 0 <= j < |order| ==> (order + [u])[j] == order[j];
  }

  lemma FirstComes(order: seq<Vertex>, u: Vertex)
    requires forall v :: v in order ==> v.id != u.id
    ensures FirstWith(order + [u], u.id, u) && NoneBefore(order + [u], |order|, u.id)
  {
    var more := order + [u];
    assert more[|order|] == u && forall j :: 0 <= j < |order| ==> more[j] in order;
  }

  lemma {:induction false} NoKeysYet(order: seq<Vertex>, id: string, k: string)
    requires forall v :: v in order ==> v.id != id
    ensures KeyCount(order, id, k) == 0
  {
    if order != [] {
      assert order[|order| - 1] in order;
      NoKeysYet(order[..|order| - 1], id, k);
    }
  }

  lemma CountsMore(order: seq<Vertex>, id: string, list: seq<string>, u: Vertex, ids: seq<string>)
    requires Lists(ids, u.vertices.Keys) && CountsKeys(order, id, list)
    ensures CountsKeys(order + [u], id, if u.id == id then list + ids else list)
  {
    CountOfDistinct(ids);
    assert (order + [u])[..|order|] == order;
  }

  lemma CountsNone(order: seq<Vertex>, id: string)
    requires forall v :: v in order ==> v.id != id
    ensures CountsKeys(order, id, [])
  {
    forall k ensures KeyCount(order, id, k) == 0 { NoKeysYet(order, id, k); }
  }

  /** A vertex is filed under its ID exactly if one with that ID has been visited. */
  lemma FiledIfSeen(order: seq<Vertex>, tree: map<string, seq<string>>, vertices: map<string, Vertex>, id: string)
    requires Tabled(order, tree, vertices)
    ensures id in tree <==> id in vertices
    ensures id in vertices <==> exists v :: v in order && v.id == id
  {
    if id in vertices {
      assert FirstWith(order, id, vertices[id]);
    }
  }

  lemma TabledStep(order: seq<Vertex>, tree: map<string, seq<string>>, vertices: map<string, Vertex>, u: Vertex, ids: seq<string>)
    requires Tabled(order, tree, vertices) && Lists(ids, u.vertices.Keys)
    ensures Tabled(order + [u], tree[u.id := (if u.id in tree then tree[u.id] else []) + ids],
                   if u.id in tree then vertices else vertices[u.id := u])
  {
    hide Lists, FirstWith, CountsKeys;
    var more := order + [u];
    FiledIfSeen(order, tree, vertices, u.id);
    forall v | v in more ensures v in order || v == u {}
    forall id | id in vertices ensures FirstWith(more, id, vertices[id]) { FirstStays(order, id, vertices[id], u); }
    if u.id !in vertices {
      FirstComes(order, u);
      CountsNone(order, u.id);
    }
    forall id | id in vertices || id == u.id
      ensures CountsKeys(more, id, if u.id == id then (if u.id in tree then tree[u.id] else []) + ids else tree[id])
    {
      CountsMore(order, id, if id in tree then tree[id] else [], u, ids);
    }
  }

  // ---------- the nodes ----------

  /** The visit is the first to a vertex with its ID, and the vertex is a compute node. */
  ghost predicate IsNewNode(order: seq<Vertex>, i: int) {
    0 <= i < |order| && IsNode(order[i]) && NoneBefore(order, i, order[i].id)
  }

  /** The last new node with the given name. */
  ghost predicate LastNewNode(order: seq<Vertex>, i: int, n: string) {
    IsNewNode(order, i) && order[i].name == n && forall j :: i < j < |order| && IsNewNode(order, j) ==> order[j].name != n
  }

  /** Every new node is known by its name; of several with one name, the last. */
  ghost predicate NodesSeen(order: seq<Vertex>, nodeInfo: map<string, NodeInfo>) {
    && (forall i :: 0 <= i < |order| && IsNewNode(order, i) ==> order[i].name in nodeInfo)
    && (forall n :: n in nodeInfo ==> KnownBy(order, n, nodeInfo[n]))
  }

  ghost predicate KnownBy(order: seq<Vertex>, n: string, info: NodeInfo) {
    exists i :: 0 <= i < |order| && LastNewNode(order, i, n) && info == NodeInfo(order[i].id, "", None)
  }

  ghost predicate InfoFrom(v: Vertex, n: string, info: NodeInfo) {
    IsNode(v) && v.name == n && info == NodeInfo(v.id, "", None)
  }

  lemma NewNodeStays(order: seq<Vertex>, u: Vertex, i: int)
    requires i < |order|
    ensures IsNewNode(order + [u], i) <==> IsNewNode(order, i)
    ensures 0 <= i ==> (order + [u])[i] == order[i]
  {
    hide NoneBefore;
    if 0 <= i { BeforeStays(order, i, order[i].id, u); }
  }

  /** The visit now made is to a new node, or not. */
  lemma NewNodeNow(order: seq<Vertex>, u: Vertex, first: bool)
    requires first <==> forall v :: v in order ==> v.id != u.id
    ensures IsNewNode(order + [u], |order|) <==> first && IsNode(u)
  {
    var more := order + [u];
    assert more[|order|] == u && forall j :: 0 <= j < |order| ==> more[j] == order[j] && order[j] in order;
  }

  lemma SeenStep(order: seq<Vertex>, nodeInfo: map<string, NodeInfo>, u: Vertex, first: bool)
    requires NodesSeen(order, nodeInfo) && (first <==> forall v :: v in order ==> v.id != u.id)
    ensures NodesSeen(order + [u], if first && |u.vertices| == 0 then nodeInfo[u.name := NodeInfo(u.id, "", None)] else nodeInfo)
  {
    hide KnownBy, IsNewNode;
    var more := order + [u];
    var info := if first && |u.vertices| == 0 then nodeInfo[u.name := NodeInfo(u.id, "", None)] else nodeInfo;
    NewNodeNow(order, u, first);
    forall i | 0 <= i < |more| && IsNewNode(more, i) ensures more[i].name in info { NewNodeCases(order, u, i); }
    forall n | n in info ensures KnownBy(more, n, info[n]) {
      if first && |u.vertices| == 0 && n == u.name {
        KnownNow(order, u);
      } else {
        KnownStill(order, u, n, nodeInfo[n], first);
      }
    }
  }

  lemma NewNodeCases(order: seq<Vertex>, u: Vertex, i: int)
    requires IsNewNode(order + [u], i)
    ensures (0 <= i < |order| && IsNewNode(order, i) && (order + [u])[i] == order[i]) || (i == |order| && (order + [u])[i] == u)
  {
    if i < |order| { NewNodeStays(order, u, i); }
  }

  lemma KnownNow(order: seq<Vertex>, u: Vertex)
    requires IsNewNode(order + [u], |order|)
    ensures KnownBy(order + [u], u.name, NodeInfo(u.id, "", None))
  {
    hide NoneBefore;
    assert LastNewNode(order + [u], |order|, u.name);
  }

  lemma KnownStill(order: seq<Vertex>, u: Vertex, n: string, info: NodeInfo, first: bool)
    requires KnownBy(order, n, info) && (IsNewNode(order + [u], |order|) <==> first && IsNode(u)) && !(first && IsNode(u) && u.name == n)
    ensures KnownBy(order + [u], n, info)
  {
    hide NoneBefore, IsNewNode;
    var more := order + [u];
    var i :| 0 <= i < |order| && LastNewNode(order, i, n) && info == NodeInfo(order[i].id, "", None);
    NewNodeStays(order, u, i);
    forall j | i < j < |more| && IsNewNode(more, j) ensures more[j].name != n { NewNodeCases(order, u, j); }
    assert LastNewNode(more, i, n);
  }

  // ---------- what the fields hold after initTree ----------

  /** The lists are those of the walk, sorted. */
  ghost predicate WalkLoaded(order: seq<Vertex>, tree: map<string, seq<string>>, vertices: map<string, Vertex>,
                             nodeInfo: map<string, NodeInfo>) {
    Tabled(order, tree, vertices) && NodesSeen(order, nodeInfo) && forall id :: id in tree ==> SortedBy(tree[id], LeqStrings)
  }

  lemma WalkIsLoaded(order: seq<Vertex>, lists: map<string, seq<string>>, vertices: map<string, Vertex>,
                     nodeInfo: map<string, NodeInfo>, tree: map<string, seq<string>>)
    requires Tabled(order, lists, vertices) && NodesSeen(order, nodeInfo)
    requires tree.Keys == lists.Keys && forall id :: id in lists ==> tree[id] == SortBy(lists[id], LeqStrings)
    ensures WalkLoaded(order, tree, vertices, nodeInfo)
  {
    hide NodesSeen, FirstWith, SortBy, SortedBy, KeyCount;
    forall id | id in tree ensures SortedBy(tree[id], LeqStrings) && CountsKeys(order, id, tree[id]) {
      SortedCounts(lists[id]);
      assert CountsKeys(order, id, lists[id]);
    }
  }

  lemma NoNodesNoBlocks()
    ensures NoBlocksYet(map[])
  {}

  lemma SeenWithoutBlocks(order: seq<Vertex>, nodeInfo: map<string, NodeInfo>)
    requires NodesSeen(order, nodeInfo)
    ensures NoBlocksYet(nodeInfo)
  {
    hide LastNewNode;
  }

  lemma SortedCounts(s: seq<string>)
    ensures SortedBy(SortBy(s, LeqStrings), LeqStrings) && multiset(SortBy(s, LeqStrings)) == multiset(s)
  {
    LeqStringsPreorder();
    SortBySorted(s, LeqStrings);
    SortByPermutes(s, LeqStrings);
  }

  /** `s` holds every key `n` times, and nothing else. */
  ghost predicate Repeats(s: seq<string>, keys: set<string>, n: nat) {
    forall k :: multiset(s)[k] == if k in keys then n else 0
  }

  /** Every vertex is filed under its ID and lists its sorted keys, each once for every path to the vertex. */
  ghost predicate GraphLoaded(t: Vertex, tree: map<string, seq<string>>, vertices: map<string, Vertex>) {
    && tree.Keys == vertices.Keys
    && (forall v :: v in Subs(t) <==> v.id in vertices && vertices[v.id] == v)
    && (forall id :: id in vertices ==> ListedAt(t, tree[id], vertices[id], id))
  }

  ghost predicate ListedAt(t: Vertex, list: seq<string>, v: Vertex, id: string) {
    v.id == id && SortedBy(list, LeqStrings) && Repeats(list, v.vertices.Keys, Paths(t, v))
  }

  /** Every compute node is known by its name; of several with one name, one of them. */
  ghost predicate NodesKnown(t: Vertex, nodeInfo: map<string, NodeInfo>) {
    && (forall v :: v in Subs(t) && IsNode(v) ==> v.name in nodeInfo)
    && (forall n :: n in nodeInfo ==> exists v :: v in Subs(t) && InfoFrom(v, n, nodeInfo[n]))
  }

  ghost predicate IdsIdentify(t: Vertex) {
    forall v, w :: v in Subs(t) && w in Subs(t) && v.id == w.id ==> v == w
  }

  lemma VisitedAre(t: Vertex, order: seq<Vertex>)
    requires BreadthFirst(t, order)
    ensures forall v :: v in order <==> v in Subs(t)
  {
    hide Visits, Subs, Unrolled;
    forall v ensures v in order <==> v in Subs(t) {
      assert v in order <==> multiset(order)[v] > 0;
      VisitedAreBelow(map[], t, v);
    }
  }

  lemma FirstIs(order: seq<Vertex>, id: string, v: Vertex)
    requires FirstWith(order, id, v)
    ensures v in order && v.id == id
  {}

  lemma {:induction false} FirstIndex(order: seq<Vertex>, v: Vertex) returns (i: nat)
    requires v in order
    ensures i < |order| && order[i].id == v.id && NoneBefore(order, i, v.id)
  {
    i := 0;
    while order[i].id != v.id
      invariant i < |order| && NoneBefore(order, i, v.id) && v in order[i..]
      decreases |order| - i
    {
      i := i + 1;
    }
  }

  /** No vertex is lost if and only if IDs identify vertices: of several with one ID, only the first visited is filed. */
  lemma AllFiledIff(t: Vertex, order: seq<Vertex>, tree: map<string, seq<string>>, vertices: map<string, Vertex>,
                    nodeInfo: map<string, NodeInfo>)
    requires BreadthFirst(t, order) && WalkLoaded(order, tree, vertices, nodeInfo)
    ensures (forall v :: v in Subs(t) ==> v.id in vertices && vertices[v.id] == v) <==> IdsIdentify(t)
  {
    hide Subs, BreadthFirst, NodesSeen, FirstWith, CountsKeys, SortedBy;
    VisitedAre(t, order);
    forall id | id in vertices ensures vertices[id] in order && vertices[id].id == id { FirstIs(order, id, vertices[id]); }
  }

  lemma {:induction false} KeyCountOfOne(order: seq<Vertex>, v: Vertex, k: string)
    requires forall w :: w in order && w.id == v.id ==> w == v
    ensures KeyCount(order, v.id, k) == if k in v.vertices then multiset(order)[v] else 0
  {
    if order != [] {
      var front, last := order[..|order| - 1], order[|order| - 1];
      assert order == front + [last];
      KeyCountOfOne(front, v, k);
      assert last in order;
    }
  }

  /** What is loaded when IDs identify vertices and children are filed under their IDs. */
  lemma GraphIsLoaded(t: Vertex, order: seq<Vertex>, tree: map<string, seq<string>>, vertices: map<string, Vertex>,
                      nodeInfo: map<string, NodeInfo>)
    requires WellFiled(t) && BreadthFirst(t, order) && WalkLoaded(order, tree, vertices, nodeInfo)
    ensures GraphLoaded(t, tree, vertices) && NodesKnown(t, nodeInfo)
  {
    hide WellFiled, Subs, Visits, Unrolled, FirstWith, CountsKeys, ListedAt, NodesSeen, NodesKnown, SortedBy;
    VisitedAre(t, order);
    IdsOfFiled(t);
    forall id | id in vertices ensures vertices[id] in order && vertices[id].id == id { FirstIs(order, id, vertices[id]); }
    AllFiledIff(t, order, tree, vertices, nodeInfo);
    forall id | id in vertices ensures ListedAt(t, tree[id], vertices[id], id) {
      ListIsLoaded(t, order, tree[id], vertices[id]);
    }
    NodesAreKnown(t, order, nodeInfo);
  }

  lemma IdsOfFiled(t: Vertex)
    requires WellFiled(t)
    ensures IdsIdentify(t)
  {}

  lemma ListIsLoaded(t: Vertex, order: seq<Vertex>, list: seq<string>, v: Vertex)
    requires IdsIdentify(t) && BreadthFirst(t, order) && CountsKeys(order, v.id, list) && SortedBy(list, LeqStrings) && v in order
    ensures ListedAt(t, list, v, v.id)
  {
    hide Visits, Subs, Unrolled, SortedBy;
    VisitedAre(t, order);
    forall k ensures multiset(list)[k] == if k in v.vertices.Keys then Paths(t, v) else 0 { KeyCountOfOne(order, v, k); }
  }

  lemma NodesAreKnown(t: Vertex, order: seq<Vertex>, nodeInfo: map<string, NodeInfo>)
    requires IdsIdentify(t) && BreadthFirst(t, order) && NodesSeen(order, nodeInfo)
    ensures NodesKnown(t, nodeInfo)
  {
    hide Subs, BreadthFirst, NoneBefore;
    VisitedAre(t, order);
    forall v | v in Subs(t) && IsNode(v) ensures v.name in nodeInfo {
      var i := FirstIndex(order, v);
      assert order[i] in order;
      assert IsNewNode(order, i);
    }
    forall n | n in nodeInfo ensures exists v :: v in Subs(t) && InfoFrom(v, n, nodeInfo[n]) {
      var i :| 0 <= i < |order| && LastNewNode(order, i, n) && nodeInfo[n] == NodeInfo(order[i].id, "", None);
      assert order[i] in order && InfoFrom(order[i], n, nodeInfo[n]);
    }
  }

  /** In a tree every key is listed once. */
  lemma LoadedTree(t: Vertex, tree: map<string, seq<string>>, vertices: map<string, Vertex>)
    requires IsTree(t) && GraphLoaded(t, tree, vertices)
    ensures TreeLoaded(t, tree, vertices)
  {
    hide WellFiled, OneParent, Subs, Visits, Repeats, SortedBy, SortedKeys;
    LoadedOnce(t);
    forall id | id in vertices ensures tree[id] == SortedKeys(vertices[id].vertices.Keys) {
      assert ListedAt(t, tree[id], vertices[id], id);
      OnceSorted(tree[id], vertices[id].vertices.Keys);
    }
  }

  lemma OnceSorted(s: seq<string>, keys: set<string>)
    requires SortedBy(s, LeqStrings) && Repeats(s, keys, 1)
    ensures s == SortedKeys(keys)
  {
    forall x ensures x in s <==> x in keys { assert x in s <==> multiset(s)[x] > 0; }
    CountOnce(s);
    SortedKeysSorted(keys);
    hide Leq;
    SortedListingUnique(s, SortedKeys(keys));
  }

  lemma LoadedNames(t: Vertex, nodeInfo: map<string, NodeInfo>)
    requires NamesDiffer(t) && NodesKnown(t, nodeInfo)
    ensures NodesLoaded(t, nodeInfo)
  {
    hide Subs, IsNode;
  }
}
