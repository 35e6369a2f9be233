/**
 Graphs in which two vertices share an ID: what loading loses, and when the loop that prints the loaded lists ends
 (`pkg/translate/topology.go`, `pkg/translate/tree.go`).
 */
module SharedIds {
  import opened Arrivals
  import opened Loading
  import opened Ordering
  import opened Topology
  import opened TranslateSpec
  import opened Trees
  import opened Walks

  // ---------- where IDs identify vertices, printing ends ----------

  ghost function RankIn(vertices: map<string, Vertex>, id: string): nat {
    if id in vertices then |Subs(vertices[id])| else 0
  }

  lemma SmallerSet<T>(a: set<T>, b: set<T>)
    requires a < b
    ensures |a| < |b|
  {
    assert b == a + (b - a);
  }

  lemma FewerBelow(v: Vertex, k: string)
    requires k in v.vertices
    ensures |Subs(v.vertices[k])| < |Subs(v)|
  {
    hide Subs;
    SubsOfChild(v, k);
    SubsSelf(v);
    NotBelowItself(v, k);
    SmallerSet(Subs(v.vertices[k]), Subs(v));
  }

  /** The lists of a graph whose IDs identify vertices lead nowhere twice. */
  lemma LoadedEnds(t: Vertex, tree: map<string, seq<string>>, vertices: map<string, Vertex>)
    requires WellFiled(t) && GraphLoaded(t, tree, vertices)
    ensures !ComesBack(tree, t.id)
  {
    hide WellFiled, GraphLoaded, ComesBack;
    var rank := (id: string) => RankIn(vertices, id);
    forall p, c | c in ListAt(tree, p) ensures rank(c) < rank(p) { ListedIsBelow(t, tree, vertices, p, c); }
    RankedEnds(tree, t.id, rank);
  }

  lemma ListedIsBelow(t: Vertex, tree: map<string, seq<string>>, vertices: map<string, Vertex>, p: string, c: string)
    requires WellFiled(t) && GraphLoaded(t, tree, vertices) && c in ListAt(tree, p)
    ensures RankIn(vertices, c) < RankIn(vertices, p)
  {
    hide WellFiled, Subs, SortedBy, Visits;
    var v := vertices[p];
    assert ListedAt(t, tree[p], v, p) && multiset(tree[p])[c] > 0;
    FiledKids(t, v);
    FewerBelow(v, c);
  }

  // ---------- a compute node with the ID of its switch ----------

  const NODE_A := Vertex("n1", "a", map[])
  const SWITCH_A := Vertex("", "a", map["a" := NODE_A])
  const ROOT_A := Vertex("", "", map["a" := SWITCH_A])

  lemma {:induction false} FlattenStarts<T>(chunks: seq<seq<T>>, n: nat)
    requires n <= |chunks|
    ensures |Flatten(chunks[..n])| <= |Flatten(chunks)| && Flatten(chunks)[..|Flatten(chunks[..n])|] == Flatten(chunks[..n])
    decreases |chunks| - n
  {
    if n == |chunks| {
      assert chunks[..n] == chunks;
    } else {
      FlattenStarts(chunks, n + 1);
      FlattenNext(chunks, n);
    }
  }

  lemma FlattenNext<T>(chunks: seq<seq<T>>, n: nat)
    requires n < |chunks|
    ensures Flatten(chunks[..n + 1]) == Flatten(chunks[..n]) + chunks[n]
  {
    assert chunks[..n + 1][..n] == chunks[..n];
  }

  /** The next visit is decided by the visits before. */
  lemma VisitDecided(t: Vertex, order: seq<Vertex>, chunks: seq<seq<Vertex>>, n: nat)
    requires UnrolledBy(t, order, [], chunks) && n <= |order|
    ensures if n == |order| then |Flatten(chunks[..n])| + 1 == n
            else n <= |Flatten(chunks[..n])| && order[n] == ([t] + Flatten(chunks[..n]))[n] && AppendsKids(order[n], chunks[n])
                 && Flatten(chunks[..n + 1]) == Flatten(chunks[..n]) + chunks[n]
  {
    hide AppendsKids;
    assert order + [] == order;
    if n == |order| {
      assert chunks[..n] == chunks;
    } else {
      FlattenStarts(chunks, n);
      FlattenNext(chunks, n);
      if n > 0 { assert order[n] == Flatten(chunks)[n - 1] && Flatten(chunks[..n])[n - 1] == Flatten(chunks)[..|Flatten(chunks[..n])|][n - 1]; }
    }
  }

  lemma OneKid(v: Vertex, k: string, kids: seq<Vertex>)
    requires AppendsKids(v, kids) && v.vertices.Keys == {k}
    ensures kids == [v.vertices[k]]
  {
    var ids :| Lists(ids, {k}) && kids == ChildrenAt(v, ids);
    CountOfDistinct(ids);
    assert multiset(ids) == multiset{k} && |ids| == |multiset(ids)|;
    assert ids[0] in ids;
  }

  lemma NoKid(v: Vertex, kids: seq<Vertex>)
    requires AppendsKids(v, kids) && v.vertices == map[]
    ensures kids == []
  {
    var ids :| Lists(ids, v.vertices.Keys) && kids == ChildrenAt(v, ids);
    assert multiset(ids) == multiset{} && |ids| == |multiset(ids)|;
  }

  lemma OrderOfA(order: seq<Vertex>)
    requires BreadthFirst(ROOT_A, order)
    ensures order == [ROOT_A, SWITCH_A, NODE_A]
  {
    hide AppendsKids, UnrolledBy, Visits;
    var chunks :| UnrolledBy(ROOT_A, order, [], chunks);
    assert |chunks| == |order| by { ChunkForEach(ROOT_A, order, chunks); }
    assert chunks[..0] == [];
    VisitDecided(ROOT_A, order, chunks, 0);
    OneKid(ROOT_A, "a", chunks[0]);
    VisitDecided(ROOT_A, order, chunks, 1);
    OneKid(SWITCH_A, "a", chunks[1]);
    VisitDecided(ROOT_A, order, chunks, 2);
    NoKid(NODE_A, chunks[2]);
    VisitDecided(ROOT_A, order, chunks, 3);
  }

  lemma ChunkForEach(t: Vertex, order: seq<Vertex>, chunks: seq<seq<Vertex>>)
    requires UnrolledBy(t, order, [], chunks)
    ensures |chunks| == |order|
  {}

  lemma KeysOfA(order: seq<Vertex>, id: string, list: seq<string>)
    requires order == [ROOT_A, SWITCH_A, NODE_A] && CountsKeys(order, id, list) && id in {"", "a"}
    ensures list == ["a"]
  {
    assert order[..2] == [ROOT_A, SWITCH_A] && order[..2][..1] == [ROOT_A] && order[..2][..1][..0] == [];
    forall k ensures KeyCount(order, id, k) == if k == "a" then 1 else 0 {
      assert KeyCount([ROOT_A], id, k) == if id == "" && k == "a" then 1 else 0;
      assert KeyCount(order[..2], id, k) == if k == "a" then 1 else 0;
    }
    forall i | 0 <= i < |list| ensures list[i] == "a" { assert multiset(list)[list[i]] > 0; }
    assert |multiset(list)| == |list| && multiset(list) == multiset{"a"};
  }

  lemma NodesOfA(order: seq<Vertex>, nodeInfo: map<string, NodeInfo>)
    requires order == [ROOT_A, SWITCH_A, NODE_A] && NodesSeen(order, nodeInfo)
    ensures NODE_A.name !in nodeInfo
  {
    assert order[1].id == order[2].id && !IsNewNode(order, 2);
    forall info ensures !KnownBy(order, NODE_A.name, info) {}
  }

  /** A compute node with the ID of its switch is lost, and the switch is listed below itself. */
  lemma NodeWithSwitchId(order: seq<Vertex>, tree: map<string, seq<string>>, vertices: map<string, Vertex>, nodeInfo: map<string, NodeInfo>)
    requires BreadthFirst(ROOT_A, order) && WalkLoaded(order, tree, vertices, nodeInfo)
    ensures IsNode(NODE_A) && NODE_A in order && NODE_A.name !in nodeInfo
    ensures tree == map["" := ["a"], "a" := ["a"]] && vertices == map["" := ROOT_A, "a" := SWITCH_A]
  {
    hide BreadthFirst, CountsKeys, SortedBy, NodesSeen, FirstWith;
    OrderOfA(order);
    assert order[0] == ROOT_A && order[1] == SWITCH_A && order[2] == NODE_A;
    TwoFiled(order, tree, vertices);
    KeysOfA(order, "", tree[""]);
    KeysOfA(order, "a", tree["a"]);
    NodesOfA(order, nodeInfo);
  }

  lemma TwoFiled(order: seq<Vertex>, tree: map<string, seq<string>>, vertices: map<string, Vertex>)
    requires order == [ROOT_A, SWITCH_A, NODE_A] && Tabled(order, tree, vertices)
    ensures vertices == map["" := ROOT_A, "a" := SWITCH_A]
  {
    hide CountsKeys;
    assert order[0] in order && order[1] in order;
    forall id | id in vertices ensures id in {"", "a"} { FiledIfSeen(order, tree, vertices, id); }
    assert FirstWith(order, "", vertices[""]) && FirstWith(order, "a", vertices["a"]);
  }

  /** Printing that graph never ends: in no run of the loop is the queue ever empty. */
  lemma PrintingNeverEnds(order: seq<Vertex>, tree: map<string, seq<string>>, vertices: map<string, Vertex>, nodeInfo: map<string, NodeInfo>,
                          run: seq<seq<string>>)
    requires BreadthFirst(ROOT_A, order) && WalkLoaded(order, tree, vertices, nodeInfo) && IsWalk(tree, "", run)
    ensures run != [] && run[|run| - 1] != []
  {
    hide BreadthFirst, WalkLoaded, IsWalk;
    NodeWithSwitchId(order, tree, vertices, nodeInfo);
    var way := ["", "a", "a"];
    assert IsWay(tree, way) && Repeating(way) by { assert way[1] == way[2]; }
    WalkNotEmpty(tree, "", run);
  }
}
