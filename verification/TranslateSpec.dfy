/** What the translation's tables hold after the tree data has been traversed. */
module TranslateSpec {
  import opened Options
  import opened Ordering
  import opened Topology
  import opened Trees

  const TOPOLOGY_TREE := "topology/tree"
  const TOPOLOGY_BLOCK := "topology/block"

  datatype NodeInfo = NodeInfo(instanceID: string, blockID: string, blockIndx: Option<nat>)

  datatype BlockInfo = BlockInfo(id: string, name: string, indx: nat, nodes: seq<string>)

  /** No node has been told a block. */
  ghost predicate NoBlocksYet(nodeInfo: map<string, NodeInfo>) {
    forall n :: n in nodeInfo ==> nodeInfo[n].blockID == "" && nodeInfo[n].blockIndx == None
  }

  /** `s` lists a set of keys, in some order. */
  ghost predicate Lists(s: seq<string>, keys: set<string>) {
    && (forall x :: x in s <==> x in keys)
    && (forall i, j :: 0 <= i < j < |s| ==> s[i] != s[j])
  }

  lemma SortedLists(keys: set<string>)
    ensures Lists(SortedKeys(keys), keys)
  {
    SortedKeysSorted(keys);
    hide Leq;
  }

  predicate LeqStrings(a: string, b: string) {
    Leq(a, b)
  }

  lemma LeqStringsPreorder()
    ensures TotalPreorder(LeqStrings)
  {
    forall a, b ensures LeqStrings(a, b) || LeqStrings(b, a) { LeqTotal(a, b); }
    forall a, b, c | LeqStrings(a, b) && LeqStrings(b, c) ensures LeqStrings(a, c) { LeqTransitive(a, b, c); }
  }

  // ---------- what the fields hold after initTree ----------

  ghost predicate TreeLoaded(t: Vertex, tree: map<string, seq<string>>, vertices: map<string, Vertex>) {
    && tree.Keys == vertices.Keys
    && (forall v :: v in Subs(t) <==> v.id in vertices && vertices[v.id] == v)
    && (forall id :: id in vertices ==> vertices[id].id == id && tree[id] == SortedKeys(vertices[id].vertices.Keys))
  }

  ghost predicate NodesLoaded(t: Vertex, nodeInfo: map<string, NodeInfo>) {
    && (forall v :: v in Subs(t) && IsNode(v) ==> v.name in nodeInfo && nodeInfo[v.name] == NodeInfo(v.id, "", None))
    && (forall n :: n in nodeInfo ==> exists v :: v in Subs(t) && IsNode(v) && v.name == n)
  }
}
