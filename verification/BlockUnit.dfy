/** The blocks emitted for a partition: `pkg/translate/yaml.go`. */
module BlockUnit {
  import opened Numerals
  import opened Options
  import opened Ordering
  import opened Printing
  import opened TranslateSpec

  datatype BlockOut = BlockOut(name: string, nodes: string)

  function IndexOfNode(nodeInfo: map<string, NodeInfo>, n: string): Option<nat> {
    if n in nodeInfo then nodeInfo[n].blockIndx else None
  }

  /** The requested nodes of one block, in the order of the request. */
  function Group(names: seq<string>, nodeInfo: map<string, NodeInfo>, k: nat): seq<string> {
    if names == [] then []
    else
      var n := names[|names| - 1];
      Group(names[..|names| - 1], nodeInfo, k) + if IndexOfNode(nodeInfo, n) == Some(k) then [n] else []
  }

  function GroupInfo(names: seq<string>, nodeInfo: map<string, NodeInfo>, k: nat): BlockInfo {
    BlockInfo("", "", k, Group(names, nodeInfo, k))
  }

  /** Exactly the blocks with a requested node, by increasing index. */
  ghost predicate Grouped(names: seq<string>, nodeInfo: map<string, NodeInfo>, infos: seq<BlockInfo>) {
    && (forall i, j :: 0 <= i < j < |infos| ==> infos[i].indx < infos[j].indx)
    && (forall b :: b in infos ==> b == GroupInfo(names, nodeInfo, b.indx) && b.nodes != [])
    && (forall k: nat :: Group(names, nodeInfo, k) != [] ==> GroupInfo(names, nodeInfo, k) in infos)
  }

  /** The blocks are renumbered in order. */
  ghost predicate Renumbered(infos: seq<BlockInfo>, out: seq<BlockOut>) {
    && |out| == |infos|
    && forall i :: 0 <= i < |out| ==> out[i] == BlockOut("block" + Dec(i), OneLine(infos[i].nodes))
  }

  predicate ByIndx(a: BlockInfo, b: BlockInfo) {
    a.indx <= b.indx
  }

  lemma {:induction false} GroupMember(names: seq<string>, nodeInfo: map<string, NodeInfo>, k: nat)
    ensures forall n :: n in Group(names, nodeInfo, k) <==> n in names && IndexOfNode(nodeInfo, n) == Some(k)
  {
    if names != [] {
      var front, last := names[..|names| - 1], names[|names| - 1];
      assert names == front + [last];
      GroupMember(front, nodeInfo, k);
    }
  }

  lemma {:induction false} GroupCount(names: seq<string>, nodeInfo: map<string, NodeInfo>, k: nat, n: string)
    ensures multiset(Group(names, nodeInfo, k))[n] == if IndexOfNode(nodeInfo, n) == Some(k) then multiset(names)[n] else 0
  {
    if names != [] {
      var front, last := names[..|names| - 1], names[|names| - 1];
      assert names == front + [last];
      GroupCount(front, nodeInfo, k, n);
    }
  }

  lemma GroupSnoc(names: seq<string>, i: nat, nodeInfo: map<string, NodeInfo>, k: nat)
    requires i < |names|
    ensures Group(names[..i + 1], nodeInfo, k) ==
            Group(names[..i], nodeInfo, k) + if IndexOfNode(nodeInfo, names[i]) == Some(k) then [names[i]] else []
  {
    assert names[..i + 1][..i] == names[..i];
  }

  lemma SortedByIndx(infos: seq<BlockInfo>)
    requires forall i, j :: 0 <= i < j < |infos| ==> infos[i].indx != infos[j].indx
    ensures forall b :: b in SortBy(infos, ByIndx) <==> b in infos
    ensures forall i, j :: 0 <= i < j < |SortBy(infos, ByIndx)| ==> SortBy(infos, ByIndx)[i].indx < SortBy(infos, ByIndx)[j].indx
  {
    hide SortBy;
    var s := SortBy(infos, ByIndx);
    SortBySorted(infos, ByIndx);
    SortByPermutes(infos, ByIndx);
    SameMembers(s, infos);
    CountOnce(infos);
    CountOnce(s);
    forall i, j | 0 <= i < j < |s| ensures s[i].indx < s[j].indx {
      assert s[i] in infos && s[j] in infos && s[i] != s[j];
    }
  }

  /** Sorting the blocks by index, in whatever order the map yielded them. */
  lemma SortedGroups(names: seq<string>, nodeInfo: map<string, NodeInfo>, infos: seq<BlockInfo>)
    requires forall i, j :: 0 <= i < j < |infos| ==> infos[i].indx != infos[j].indx
    requires forall b :: b in infos ==> b == GroupInfo(names, nodeInfo, b.indx) && b.nodes != []
    requires forall k: nat :: Group(names, nodeInfo, k) != [] ==> GroupInfo(names, nodeInfo, k) in infos
    ensures Grouped(names, nodeInfo, SortBy(infos, ByIndx))
  {
    hide SortBy, Group;
    SortedByIndx(infos);
  }

  lemma NoGroups(nodeInfo: map<string, NodeInfo>)
    ensures forall k :: Group([], nodeInfo, k) == []
  {}

  /** There are blocks exactly if some requested node has a block. */
  lemma SomeBlock(names: seq<string>, nodeInfo: map<string, NodeInfo>, infos: seq<BlockInfo>)
    requires Grouped(names, nodeInfo, infos)
    ensures infos != [] <==> exists n :: n in names && IndexOfNode(nodeInfo, n).Some?
  {
    hide Group;
    if n :| n in names && IndexOfNode(nodeInfo, n).Some? {
      GroupMember(names, nodeInfo, IndexOfNode(nodeInfo, n).value);
      assert n in Group(names, nodeInfo, IndexOfNode(nodeInfo, n).value);
    }
    if infos != [] {
      var b := infos[0];
      assert b in infos;
      GroupMember(names, nodeInfo, b.indx);
      assert b.nodes[0] in Group(names, nodeInfo, b.indx);
    }
  }

  // ---------- what the blocks hold ----------

  /** How often a node is listed in all blocks together. */
  ghost function TimesInBlocks(infos: seq<BlockInfo>, n: string): nat {
    if infos == [] then 0 else TimesInBlocks(infos[..|infos| - 1], n) + multiset(infos[|infos| - 1].nodes)[n]
  }

  lemma {:induction false} TimesUpTo(names: seq<string>, nodeInfo: map<string, NodeInfo>, infos: seq<BlockInfo>, n: string)
    requires forall i, j :: 0 <= i < j < |infos| ==> infos[i].indx < infos[j].indx
    requires forall b :: b in infos ==> b == GroupInfo(names, nodeInfo, b.indx)
    ensures TimesInBlocks(infos, n) ==
            if exists b :: b in infos && IndexOfNode(nodeInfo, n) == Some(b.indx) then multiset(names)[n] else 0
  {
    hide Group, IndexOfNode;
    if infos != [] {
      var front, last := infos[..|infos| - 1], infos[|infos| - 1];
      assert infos == front + [last];
      TimesUpTo(names, nodeInfo, front, n);
      GroupCount(names, nodeInfo, last.indx, n);
      assert last in infos;
      forall b | b in front ensures b.indx != last.indx {
        var i :| 0 <= i < |front| && front[i] == b;
        assert infos[i].indx < infos[|infos| - 1].indx;
      }
    }
  }

  /** A requested node with a block index is in the blocks as often as it was requested; no other node is. */
  lemma NodesConserved(names: seq<string>, nodeInfo: map<string, NodeInfo>, infos: seq<BlockInfo>, n: string)
    requires Grouped(names, nodeInfo, infos)
    ensures TimesInBlocks(infos, n) == if IndexOfNode(nodeInfo, n).Some? then multiset(names)[n] else 0
  {
    hide Group, IndexOfNode;
    TimesUpTo(names, nodeInfo, infos, n);
    if IndexOfNode(nodeInfo, n).Some? && n in names {
      var k := IndexOfNode(nodeInfo, n).value;
      GroupMember(names, nodeInfo, k);
      assert n in Group(names, nodeInfo, k);
      assert GroupInfo(names, nodeInfo, k) in infos;
    }
  }

  /** Two nodes are in the same block exactly if they have the same index, and blocks come in the order of their indices. */
  lemma SameBlockSameIndex(names: seq<string>, nodeInfo: map<string, NodeInfo>, infos: seq<BlockInfo>, i: nat, j: nat, m: string, n: string)
    requires Grouped(names, nodeInfo, infos) && i < |infos| && j < |infos| && m in infos[i].nodes && n in infos[j].nodes
    ensures IndexOfNode(nodeInfo, m).Some? && IndexOfNode(nodeInfo, n).Some?
    ensures i == j <==> IndexOfNode(nodeInfo, m) == IndexOfNode(nodeInfo, n)
    ensures i < j <==> IndexOfNode(nodeInfo, m).value < IndexOfNode(nodeInfo, n).value
  {
    hide Group, IndexOfNode;
    assert infos[i] in infos && infos[j] in infos;
    GroupMember(names, nodeInfo, infos[i].indx);
    GroupMember(names, nodeInfo, infos[j].indx);
  }

  lemma {:induction false} GroupNoRepeats(names: seq<string>, nodeInfo: map<string, NodeInfo>, k: nat)
    requires NoRepeats(names)
    ensures NoRepeats(Group(names, nodeInfo, k))
  {
    if names != [] {
      var front, last := names[..|names| - 1], names[|names| - 1];
      assert names == front + [last];
      GroupNoRepeats(front, nodeInfo, k);
      GroupMember(front, nodeInfo, k);
      SnocNoRepeats(Group(front, nodeInfo, k), last);
      assert forall i :: 0 <= i < |front| ==> front[i] == names[i] && names[i] != names[|names| - 1];
    }
  }

  /** Reading an emitted block gives exactly the requested nodes with its index. */
  lemma BlockReadsBack(names: seq<string>, nodeInfo: map<string, NodeInfo>, infos: seq<BlockInfo>, out: seq<BlockOut>, i: nat)
    requires Grouped(names, nodeInfo, infos) && Renumbered(infos, out) && i < |out|
    requires NoRepeats(names) && Printable(names)
    ensures Reads(out[i].nodes, set n | n in names && IndexOfNode(nodeInfo, n) == Some(infos[i].indx))
  {
    hide Group, IndexOfNode, Printable, NoRepeats, Reads, OneLine;
    var k := infos[i].indx;
    assert infos[i] in infos;
    GroupMember(names, nodeInfo, k);
    GroupNoRepeats(names, nodeInfo, k);
    ReadsPart(names, Group(names, nodeInfo, k));
    assert (set n | n in Group(names, nodeInfo, k)) == set n | n in names && IndexOfNode(nodeInfo, n) == Some(k);
  }
}
