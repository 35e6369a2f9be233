/** The graph a model describes, as a relation, and the path to each node in it: `pkg/models/model.go`. */
module ModelGraph {
  import opened BlocksSpec
  import opened ModelSpec
  import opened Options

  // ---------- the graph as a relation ----------

  function SwitchNames(switches: seq<Switch>): set<string> {
    set s | s in switches :: s.name
  }

  ghost predicate NodeBelow(s: Switch, blocks: seq<CapacityBlock>, n: string) {
    exists cb :: cb in blocks && cb.name in s.capacityBlocks && n in cb.nodes
  }

  /** `k` is a sub-switch of `s` or a node in one of its blocks. */
  ghost predicate KidOf(s: Switch, blocks: seq<CapacityBlock>, k: string) {
    k in s.switches || NodeBelow(s, blocks, k)
  }

  /** Switches and blocks have unique names, sub-switches are declared, and no node is named like a switch. */
  ghost predicate Declared(switches: seq<Switch>, blocks: seq<CapacityBlock>) {
    && (forall i, j :: 0 <= i < j < |switches| ==> switches[i].name != switches[j].name)
    && (forall b, c :: b in blocks && c in blocks && b.name == c.name ==> b == c)
    && (forall s, c :: s in switches && c in s.switches ==> c in SwitchNames(switches))
    && (forall cb, n :: cb in blocks && n in cb.nodes ==> n !in SwitchNames(switches))
  }

  ghost predicate IsRoot(switches: seq<Switch>, x: string) {
    x in SwitchNames(switches) && forall s :: s in switches ==> x !in s.switches
  }

  ghost predicate ModelStep(switches: seq<Switch>, blocks: seq<CapacityBlock>, p: string, c: string) {
    exists s :: s in switches && s.name == p && KidOf(s, blocks, c)
  }

  /** A path from the hidden root to a node of the graph. */
  ghost predicate RootPath(switches: seq<Switch>, blocks: seq<CapacityBlock>, path: seq<string>) {
    && |path| > 1 && IsRoot(switches, path[0])
    && forall i, j :: 0 <= i < j < |path| && j == i + 1 ==> ModelStep(switches, blocks, path[i], path[j])
  }

  // ---------- paths and layers ----------

  ghost predicate Loaded(switches: seq<Switch>, blocks: seq<CapacityBlock>, nodes: map<string, Node>,
                         swmap: map<string, Switch>, cbmap: map<string, Switch>) {
    && Declared(switches, blocks) && ParentMap(switches, swmap) && OwnerMap(switches, cbmap)
    && NodesFor(swmap, cbmap, blocks, nodes)
  }

  lemma NodeNoSwitch(switches: seq<Switch>, blocks: seq<CapacityBlock>, cb: CapacityBlock, n: string, s: Switch)
    requires Declared(switches, blocks) && cb in blocks && n in cb.nodes && s in switches
    ensures n !in s.switches
  {
    hide SwitchNames;
    assert n !in SwitchNames(switches);
  }

  /** The only switch above a node is the owner of its block. */
  lemma AboveNode(switches: seq<Switch>, blocks: seq<CapacityBlock>, nodes: map<string, Node>,
                  swmap: map<string, Switch>, cbmap: map<string, Switch>, cb: CapacityBlock, n: string, p: string)
    requires Loaded(switches, blocks, nodes, swmap, cbmap) && cb in blocks && n in cb.nodes
    ensures ModelStep(switches, blocks, p, n) <==> cb.name in cbmap && cbmap[cb.name].name == p
  {
    hide LayersOf, MetadataOf;
    if ModelStep(switches, blocks, p, n) {
      var s :| s in switches && s.name == p && KidOf(s, blocks, n);
      NodeNoSwitch(switches, blocks, cb, n, s);
      var other :| other in blocks && other.name in s.capacityBlocks && n in other.nodes;
      assert nodes[n].capacityBlock == cb.name == other.name;
    }
    if cb.name in cbmap && cbmap[cb.name].name == p {
      assert KidOf(cbmap[cb.name], blocks, n);
    }
  }

  /** The only switch above a switch is its parent. */
  lemma AboveSwitch(switches: seq<Switch>, blocks: seq<CapacityBlock>, nodes: map<string, Node>,
                    swmap: map<string, Switch>, cbmap: map<string, Switch>, c: string, p: string)
    requires Loaded(switches, blocks, nodes, swmap, cbmap) && c in SwitchNames(switches)
    ensures ModelStep(switches, blocks, p, c) <==> c in swmap && swmap[c].name == p
  {
    hide NodesFor;
    if ModelStep(switches, blocks, p, c) {
      var s :| s in switches && s.name == p && KidOf(s, blocks, c);
    }
    if c in swmap && swmap[c].name == p {
      assert KidOf(swmap[c], blocks, c);
    }
  }

  lemma RootOrParent(switches: seq<Switch>, swmap: map<string, Switch>, c: string)
    requires ParentMap(switches, swmap) && c in SwitchNames(switches)
    ensures IsRoot(switches, c) <==> c !in swmap
  {}

  /** Every layer is a declared switch, and its parent is the next layer. */
  lemma LayerIs(switches: seq<Switch>, swmap: map<string, Switch>, sw: Switch, layers: seq<string>, i: nat)
    requires ParentMap(switches, swmap) && sw in switches && IsChain(swmap, sw, layers) && i < |layers|
    ensures layers[i] in SwitchNames(switches)
    ensures if i + 1 < |layers| then layers[i] in swmap && swmap[layers[i]].name == layers[i + 1] else layers[i] !in swmap
  {
    ChainSpan(swmap, sw, layers, i);
    ChainSpan(swmap, sw, layers, i + 1);
    AboveDeclared(switches, swmap, sw, i);
  }

  lemma AboveDeclared(switches: seq<Switch>, swmap: map<string, Switch>, sw: Switch, i: nat)
    requires ParentMap(switches, swmap) && sw in switches && SwitchAbove(swmap, sw, i).Some?
    ensures SwitchAbove(swmap, sw, i).value in switches
  {}

  /** Going up from the end of a path to a node gives the layers of the node, one by one. */
  lemma {:induction false} UpThePath(switches: seq<Switch>, blocks: seq<CapacityBlock>, nodes: map<string, Node>,
                                     swmap: map<string, Switch>, cbmap: map<string, Switch>,
                                     cb: CapacityBlock, n: string, path: seq<string>, j: nat)
    requires Loaded(switches, blocks, nodes, swmap, cbmap) && cb in blocks && n in cb.nodes
    requires RootPath(switches, blocks, path) && path[|path| - 1] == n && j + 1 < |path|
    ensures cb.name in cbmap && j < |nodes[n].netLayers| && path[|path| - 2 - j] == nodes[n].netLayers[j]
  {
    hide Declared, ParentMap, KidOf, ModelStep, IsRoot, IsChain, MetadataOf;
    var at := |path| - 2 - j;
    assert ModelStep(switches, blocks, path[at], path[at + 1]) by { StepAt(switches, blocks, path, at); }
    if j == 0 {
      AboveNode(switches, blocks, nodes, swmap, cbmap, cb, n, path[at]);
      ChainSpan(swmap, cbmap[cb.name], nodes[n].netLayers, 0);
    } else {
      UpThePath(switches, blocks, nodes, swmap, cbmap, cb, n, path, j - 1);
      var layers := nodes[n].netLayers;
      LayerIs(switches, swmap, cbmap[cb.name], layers, j - 1);
      AboveSwitch(switches, blocks, nodes, swmap, cbmap, layers[j - 1], path[at]);
    }
  }

  lemma StepAt(switches: seq<Switch>, blocks: seq<CapacityBlock>, path: seq<string>, i: nat)
    requires RootPath(switches, blocks, path) && i + 1 < |path|
    ensures ModelStep(switches, blocks, path[i], path[i + 1])
  {
    var j := i + 1;
    assert ModelStep(switches, blocks, path[i], path[j]);
  }

  /** The path to a node is the reverse of its layers, and there is no other. */
  lemma PathIsReverseOfLayers(switches: seq<Switch>, blocks: seq<CapacityBlock>, nodes: map<string, Node>,
                              swmap: map<string, Switch>, cbmap: map<string, Switch>,
                              cb: CapacityBlock, n: string, path: seq<string>)
    requires Loaded(switches, blocks, nodes, swmap, cbmap) && cb in blocks && n in cb.nodes
    ensures RootPath(switches, blocks, path) && path[|path| - 1] == n
            <==> cb.name in cbmap && path == Reverse(nodes[n].netLayers) + [n]
  {
    hide Declared, ParentMap, OwnerMap, NodeFor, ModelStep, IsRoot, Reverse;
    var layers := nodes[n].netLayers;
    if RootPath(switches, blocks, path) && path[|path| - 1] == n {
      PathFollowsLayers(switches, blocks, nodes, swmap, cbmap, cb, n, path);
    }
    if cb.name in cbmap && path == Reverse(layers) + [n] {
      LayersFormPath(switches, blocks, nodes, swmap, cbmap, cb, n);
    }
  }

  lemma PathFollowsLayers(switches: seq<Switch>, blocks: seq<CapacityBlock>, nodes: map<string, Node>,
                          swmap: map<string, Switch>, cbmap: map<string, Switch>, cb: CapacityBlock, n: string, path: seq<string>)
    requires Loaded(switches, blocks, nodes, swmap, cbmap) && cb in blocks && n in cb.nodes
    requires RootPath(switches, blocks, path) && path[|path| - 1] == n
    ensures cb.name in cbmap && n in nodes && path == Reverse(nodes[n].netLayers) + [n]
  {
    hide Declared, KidOf, ModelStep, IsRoot, IsChain, MetadataOf, SwitchAbove, ParentMap, SwitchNames, Reverse;
    var layers, m := nodes[n].netLayers, |path| - 1;
    UpThePath(switches, blocks, nodes, swmap, cbmap, cb, n, path, m - 1);
    assert path[0] == layers[m - 1];
    LayerIs(switches, swmap, cbmap[cb.name], layers, m - 1);
    RootOrParent(switches, swmap, path[0]);
    forall i | 0 <= i < m ensures path[i] == layers[m - 1 - i] {
      UpThePath(switches, blocks, nodes, swmap, cbmap, cb, n, path, m - 1 - i);
    }
    ReversedPath(path, layers, n);
  }

  lemma ReversedPath(path: seq<string>, layers: seq<string>, n: string)
    requires |path| == |layers| + 1 && path[|layers|] == n
    requires forall i :: 0 <= i < |layers| ==> path[i] == layers[|layers| - 1 - i]
    ensures path == Reverse(layers) + [n]
  {
    hide Reverse;
    assert |path| == |Reverse(layers) + [n]|;
    forall i | 0 <= i < |path| ensures path[i] == (Reverse(layers) + [n])[i] {
      if i < |layers| { assert Reverse(layers)[i] == layers[|layers| - 1 - i]; }
    }
  }

  lemma LayersFormPath(switches: seq<Switch>, blocks: seq<CapacityBlock>, nodes: map<string, Node>,
                       swmap: map<string, Switch>, cbmap: map<string, Switch>, cb: CapacityBlock, n: string)
    requires Loaded(switches, blocks, nodes, swmap, cbmap) && cb in blocks && n in cb.nodes && cb.name in cbmap
    ensures n in nodes && RootPath(switches, blocks, Reverse(nodes[n].netLayers) + [n])
  {
    hide Declared, KidOf, ModelStep, IsRoot, IsChain, MetadataOf;
    var layers, sw := nodes[n].netLayers, cbmap[cb.name];
    ChainSpan(swmap, sw, layers, 0);
    var path, k := Reverse(layers) + [n], |layers|;
    LayerIs(switches, swmap, sw, layers, k - 1);
    RootOrParent(switches, swmap, layers[k - 1]);
    forall i, j | 0 <= i < j < |path| && j == i + 1 ensures ModelStep(switches, blocks, path[i], path[j]) {
      if j < k {
        LayerIs(switches, swmap, sw, layers, k - 1 - j);
        AboveSwitch(switches, blocks, nodes, swmap, cbmap, layers[k - 1 - j], layers[k - 1 - i]);
      } else {
        AboveNode(switches, blocks, nodes, swmap, cbmap, cb, n, layers[0]);
      }
    }
  }
}
