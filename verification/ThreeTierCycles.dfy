/**
 Records in which a switch comes to lie below itself: when that happens, and what it does to the loops that
 walk the graph (`pkg/topology/graph.go`, `pkg/translate/topology.go`).
 */
module ThreeTierCycles {
  import opened Ordering
  import opened ThreeTierSpec
  import opened ThreeTierTree
  import opened Topology
  import opened Walks

  /** A chain of links, read downwards. */
  ghost predicate IsLinkChain(g: Graph, chain: seq<string>) {
    chain != [] && forall i, j :: 0 <= i && j == i + 1 && j < |chain| ==> Link(g, chain[i], chain[j])
  }

  ghost predicate IsCycle(g: Graph, chain: seq<string>) {
    |chain| > 1 && IsLinkChain(g, chain) && chain[0] == chain[|chain| - 1]
  }

  /** Something lies below itself. */
  ghost predicate HasCycle(g: Graph) {
    exists chain :: IsCycle(g, chain)
  }

  /** The children of every ID, as lists. */
  ghost function ChildLists(g: Graph): map<string, seq<string>> {
    map p | p in {"", NO_TOPOLOGY} + set l | l in LinksOf(g.used) :: l.0 :: SortedKeys(KidsOf(g, p))
  }

  lemma ListedAreLinked(g: Graph, p: string, c: string)
    ensures c in ListAt(ChildLists(g), p) <==> Link(g, p, c)
    ensures Link(g, p, c) ==> c in KidsOf(g, p)
  {
    hide Tops, LinksOf, Instances;
    if Link(g, p, c) {
      if (p, c) in LinksOf(g.used) { assert (p, c).0 == p && (p, c).1 == c; }
      assert c in Below(g);
    }
  }

  lemma ChainsAgree(g: Graph, chain: seq<string>)
    ensures IsLinkChain(g, chain) <==> IsWay(ChildLists(g), chain)
  {
    hide Link, ListAt, ChildLists;
    forall p, c ensures c in ListAt(ChildLists(g), p) <==> Link(g, p, c) { ListedAreLinked(g, p, c); }
  }

  lemma ChainPart(g: Graph, chain: seq<string>, i: nat, j: nat)
    requires IsLinkChain(g, chain) && i < j <= |chain|
    ensures IsLinkChain(g, chain[i..j])
  {
    hide Link;
    var part := chain[i..j];
    forall a, b | 0 <= a && b == a + 1 && b < |part| ensures Link(g, part[a], part[b]) {
      assert part[a] == chain[i + a] && part[b] == chain[i + b];
      assert i + b == (i + a) + 1;
    }
  }

  lemma ChainOn(g: Graph, chain: seq<string>, more: seq<string>)
    requires IsLinkChain(g, chain) && IsLinkChain(g, more) && chain[|chain| - 1] == more[0]
    ensures IsLinkChain(g, chain + more[1..])
  {
    hide Link;
    var all := chain + more[1..];
    forall i, j | 0 <= i && j == i + 1 && j < |all| ensures Link(g, all[i], all[j]) {
      if j >= |chain| {
        var a, b := i - |chain| + 1, j - |chain| + 1;
        assert b == a + 1 && all[i] == more[a] && all[j] == more[b];
      }
    }
  }

  // ---------- the root leads everywhere ----------

  lemma {:induction false} RecordReached(g: Graph, r: Record, l: nat) returns (down: seq<string>)
    requires r in g.used && l <= 4 && Known(r, l)
    ensures IsLinkChain(g, down) && down[0] == "" && down[|down| - 1] == IdAt(r, l)
    decreases 4 - l
  {
    hide Link;
    if l == 4 {
      down := [""];
    } else {
      var m := LevelLink(g, r, l);
      down := RecordReached(g, r, m);
      ChainOn(g, down, [IdAt(r, m), IdAt(r, l)]);
      down := down + [IdAt(r, l)];
    }
  }

  /** What has something below it is reached from the root. */
  lemma Reached(g: Graph, p: string, c: string) returns (down: seq<string>)
    requires Link(g, p, c)
    ensures IsLinkChain(g, down) && down[0] == "" && down[|down| - 1] == p
  {
    hide NextKnown, IdAt, Known, Tops, LinksOf;
    RecordLinks(g.used, p, c);
    if RecordLink(g.used, p, c) {
      var r, l: nat, m: nat :| r in g.used && NextKnown(r, l, m) && c == IdAt(r, l) && p == IdAt(r, m);
      LevelsKnown(r, l, m);
      down := RecordReached(g, r, m);
    } else if p == "" {
      down := [""];
    } else {
      assert Link(g, "", NO_TOPOLOGY);
      down := ["", NO_TOPOLOGY];
    }
  }

  /** A cycle is reached from the root, and what comes back has gone round a cycle. */
  lemma CycleComesBack(g: Graph)
    ensures HasCycle(g) <==> ComesBack(ChildLists(g), "")
  {
    hide Link, ChildLists, IsWay, IsLinkChain;
    if HasCycle(g) {
      var cycle :| IsCycle(g, cycle);
      CycleBelowRoot(g, cycle);
    }
    if ComesBack(ChildLists(g), "") {
      var chain :| chain != [] && chain[0] == "" && IsWay(ChildLists(g), chain) && Repeating(chain);
      ChainsAgree(g, chain);
      var i: nat, j: nat :| i < j < |chain| && chain[i] == chain[j];
      var next := j + 1;
      ChainPart(g, chain, i, next);
      assert IsCycle(g, chain[i..next]);
    }
  }

  lemma CycleBelowRoot(g: Graph, cycle: seq<string>)
    requires IsCycle(g, cycle)
    ensures ComesBack(ChildLists(g), "")
  {
    hide Link, ChildLists, IsWay;
    var one := 1;
    assert Link(g, cycle[0], cycle[one]);
    var down := Reached(g, cycle[0], cycle[one]);
    ChainOn(g, down, cycle);
    var chain := down + cycle[1..];
    assert chain[|down| - 1] == chain[|chain| - 1];
    assert Repeating(chain);
    ChainsAgree(g, chain);
  }

  /** The breadth-first loops over the graph end, in every order of the children, if and only if nothing lies below itself. */
  lemma GraphWalksEnd(g: Graph)
    ensures !HasCycle(g) <==> exists n: nat :: WalksWithin(ChildLists(g), "", n)
    ensures HasCycle(g) ==> forall run :: IsWalk(ChildLists(g), "", run) ==> run[|run| - 1] != []
  {
    hide HasCycle, IsWalk, ComesBack, ChildLists;
    CycleComesBack(g);
    WalksEnd(ChildLists(g), "");
    forall run | HasCycle(g) && IsWalk(ChildLists(g), "", run) ensures run != [] && run[|run| - 1] != [] {
      WalkNotEmpty(ChildLists(g), "", run);
    }
  }

  /** What is below an ID, down to depth `n`. */
  ghost function Unfolded(g: Graph, id: string, n: nat): Vertex
    decreases n
  {
    Vertex(Label(g, id), id, if n == 0 then map[] else map c | c in KidsOf(g, id) :: Unfolded(g, c, n - 1))
  }

  // ---------- tiers ----------

  /** Links that always lead to a lower rank form no cycle. */
  lemma RankedNoCycle(g: Graph, rank: string -> nat)
    requires forall p, c :: Link(g, p, c) ==> rank(c) < rank(p)
    ensures !HasCycle(g)
  {
    hide Link, ListAt, ChildLists, ComesBack, HasCycle;
    forall p, c | c in ListAt(ChildLists(g), p) ensures rank(c) < rank(p) { ListedAreLinked(g, p, c); }
    RankedEnds(ChildLists(g), "", rank);
    CycleComesBack(g);
  }

  /** Tiers without common IDs are enough. */
  lemma TiersNoCycle(g: Graph)
    requires Buildable(g)
    ensures !HasCycle(g)
  {
    hide Buildable, Link, Tier, HasCycle;
    var rank := (id: string) => Tier(g, id);
    forall p, c | Link(g, p, c) ensures rank(c) < rank(p) { LinkDescends(g, p, c); }
    RankedNoCycle(g, rank);
  }

  const SAME_SWITCH := Record("i-1", "x", "", "x", "", "", "", "")

  /** A record that names one switch as block and as spine is accepted, and puts it below itself. */
  lemma BelowItself()
    ensures var names := map["i-1" := "n1"];
            var g := Graph(Used([SAME_SWITCH], names.Keys), names);
            IdsFree(g) && IsCycle(g, ["x", "x"]) && HasCycle(g)
  {
    hide IdsFree, IsCycle, HasCycle;
    var names := map["i-1" := "n1"];
    UsedAlone(SAME_SWITCH, names.Keys);
    var g := Graph([SAME_SWITCH], names);
    OneRecordFree(g);
    assert g.used[0] == SAME_SWITCH;
    LevelIsCycle(g, SAME_SWITCH);
  }

  lemma UsedAlone(r: Record, ids: set<string>)
    requires r.instanceID in ids
    ensures Used([r], ids) == [r]
  {
    assert [r][..0] == [];
  }

  lemma OneRecordFree(g: Graph)
    requires g == Graph([SAME_SWITCH], map["i-1" := "n1"])
    ensures IdsFree(g)
  {
    assert g.used[0] == SAME_SWITCH;
  }

  /** Equal IDs on consecutive levels. */
  lemma LevelIsCycle(g: Graph, r: Record)
    requires r in g.used && r.blockID != "" && r.blockID == r.spineID
    ensures IsCycle(g, [r.blockID, r.blockID]) && HasCycle(g)
  {
    hide Link;
    assert IdAt(r, 1) == r.blockID && IdAt(r, 2) == r.spineID;
    assert NextKnown(r, 1, 2);
    assert RecordLink(g.used, r.blockID, r.blockID);
    LinkOfRecord(g, r.blockID, r.blockID);
    assert IsCycle(g, [r.blockID, r.blockID]);
  }

  const BLOCK_B := Record("i-1", "b", "", "s", "", "", "", "")
  const SPINE_B := Record("i-2", "a", "", "b", "", "", "", "")

  ghost function HeightOf(id: string): nat {
    if id == "" then 4 else if id == "s" then 3 else if id == "b" then 2 else if id == "a" then 1 else 0
  }

  lemma HeightsDescend(r: Record, l: nat, m: nat)
    requires (r == BLOCK_B || r == SPINE_B) && NextKnown(r, l, m)
    ensures HeightOf(IdAt(r, l)) < HeightOf(IdAt(r, m))
  {}

  lemma TwoRecordsFree(g: Graph)
    requires g == Graph([BLOCK_B, SPINE_B], map["i-1" := "n1", "i-2" := "n2"])
    ensures IdsFree(g) && Missing(g) == {} && !TiersApart(g.used)
  {
    assert g.used[0] == BLOCK_B && g.used[1] == SPINE_B;
    assert SwitchAt(BLOCK_B, 0) == SwitchAt(SPINE_B, 1);
    assert Instances(g.used) == {"i-1", "i-2"};
  }

  /** The condition is weaker than different IDs in different tiers: a block of one record may be the spine of another. */
  lemma TwoTiersNoCycle()
    ensures var g := Graph([BLOCK_B, SPINE_B], map["i-1" := "n1", "i-2" := "n2"]);
            IdsFree(g) && !TiersApart(g.used) && !HasCycle(g)
  {
    hide HasCycle, IdsFree, TiersApart, Link, Missing, NextKnown, IdAt;
    var g := Graph([BLOCK_B, SPINE_B], map["i-1" := "n1", "i-2" := "n2"]);
    TwoRecordsFree(g);
    var rank := (id: string) => HeightOf(id);
    forall p, c | Link(g, p, c) ensures rank(c) < rank(p) {
      LinkOrRoot(g, p, c);
      var r, l: nat, m: nat :| r in g.used && NextKnown(r, l, m) && c == IdAt(r, l) && p == IdAt(r, m);
      HeightsDescend(r, l, m);
    }
    RankedNoCycle(g, rank);
  }

  lemma LinkOrRoot(g: Graph, p: string, c: string)
    requires Link(g, p, c) && Missing(g) == {}
    ensures RecordLink(g.used, p, c)
  {
    RecordLinks(g.used, p, c);
  }
}
