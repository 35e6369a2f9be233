/** From instance records to printed lines: where every requested node ends up. */
module ThreeTierNodes {
  import opened ClusetSpec
  import opened ClusetTheorems
  import opened Numerals
  import opened Ordering
  import opened Printing
  import opened Text
  import opened ThreeTierSpec
  import opened ThreeTierTree
  import opened Topology
  import opened TreeOutput
  import opened Trees

  /** The lowest switch of a record, or the empty ID. */
  function FirstSwitch(r: Record): string {
    if r.blockID != "" then r.blockID else if r.spineID != "" then r.spineID else r.datacenterID
  }

  /** The switch a requested instance is put below. */
  ghost function HomeOf(g: Graph, x: string): string {
    if r :| r in g.used && r.instanceID == x then FirstSwitch(r) else NO_TOPOLOGY
  }

  lemma FirstLevel(r: Record) returns (m: nat)
    ensures NextKnown(r, 0, m) && IdAt(r, m) == FirstSwitch(r)
  {
    m := if r.blockID != "" then 1 else if r.spineID != "" then 2 else if r.datacenterID != "" then 3 else 4;
  }

  lemma HomeLink(g: Graph, x: string)
    requires WellFormed(g) && x in g.names
    ensures Link(g, HomeOf(g, x), x)
  {
    hide TiersApart, OneAbove, LinksOf, Tops, NextKnown;
    if r :| r in g.used && r.instanceID == x {
      var s :| s in g.used && s.instanceID == x && HomeOf(g, x) == FirstSwitch(s);
      var m := FirstLevel(s);
      assert RecordLink(g.used, HomeOf(g, x), x) by { assert IdAt(s, 0) == x; }
      RecordLinks(g.used, HomeOf(g, x), x);
    } else {
      assert x in Missing(g);
    }
  }

  /** Below something, the instances are exactly the vertices without children. */
  lemma NodeAt(g: Graph, p: string, k: string)
    requires Buildable(g) && Link(g, p, k)
    ensures IsNode(At(g, k)) <==> k in g.names
  {
    hide TiersApart, OneAbove, Link, At;
    KidsAre(g, k, "");
    if k in g.names {
      if c :| c in At(g, k).vertices {
        KidsAre(g, k, c);
        LinkDescends(g, k, c);
      }
    } else {
      SwitchHasKids(g, p, k);
      var c :| Link(g, k, c);
      KidsAre(g, k, c);
    }
  }

  lemma ChildNodes(g: Graph, p: string, n: string)
    requires WellFormed(g)
    ensures ChildNode(At(g, p), n) <==> exists x :: x in g.names && g.names[x] == n && Link(g, p, x)
  {
    hide TiersApart, OneAbove, Link, At, IsNode;
    var v := At(g, p);
    if ChildNode(v, n) {
      var k :| k in v.vertices && IsNode(v.vertices[k]) && v.vertices[k].name == n;
      KidsAre(g, p, k);
      KidsAre(g, k, k);
      NodeAt(g, p, k);
    }
    if x :| x in g.names && g.names[x] == n && Link(g, p, x) {
      KidsAre(g, p, x);
      KidsAre(g, x, x);
      NodeAt(g, p, x);
    }
  }

  /** A requested node is a child of its home, and of nothing else. */
  lemma ChildOfHome(g: Graph, p: string, x: string)
    requires WellFormed(g) && x in g.names
    ensures ChildNode(At(g, p), g.names[x]) <==> p == HomeOf(g, x)
  {
    hide TiersApart, OneAbove, Link, At, ChildEntry, HomeOf;
    ChildNodes(g, p, g.names[x]);
    HomeLink(g, x);
    if ChildNode(At(g, p), g.names[x]) {
      var y :| y in g.names && g.names[y] == g.names[x] && Link(g, p, y);
      OneParentId(g, p, HomeOf(g, x), x);
    }
  }

  lemma {:induction false} LevelsAbove(g: Graph, r: Record, l: nat, n: nat)
    requires WellFormed(g) && r in g.used && l <= n <= 4 && Known(r, l) && Known(r, n)
    ensures At(g, IdAt(r, l)) in Subs(At(g, IdAt(r, n)))
    decreases n - l
  {
    hide Buildable, OneAbove, NamesApart, At, Subs, Link, IdAt;
    if l == n {
      SubsSelf(At(g, IdAt(r, l)));
    } else {
      var m := LevelLink(g, r, l);
      LevelsAbove(g, r, m, n);
      KidsAre(g, IdAt(r, m), IdAt(r, l));
      SubsChild(At(g, IdAt(r, n)), At(g, IdAt(r, m)), IdAt(r, l));
    }
  }

  lemma {:induction false} AboveIsLevel(g: Graph, r: Record, v: Vertex) returns (l: nat)
    requires WellFormed(g) && r in g.used && Placed(g, v) && At(g, r.instanceID) in Subs(v)
    ensures l <= 4 && Known(r, l) && v.id == IdAt(r, l)
    decreases v
  {
    hide Buildable, OneAbove, NamesApart, At, Link, IdAt;
    InstanceLevel(r);
    if v == At(g, r.instanceID) {
      KidsAre(g, r.instanceID, "");
      l := 0;
    } else {
      var k :| k in v.vertices && At(g, r.instanceID) in Subs(v.vertices[k]);
      KidsAre(g, v.id, k);
      KidsAre(g, k, k);
      var below := AboveIsLevel(g, r, v.vertices[k]);
      LinkDescends(g, v.id, k);
      RootLevel();
      l := LevelLink(g, r, below);
      OneParentId(g, v.id, IdAt(r, l), k);
    }
  }

  lemma InstanceLevel(r: Record)
    ensures IdAt(r, 0) == r.instanceID
  {}

  /** The switches above a node in the printed tree are exactly the block, spine and datacenter of its record. */
  lemma AncestorsOfNode(g: Graph, r: Record, v: Vertex)
    requires WellFormed(g) && r in g.used && v in Subs(TreeOf(g)) && v.id != "" && v.id != r.instanceID
    ensures At(g, r.instanceID) in Subs(v) <==> v.id in {r.blockID, r.spineID, r.datacenterID}
  {
    hide Buildable, OneAbove, NamesApart, At, Subs, Placed, TreeOf;
    RootPlaced(g);
    SubsPlaced(g, TreeOf(g), v);
    PlacedAt(g, v);
    if At(g, r.instanceID) in Subs(v) {
      var l := AboveIsLevel(g, r, v);
      assert l == 1 || l == 2 || l == 3;
    }
    if v.id in {r.blockID, r.spineID, r.datacenterID} {
      var l := if v.id == r.blockID then 1 else if v.id == r.spineID then 2 else 3;
      LevelsAbove(g, r, 0, l);
    }
  }

  lemma HomeReached(g: Graph, x: string)
    requires WellFormed(g) && x in g.names
    ensures At(g, HomeOf(g, x)) in Subs(TreeOf(g)) && At(g, x) in Subs(TreeOf(g))
  {
    hide TiersApart, OneAbove, At, Subs, Link, NextKnown, IdAt, Known;
    if r :| r in g.used && r.instanceID == x {
      var s :| s in g.used && s.instanceID == x && HomeOf(g, x) == FirstSwitch(s);
      var m := FirstLevel(s);
      LevelsKnown(s, 0, m);
      LevelReached(g, s, m);
    } else {
      assert x in Missing(g);
      NoTopologyReached(g);
    }
    HomeLink(g, x);
    KidsAre(g, HomeOf(g, x), x);
    SubsChild(TreeOf(g), At(g, HomeOf(g, x)), x);
  }

  lemma NoTopologyReached(g: Graph)
    requires WellFormed(g) && Missing(g) != {}
    ensures At(g, NO_TOPOLOGY) in Subs(TreeOf(g))
  {
    hide Buildable, OneAbove, NamesApart, At, Subs;
    SubsSelf(TreeOf(g));
    KidsAre(g, "", NO_TOPOLOGY);
    SubsChild(TreeOf(g), TreeOf(g), NO_TOPOLOGY);
  }

  lemma NodeShown(g: Graph, v: Vertex, x: string)
    requires WellFormed(g) && x in g.names
    ensures ShownBelow(TreeOf(g), v, NodeList, g.names[x]) <==> HomeOf(g, x) != "" && v == At(g, HomeOf(g, x))
  {
    hide Buildable, OneAbove, NamesApart, At, Subs, ChildEntry, HomeOf, Placed;
    HomeReached(g, x);
    ChildOfHome(g, HomeOf(g, x), x);
    KidsAre(g, HomeOf(g, x), "");
    if v in Subs(TreeOf(g)) {
      RootPlaced(g);
      SubsPlaced(g, TreeOf(g), v);
      PlacedAt(g, v);
      ChildOfHome(g, v.id, x);
    }
  }

  lemma PlacedAt(g: Graph, v: Vertex)
    requires Placed(g, v)
    ensures v == At(g, v.id)
  {
    hide At, Link;
  }

  lemma GraphNamesIn(g: Graph)
    requires WellFormed(g)
    ensures NamesIn(TreeOf(g), NodeList, g.names.Values)
  {
    hide Buildable, OneAbove, NamesApart, At, Subs, ChildEntry, Placed, TreeOf;
    forall v, n | v in Subs(TreeOf(g)) && ChildNode(v, n) ensures n in g.names.Values {
      RootPlaced(g);
      SubsPlaced(g, TreeOf(g), v);
      PlacedAt(g, v);
      ChildNodes(g, v.id, n);
      var x :| x in g.names && g.names[x] == n && Link(g, v.id, x);
    }
  }

  /** A requested node is printed in one list, unless it is directly below the nameless root. */
  lemma NodePrintedOnce(g: Graph, lines: seq<Line>, x: string)
    requires WellFormed(g) && Printable(SortedKeys(g.names.Values)) && Printed(TreeOf(g), lines) && x in g.names
    ensures Listed(lines, NodeList, g.names[x]) == if HomeOf(g, x) != "" then 1 else 0
  {
    hide Buildable, OneAbove, NamesApart, At, Subs, Printable, Printed, NamesIn, IsTree, NamesDiffer, Listed, HomeOf, TreeOf, ShownBelow;
    GraphIsTree(g);
    GraphNames(g);
    NamesAreEntries(TreeOf(g));
    GraphNamesIn(g);
    EachEntryListedOnce(TreeOf(g), lines, NodeList, g.names.Values, g.names[x]);
    if HomeOf(g, x) != "" {
      NodeShown(g, At(g, HomeOf(g, x)), x);
    } else {
      forall v ensures !ShownBelow(TreeOf(g), v, NodeList, g.names[x]) { NodeShown(g, v, x); }
    }
  }

  /** Whatever is printed in a list of nodes was requested, and the list is headed by the home of its instance. */
  lemma PrintedAtHome(g: Graph, lines: seq<Line>, line: Line, n: string)
    requires WellFormed(g) && Printable(SortedKeys(g.names.Values)) && Printed(TreeOf(g), lines)
    requires line in lines && line.kind == NodeList && n in ExpandList(line.list)
    ensures exists x :: x in g.names && g.names[x] == n && HomeOf(g, x) != "" && Heads(line, At(g, HomeOf(g, x)))
  {
    hide Buildable, OneAbove, NamesApart, At, Subs, Printable, Printed, IsTree, NamesDiffer, HomeOf, TreeOf, ExpandList, Heads, ChildrenNamed;
    GraphIsTree(g);
    GraphNames(g);
    NamesAreEntries(TreeOf(g));
    GraphNamesIn(g);
    ListedUnderItsParent(TreeOf(g), lines, NodeList, g.names.Values, line, n);
    var v :| ShownBelow(TreeOf(g), v, NodeList, n) && Heads(line, v);
    ShownIsNamed(g, v, n);
    var x :| x in g.names && g.names[x] == n;
    NodeShown(g, v, x);
  }

  lemma ShownIsNamed(g: Graph, v: Vertex, n: string)
    requires WellFormed(g) && ShownBelow(TreeOf(g), v, NodeList, n)
    ensures n in g.names.Values
  {
    hide Buildable, OneAbove, NamesApart, At, Subs, ChildEntry, TreeOf;
    GraphNamesIn(g);
  }

  // ---------- in terms of the records ----------

  ghost predicate HasRecord(records: seq<Record>, ids: set<string>, x: string, home: string) {
    exists r :: FirstAbout(records, ids, r) && r.instanceID == x && FirstSwitch(r) == home
  }

  /** The home of an instance is the lowest switch of its first record; later records do not matter. */
  lemma HomeByFirstRecord(records: seq<Record>, names: map<string, string>, x: string)
    requires x in names
    ensures var g := Graph(Used(records, names.Keys), names);
            if x in Instances(records) then HasRecord(records, names.Keys, x, HomeOf(g, x)) else HomeOf(g, x) == NO_TOPOLOGY
  {
    hide FirstAbout;
    var g := Graph(Used(records, names.Keys), names);
    UsedAreFirst(records, names.Keys);
    UsedInstances(records, names.Keys);
    if x in Instances(records) {
      assert x in Instances(g.used);
      var r :| r in g.used && r.instanceID == x;
    }
  }

  lemma OneFirstRecord(records: seq<Record>, ids: set<string>, r: Record, s: Record)
    requires FirstAbout(records, ids, r) && FirstAbout(records, ids, s) && r.instanceID == s.instanceID
    ensures r == s
  {}

  /** The node of a requested instance is printed once: under the lowest switch of its first record, under
      no-topology if it has no record, and not at all if that record knows no switch. */
  lemma EveryNodePrinted(records: seq<Record>, names: map<string, string>, lines: seq<Line>, x: string)
    requires var g := Graph(Used(records, names.Keys), names);
             WellFormed(g) && Printed(TreeOf(g), lines)
    requires Printable(SortedKeys(names.Values)) && x in names
    ensures Listed(lines, NodeList, names[x]) == if HasRecord(records, names.Keys, x, "") then 0 else 1
  {
    hide Buildable, OneAbove, NamesApart, Printed, Printable, TreeOf, HomeOf, Listed, FirstAbout, FirstSwitch;
    var g := Graph(Used(records, names.Keys), names);
    NodePrintedOnce(g, lines, x);
    NoHome(records, names, x);
  }

  /** An instance has no switch above it exactly if its first record knows none. */
  lemma NoHome(records: seq<Record>, names: map<string, string>, x: string)
    requires x in names
    ensures HomeOf(Graph(Used(records, names.Keys), names), x) == "" <==> HasRecord(records, names.Keys, x, "")
  {
    hide HomeOf, FirstAbout, FirstSwitch;
    var g := Graph(Used(records, names.Keys), names);
    HomeByFirstRecord(records, names, x);
    if HasRecord(records, names.Keys, x, "") {
      var r :| FirstAbout(records, names.Keys, r) && r.instanceID == x && FirstSwitch(r) == "";
      RecordExists(records, names.Keys, r);
      var s :| FirstAbout(records, names.Keys, s) && s.instanceID == x && FirstSwitch(s) == HomeOf(g, x);
      OneFirstRecord(records, names.Keys, r, s);
    }
  }

  lemma RecordExists(records: seq<Record>, ids: set<string>, r: Record)
    requires FirstAbout(records, ids, r)
    ensures r.instanceID in Instances(records)
  {}

  const LOST := Record("i-1", "", "", "", "", "", "", "")

  /** A record that knows no switch is a legal input, and its node is requested, but never printed. */
  lemma NodeWithoutSwitchLost(lines: seq<Line>)
    requires Printed(TreeOf(Graph(Used([LOST], {"i-1"}), map["i-1" := "n1"])), lines)
    ensures WellFormed(Graph(Used([LOST], {"i-1"}), map["i-1" := "n1"]))
    ensures HasRecord([LOST], {"i-1"}, "i-1", "") && Listed(lines, NodeList, "n1") == 0
  {
    hide TreeOf, Printed, Listed, Compact, ExpandList;
    var names := map["i-1" := "n1"];
    var records := [LOST];
    assert names.Keys == {"i-1"} && names.Values == {"n1"};
    assert records[..|records| - 1] == [];
    assert Used(records, names.Keys) == [LOST];
    assert FirstAbout(records, names.Keys, LOST) by { assert records[0] == LOST; }
    LostWellFormed(Graph([LOST], names));
    OneNamePrintable();
    EveryNodePrinted(records, names, lines, "i-1");
  }

  lemma LostWellFormed(g: Graph)
    requires g == Graph([LOST], map["i-1" := "n1"])
    ensures WellFormed(g)
  {
    assert LOST in g.used;
    assert Instances(g.used) == {"i-1"};
    assert Missing(g) == {};
  }

  lemma OneNamePrintable()
    ensures Printable(SortedKeys({"n1"}))
  {
    var s := SortedKeys({"n1"});
    assert forall x :: x in s <==> x in {"n1"};
    PartsOfName("n", "1");
    assert "n1" == "n" + "1";
    TrimmedEnds("n1");
    DistinctKeys({"n1"});
    CountOfDistinct(s);
    assert Val("1") == 1;
  }

  /** Nothing else is printed in the lists of nodes. */
  lemma OnlyRequestedPrinted(records: seq<Record>, names: map<string, string>, lines: seq<Line>, n: string)
    requires var g := Graph(Used(records, names.Keys), names);
             WellFormed(g) && Printed(TreeOf(g), lines)
    requires Printable(SortedKeys(names.Values)) && n !in names.Values
    ensures Listed(lines, NodeList, n) == 0
  {
    hide Buildable, OneAbove, NamesApart, At, Subs, Printable, Printed, NamesIn, IsTree, NamesDiffer, Listed, TreeOf, ShownBelow;
    var g := Graph(Used(records, names.Keys), names);
    GraphIsTree(g);
    GraphNames(g);
    NamesAreEntries(TreeOf(g));
    GraphNamesIn(g);
    EachEntryListedOnce(TreeOf(g), lines, NodeList, names.Values, n);
    forall v ensures !ShownBelow(TreeOf(g), v, NodeList, n) {
      if ShownBelow(TreeOf(g), v, NodeList, n) { ShownIsNamed(g, v, n); }
    }
  }
}
