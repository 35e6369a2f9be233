/** The switches above a node, read off the printed lines: `pkg/topology/graph.go` and `pkg/translate/tree.go`. */
module ThreeTierSwitches {
  import opened ClusetSpec
  import opened Ordering
  import opened Printing
  import opened ThreeTierNodes
  import opened ThreeTierSpec
  import opened ThreeTierTree
  import opened Topology
  import opened TreeOutput
  import opened Trees

  /** The labels of the switches are different and survive printing. */
  ghost predicate LabelsFit(g: Graph, labels: set<string>) {
    EntriesDiffer(TreeOf(g), SwitchList) && NamesIn(TreeOf(g), SwitchList, labels) && Printable(SortedKeys(labels))
  }

  ghost function LabelAt(g: Graph, id: string): string {
    LabelOf(At(g, id))
  }

  /** The list in which level `l` of a record appears, and as what. */
  function KindAt(l: nat): Kind {
    if l == 0 then NodeList else SwitchList
  }

  ghost function EntryAt(g: Graph, r: Record, l: nat): string {
    if l > 0 then LabelAt(g, IdAt(r, l)) else if r.instanceID in g.names then g.names[r.instanceID] else ""
  }

  lemma SwitchEntries(g: Graph, p: string, e: string)
    requires Buildable(g)
    ensures ChildEntry(At(g, p), SwitchList, e) <==> exists c :: c !in g.names && Link(g, p, c) && LabelAt(g, c) == e
  {
    hide TiersApart, Link, At, IsNode, LabelOf;
    var v := At(g, p);
    if ChildEntry(v, SwitchList, e) {
      var k :| k in v.vertices && OfKind(v.vertices[k], SwitchList) && EntryOf(v.vertices[k]) == e;
      KidsAre(g, p, k);
      NodeAt(g, p, k);
    }
    if c :| c !in g.names && Link(g, p, c) && LabelAt(g, c) == e {
      KidsAre(g, p, c);
      NodeAt(g, p, c);
      assert c in v.vertices && OfKind(v.vertices[c], SwitchList) && EntryOf(v.vertices[c]) == e;
    }
  }

  /** A switch linked below something reachable is in the tree. */
  lemma LinkReached(g: Graph, p: string, c: string)
    requires Buildable(g) && Link(g, p, c) && At(g, p) in Subs(TreeOf(g))
    ensures At(g, c) in Subs(TreeOf(g))
  {
    hide Buildable, Link, At, Subs, TreeOf;
    KidsAre(g, p, c);
    SubsChild(TreeOf(g), At(g, p), c);
  }

  lemma SameLabelSameSwitch(g: Graph, c: string, d: string, p: string, q: string)
    requires Buildable(g) && EntriesDiffer(TreeOf(g), SwitchList) && c !in g.names && d !in g.names && LabelAt(g, c) == LabelAt(g, d)
    requires Link(g, p, c) && Link(g, q, d) && At(g, p) in Subs(TreeOf(g)) && At(g, q) in Subs(TreeOf(g))
    ensures c == d
  {
    hide Buildable, Link, At, Subs, TreeOf, IsNode, LabelOf;
    LinkReached(g, p, c);
    LinkReached(g, q, d);
    NodeAt(g, p, c);
    NodeAt(g, q, d);
    KidsAre(g, c, "");
    KidsAre(g, d, "");
    assert EntryOf(At(g, c)) == EntryOf(At(g, d));
  }

  /** A switch with a parent is listed by that parent and by nothing else; the root lists nothing. */
  lemma SwitchShown(g: Graph, p: string, c: string, v: Vertex)
    requires WellFormed(g) && EntriesDiffer(TreeOf(g), SwitchList) && c !in g.names
    requires Link(g, p, c) && At(g, p) in Subs(TreeOf(g))
    ensures ShownBelow(TreeOf(g), v, SwitchList, LabelAt(g, c)) <==> p != "" && v == At(g, p)
  {
    hide Buildable, OneAbove, NamesApart, Link, At, Subs, TreeOf, ChildEntry, EntriesDiffer, Placed, LabelOf;
    SwitchEntries(g, p, LabelAt(g, c));
    KidsAre(g, p, "");
    if v in Subs(TreeOf(g)) && ChildEntry(v, SwitchList, LabelAt(g, c)) {
      RootPlaced(g);
      SubsPlaced(g, TreeOf(g), v);
      PlacedAt(g, v);
      SwitchEntries(g, v.id, LabelAt(g, c));
      var d :| d !in g.names && Link(g, v.id, d) && LabelAt(g, d) == LabelAt(g, c);
      SameLabelSameSwitch(g, c, d, p, v.id);
      OneParentId(g, p, v.id, c);
    }
  }

  /** Level `l` of a record is listed by the next level above it, if that is a switch. */
  lemma LevelShown(g: Graph, r: Record, l: nat, m: nat, v: Vertex)
    requires WellFormed(g) && EntriesDiffer(TreeOf(g), SwitchList) && r in g.used && l < 4 && NextKnown(r, l, m)
    ensures ShownBelow(TreeOf(g), v, KindAt(l), EntryAt(g, r, l)) <==> m < 4 && v == At(g, IdAt(r, m))
  {
    hide TiersApart, OneAbove, NamesApart, Link, At, Subs, TreeOf, ShownBelow, EntriesDiffer, LabelAt, NextKnown;
    LevelsKnown(r, l, m);
    TierOfLevel(g, r, l);
    TierOfLevel(g, r, m);
    RootLevel();
    if l == 0 {
      HomeIs(g, r, m);
      NodeShown(g, v, r.instanceID);
    } else {
      NextLink(g, r, l, m);
      LevelReached(g, r, m);
      SwitchShown(g, IdAt(r, m), IdAt(r, l), v);
    }
  }

  lemma NextLink(g: Graph, r: Record, l: nat, m: nat)
    requires r in g.used && NextKnown(r, l, m)
    ensures Link(g, IdAt(r, m), IdAt(r, l))
  {
    hide Link;
    assert RecordLink(g.used, IdAt(r, m), IdAt(r, l));
    LinkOfRecord(g, IdAt(r, m), IdAt(r, l));
  }

  lemma HomeIs(g: Graph, r: Record, m: nat)
    requires Buildable(g) && r in g.used && NextKnown(r, 0, m)
    ensures HomeOf(g, r.instanceID) == IdAt(r, m)
  {
    hide TiersApart;
    var n := FirstLevel(r);
    assert m == n;
    var s :| s in g.used && s.instanceID == r.instanceID && HomeOf(g, r.instanceID) == FirstSwitch(s);
  }

  // ---------- the printed lines ----------

  lemma GraphEntries(g: Graph, labels: set<string>, kind: Kind)
    requires WellFormed(g) && LabelsFit(g, labels) && Printable(SortedKeys(g.names.Values))
    ensures var all := if kind.NodeList? then g.names.Values else labels;
            EntriesDiffer(TreeOf(g), kind) && NamesIn(TreeOf(g), kind, all) && Printable(SortedKeys(all))
    ensures IsTree(TreeOf(g))
  {
    hide Buildable, OneAbove, NamesApart, TreeOf, EntriesDiffer, NamesIn, Printable, IsTree, NamesDiffer;
    GraphIsTree(g);
    GraphNames(g);
    NamesAreEntries(TreeOf(g));
    GraphNamesIn(g);
  }

  /** Every known level of a record is listed exactly once; the highest one is not listed at all. */
  lemma LevelPrinted(g: Graph, labels: set<string>, lines: seq<Line>, r: Record, l: nat, m: nat)
    requires WellFormed(g) && LabelsFit(g, labels) && Printable(SortedKeys(g.names.Values)) && Printed(TreeOf(g), lines)
    requires r in g.used && l < 4 && NextKnown(r, l, m)
    ensures Listed(lines, KindAt(l), EntryAt(g, r, l)) == if m < 4 then 1 else 0
  {
    hide WellFormed, LabelsFit, TreeOf, At, EntriesDiffer, NamesIn, Printable, IsTree, Printed, NextKnown, IdAt, ShownBelow, EntryAt, KindAt;
    var t, kind, e := TreeOf(g), KindAt(l), EntryAt(g, r, l);
    GraphEntries(g, labels, kind);
    EachEntryListedOnce(t, lines, kind, if kind.NodeList? then g.names.Values else labels, e);
    LevelShownAt(g, labels, r, l, m);
    if m < 4 { assert ShownBelow(t, At(g, IdAt(r, m)), kind, e); }
  }

  lemma LevelShownAt(g: Graph, labels: set<string>, r: Record, l: nat, m: nat)
    requires WellFormed(g) && LabelsFit(g, labels) && r in g.used && l < 4 && NextKnown(r, l, m)
    ensures forall v :: ShownBelow(TreeOf(g), v, KindAt(l), EntryAt(g, r, l)) <==> m < 4 && v == At(g, IdAt(r, m))
  {
    hide WellFormed, TreeOf, At, EntriesDiffer, NamesIn, Printable, NextKnown, IdAt, ShownBelow, EntryAt, KindAt;
    forall v ensures ShownBelow(TreeOf(g), v, KindAt(l), EntryAt(g, r, l)) <==> m < 4 && v == At(g, IdAt(r, m)) {
      LevelShown(g, r, l, m, v);
    }
  }

  /** The line that lists a level is headed by the next level above it. */
  lemma LevelHeaded(g: Graph, labels: set<string>, lines: seq<Line>, r: Record, l: nat, m: nat, line: Line)
    requires WellFormed(g) && LabelsFit(g, labels) && Printable(SortedKeys(g.names.Values)) && Printed(TreeOf(g), lines)
    requires r in g.used && l < 4 && NextKnown(r, l, m)
    requires line in lines && line.kind == KindAt(l) && EntryAt(g, r, l) in ExpandList(line.list)
    ensures m < 4 && Heads(line, At(g, IdAt(r, m)))
  {
    hide WellFormed, LabelsFit, TreeOf, At, EntriesDiffer, NamesIn, Printable, IsTree, Printed, NextKnown, IdAt, ShownBelow, EntryAt, KindAt,
         ExpandList, Heads;
    var t, kind, e := TreeOf(g), KindAt(l), EntryAt(g, r, l);
    GraphEntries(g, labels, kind);
    ListedUnderItsParent(t, lines, kind, if kind.NodeList? then g.names.Values else labels, line, e);
    LevelShownAt(g, labels, r, l, m);
  }

  // ---------- going up ----------

  /** Starting from an entry, the headings met by going from list to heading and from there to the list it is in,
      until a heading is in no list. */
  ghost predicate IsUpChain(lines: seq<Line>, kind: Kind, e: string, chain: seq<string>)
    decreases |chain|
  {
    if chain == [] then Listed(lines, kind, e) == 0
    else ListedUnder(lines, kind, e, chain[0]) && IsUpChain(lines, SwitchList, chain[0], chain[1..])
  }

  ghost predicate ListedUnder(lines: seq<Line>, kind: Kind, e: string, heading: string) {
    exists line :: line in lines && line.kind == kind && e in ExpandList(line.list) && line.name == heading
  }

  /** The labels of the known switches of a record above level `l`, from the bottom. */
  ghost function LabelsAbove(g: Graph, r: Record, l: nat): seq<string>
    decreases 4 - l
  {
    if l >= 3 then []
    else (if Known(r, l + 1) then [LabelAt(g, IdAt(r, l + 1))] else []) + LabelsAbove(g, r, l + 1)
  }

  lemma {:induction false} LabelsAboveNext(g: Graph, r: Record, l: nat, m: nat, k: nat)
    requires NextKnown(r, l, m) && l <= k < m
    ensures LabelsAbove(g, r, k) == if m == 4 then [] else [LabelAt(g, IdAt(r, m))] + LabelsAbove(g, r, m)
    decreases m - k
  {
    hide LabelAt;
    if k + 1 < m {
      assert !Known(r, k + 1);
      LabelsAboveNext(g, r, l, m, k + 1);
    }
  }

  lemma {:induction false} ListedSomewhere(lines: seq<Line>, kind: Kind, e: string)
    requires Listed(lines, kind, e) > 0
    ensures exists line :: line in lines && line.kind == kind && e in ExpandList(line.list)
  {
    hide ExpandList;
    var front, last := lines[..|lines| - 1], lines[|lines| - 1];
    assert lines == front + [last];
    if last.kind == kind && multiset(ExpandList(last.list))[e] > 0 {
      assert e in ExpandList(last.list);
    } else {
      ListedSomewhere(front, kind, e);
    }
  }

  /** Level `l` of a record leads up to exactly the known switches above it. */
  lemma {:induction false} UpFromLevel(g: Graph, labels: set<string>, lines: seq<Line>, r: Record, l: nat, chain: seq<string>)
    requires WellFormed(g) && LabelsFit(g, labels) && Printable(SortedKeys(g.names.Values)) && Printed(TreeOf(g), lines)
    requires r in g.used && l < 4 && Known(r, l)
    ensures IsUpChain(lines, KindAt(l), EntryAt(g, r, l), chain) <==> chain == LabelsAbove(g, r, l)
    decreases 4 - l
  {
    hide WellFormed, LabelsFit, Printable, Printed, TreeOf, At, IdAt, Listed, ExpandList, EntryAt, KindAt, LabelsAbove, Link, ListedUnder;
    var m := NextAbove(r, l);
    StepBelow(r, l, m);
    LevelPrinted(g, labels, lines, r, l, m);
    forall line | line in lines && line.kind == KindAt(l) && EntryAt(g, r, l) in ExpandList(line.list)
      ensures m < 4 && Heads(line, At(g, IdAt(r, m)))
    {
      LevelHeaded(g, labels, lines, r, l, m, line);
    }
    LabelsAboveNext(g, r, l, m, l);
    if m == 4 {
      if chain != [] { NotListedUnder(lines, KindAt(l), EntryAt(g, r, l), chain[0]); }
    } else {
      var next := LabelAt(g, IdAt(r, m));
      HeadingsOf(g, lines, KindAt(l), EntryAt(g, r, l), IdAt(r, m));
      EntryOfSwitch(g, r, m);
      if chain != [] { UpFromLevel(g, labels, lines, r, m, chain[1..]); }
      assert chain == [next] + LabelsAbove(g, r, m) <==> chain != [] && chain[0] == next && chain[1..] == LabelsAbove(g, r, m);
    }
  }

  lemma EntryOfSwitch(g: Graph, r: Record, m: nat)
    requires 0 < m < 4
    ensures KindAt(m) == SwitchList && EntryAt(g, r, m) == LabelAt(g, IdAt(r, m))
  {}

  lemma NotListedUnder(lines: seq<Line>, kind: Kind, e: string, heading: string)
    requires forall line :: line in lines && line.kind == kind ==> e !in ExpandList(line.list)
    ensures !ListedUnder(lines, kind, e, heading)
  {
    hide ExpandList;
  }

  /** All lists with the entry have the same heading, and there is one. */
  lemma HeadingsOf(g: Graph, lines: seq<Line>, kind: Kind, e: string, id: string)
    requires Listed(lines, kind, e) > 0
    requires forall line :: line in lines && line.kind == kind && e in ExpandList(line.list) ==> Heads(line, At(g, id))
    ensures forall heading :: ListedUnder(lines, kind, e, heading) <==> heading == LabelAt(g, id)
  {
    hide ExpandList, At, LabelOf;
    ListedSomewhere(lines, kind, e);
  }

  /** A switch is labelled with the name it is given where its ID occurs for the first time, and with its ID if that is empty. */
  lemma LabelIsFirst(g: Graph, k: nat, i: nat)
    requires WellFormed(g) && FirstAt(g.used, k, i) && SwitchAt(g.used[k], i) != ""
    ensures LabelAt(g, SwitchAt(g.used[k], i))
            == if SwitchNameAt(g.used[k], i) == "" then SwitchAt(g.used[k], i) else SwitchNameAt(g.used[k], i)
  {
    hide TiersApart, OneAbove, NamesApart, Link, Below, SwitchAt, SwitchNameAt, NameOf, Tier;
    NameIsFirst(g.used, k, i);
    assert g.used[k] in g.used;
  }

  /** The headings above a node are exactly the labels of the known switches of its first record. */
  lemma PrintedAncestors(records: seq<Record>, names: map<string, string>, labels: set<string>, lines: seq<Line>, r: Record, chain: seq<string>)
    requires var g := Graph(Used(records, names.Keys), names);
             WellFormed(g) && LabelsFit(g, labels) && Printed(TreeOf(g), lines)
    requires Printable(SortedKeys(names.Values)) && FirstAbout(records, names.Keys, r)
    ensures IsUpChain(lines, NodeList, names[r.instanceID], chain) <==>
            chain == (if r.blockID == "" then [] else [LabelAt(Graph(Used(records, names.Keys), names), r.blockID)])
                     + (if r.spineID == "" then [] else [LabelAt(Graph(Used(records, names.Keys), names), r.spineID)])
                     + (if r.datacenterID == "" then [] else [LabelAt(Graph(Used(records, names.Keys), names), r.datacenterID)])
  {
    hide WellFormed, LabelsFit, Printable, Printed, TreeOf, IsUpChain, LabelsAbove;
    var g := Graph(Used(records, names.Keys), names);
    UsedAreFirst(records, names.Keys);
    UpFromLevel(g, labels, lines, r, 0, chain);
    LabelsFromBlock(g, r);
  }

  lemma LabelsFromBlock(g: Graph, r: Record)
    ensures LabelsAbove(g, r, 0) == (if r.blockID == "" then [] else [LabelAt(g, r.blockID)])
                                    + (if r.spineID == "" then [] else [LabelAt(g, r.spineID)])
                                    + (if r.datacenterID == "" then [] else [LabelAt(g, r.datacenterID)])
  {
    hide LabelAt;
    assert LabelsAbove(g, r, 3) == [];
    assert LabelsAbove(g, r, 2) == if r.datacenterID == "" then [] else [LabelAt(g, r.datacenterID)];
    assert LabelsAbove(g, r, 1) == (if r.spineID == "" then [] else [LabelAt(g, r.spineID)]) + LabelsAbove(g, r, 2);
  }

  // ---------- instances without a record ----------

  lemma NotMentioned(g: Graph)
    requires Buildable(g) && Missing(g) != {}
    ensures LabelAt(g, NO_TOPOLOGY) == NO_TOPOLOGY
  {
    hide Link, TiersApart, Tier, Below;
    KidsAre(g, NO_TOPOLOGY, "");
    NamelessUnmentioned(g.used, NO_TOPOLOGY);
  }

  lemma {:induction false} NamelessUnmentioned(used: seq<Record>, id: string)
    requires forall r, i: nat :: r in used && i < 3 ==> SwitchAt(r, i) != id
    ensures NameOf(used, id) == ""
  {
    if used != [] {
      var front, last := used[..|used| - 1], used[|used| - 1];
      assert last in used;
      assert forall r :: r in front ==> r in used;
      NamelessUnmentioned(front, id);
    }
  }

  lemma MissingHome(g: Graph, x: string)
    requires x in Missing(g)
    ensures x in g.names && HomeOf(g, x) == NO_TOPOLOGY
  {
    forall r | r in g.used ensures r.instanceID != x { assert r.instanceID in Instances(g.used); }
  }

  /** Where entries of the place without topology are listed. */
  lemma MissingPrinted(g: Graph, labels: set<string>, lines: seq<Line>, x: string)
    requires WellFormed(g) && LabelsFit(g, labels) && Printable(SortedKeys(g.names.Values)) && Printed(TreeOf(g), lines)
    requires x in Missing(g)
    ensures x in g.names && Listed(lines, NodeList, g.names[x]) == 1 && Listed(lines, SwitchList, NO_TOPOLOGY) == 0
  {
    hide Buildable, OneAbove, NamesApart, At, Subs, EntriesDiffer, NamesIn, Printable, IsTree, Printed, TreeOf, HomeOf, Missing, Listed, ShownBelow,
         Link;
    MissingHome(g, x);
    NodePrintedOnce(g, lines, x);
    NotMentioned(g);
    GraphEntries(g, labels, SwitchList);
    EachEntryListedOnce(TreeOf(g), lines, SwitchList, labels, NO_TOPOLOGY);
    forall v ensures !ShownBelow(TreeOf(g), v, SwitchList, NO_TOPOLOGY) { NoTopologyHidden(g, v); }
  }

  lemma NoTopologyHidden(g: Graph, v: Vertex)
    requires WellFormed(g) && Missing(g) != {} && EntriesDiffer(TreeOf(g), SwitchList)
    ensures !ShownBelow(TreeOf(g), v, SwitchList, NO_TOPOLOGY)
  {
    hide TiersApart, OneAbove, NamesApart, At, Subs, EntriesDiffer, TreeOf, ShownBelow, LinksOf, Tops, Instances;
    NotMentioned(g);
    TreeIsAt(g);
    SubsSelf(TreeOf(g));
    SwitchShown(g, "", NO_TOPOLOGY, v);
  }

  /** A requested instance without a record is below no-topology and nothing else. */
  lemma MissingAncestors(g: Graph, labels: set<string>, lines: seq<Line>, x: string, chain: seq<string>)
    requires WellFormed(g) && LabelsFit(g, labels) && Printable(SortedKeys(g.names.Values)) && Printed(TreeOf(g), lines)
    requires x in Missing(g)
    ensures x in g.names && (IsUpChain(lines, NodeList, g.names[x], chain) <==> chain == ["no-topology"])
  {
    hide WellFormed, LabelsFit, Printable, Printed, TreeOf, At, Listed, ExpandList, ListedUnder, Heads, Missing, IsUpChain;
    MissingPrinted(g, labels, lines, x);
    MissingHome(g, x);
    forall line | line in lines && line.kind == NodeList && g.names[x] in ExpandList(line.list)
      ensures Heads(line, At(g, NO_TOPOLOGY))
    {
      MissingHeaded(g, lines, line, x);
    }
    assert LabelAt(g, NO_TOPOLOGY) == NO_TOPOLOGY by { NoTopologyLabel(g, x); }
    HeadingsOf(g, lines, NodeList, g.names[x], NO_TOPOLOGY);
    ChainOfOne(lines, NodeList, g.names[x], NO_TOPOLOGY, chain);
  }

  lemma NoTopologyLabel(g: Graph, x: string)
    requires WellFormed(g) && x in Missing(g)
    ensures LabelAt(g, NO_TOPOLOGY) == NO_TOPOLOGY
  {
    NotMentioned(g);
  }

  lemma MissingHeaded(g: Graph, lines: seq<Line>, line: Line, x: string)
    requires WellFormed(g) && Printable(SortedKeys(g.names.Values)) && Printed(TreeOf(g), lines) && x in Missing(g)
    requires line in lines && line.kind == NodeList && g.names[x] in ExpandList(line.list)
    ensures Heads(line, At(g, NO_TOPOLOGY))
  {
    hide Buildable, OneAbove, Printable, Printed, TreeOf, At, ExpandList, Heads, Missing, HomeOf;
    MissingHome(g, x);
    PrintedAtHome(g, lines, line, g.names[x]);
    var y :| y in g.names && g.names[y] == g.names[x] && HomeOf(g, y) != "" && Heads(line, At(g, HomeOf(g, y)));
  }

  lemma ChainOfOne(lines: seq<Line>, kind: Kind, e: string, top: string, chain: seq<string>)
    requires Listed(lines, kind, e) > 0 && Listed(lines, SwitchList, top) == 0
    requires forall heading :: ListedUnder(lines, kind, e, heading) <==> heading == top
    ensures IsUpChain(lines, kind, e, chain) <==> chain == [top]
  {
    hide Listed, ListedUnder;
    if chain != [] && chain[0] == top && |chain| > 1 {
      if ListedUnder(lines, SwitchList, top, chain[1]) { UnderIsListed(lines, SwitchList, top, chain[1]); }
    }
  }

  lemma UnderIsListed(lines: seq<Line>, kind: Kind, e: string, heading: string)
    requires ListedUnder(lines, kind, e, heading)
    ensures Listed(lines, kind, e) > 0
  {
    hide ExpandList;
    var line :| line in lines && line.kind == kind && e in ExpandList(line.list) && line.name == heading;
    SomeListHas(lines, kind, line, e);
  }
}
