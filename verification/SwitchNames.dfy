/** After normalizing, the labels of the switches are fit for printing: `pkg/topology/graph.go`. */
module SwitchNames {
  import opened ClusetSpec
  import opened ClusetTheorems
  import opened Normalization
  import opened Numerals
  import opened Ordering
  import opened Printing
  import opened Text
  import opened ThreeTierNodes
  import opened ThreeTierSpec
  import opened ThreeTierSwitches
  import opened ThreeTierTree
  import opened Topology
  import opened TreeOutput
  import opened Trees

  // ---------- names of the form "switch.b.n" ----------

  /** A name that normalizing gives: the band is one digit, the number fits in an int. */
  ghost predicate GivenName(s: string, b: nat, n: nat) {
    1 <= b <= 3 && n < MAX_INT && s == SwitchName(b, n)
  }

  ghost predicate IsGiven(s: string) {
    exists b: nat, n: nat :: GivenName(s, b, n)
  }

  function Stem(b: nat): string {
    "switch." + Dec(b) + "."
  }

  lemma GivenParts(s: string, b: nat, n: nat)
    requires GivenName(s, b, n)
    ensures Numbered(s) && Prefix(s) == Stem(b) && Numeral(s) == Dec(n) && s == Stem(b) + Dec(n)
  {
    hide Dec, Numbered, Prefix, Numeral;
    assert Dec(b) == [DigitChar(b)] by { OneDigit(b); }
    assert s == Stem(b) + Dec(n);
    assert IsPrefix(Stem(b));
    PartsOfName(Stem(b), Dec(n));
  }

  lemma OneDigit(b: nat)
    requires b < 10
    ensures Dec(b) == [DigitChar(b)]
  {}

  lemma GivenPlain(s: string, b: nat, n: nat)
    requires GivenName(s, b, n)
    ensures '[' !in s && ',' !in s && s != "" && TrimSpace(s) == s && s != NO_TOPOLOGY
  {
    hide Dec, Numbered, Prefix, Numeral, TrimSpace;
    assert Dec(b) == [DigitChar(b)] by { OneDigit(b); }
    assert s == Stem(b) + Dec(n);
    assert s[|s| - 1] == Dec(n)[|Dec(n)| - 1];
    assert s[0] == 's' && IsDigit(s[|s| - 1]);
    forall c | c in s ensures c != '[' && c != ',' {
      if c in Dec(n) {} else { assert c in Stem(b); }
    }
    TrimmedEnds(s);
  }

  lemma GivenValues(x: string, y: string)
    requires IsGiven(x) && IsGiven(y) && Prefix(x) == Prefix(y)
    ensures Val(Numeral(x)) < MAX_INT
    ensures Val(Numeral(x)) == Val(Numeral(y)) ==> x == y
    ensures Val(Numeral(x)) + 1 == Val(Numeral(y)) ==> Numeral(y) == Pad(|Numeral(x)|, Val(Numeral(y)))
  {
    hide Dec, Numbered, Prefix, Numeral, SwitchName;
    var b: nat, m: nat :| GivenName(x, b, m);
    var c: nat, n: nat :| GivenName(y, c, n);
    GivenParts(x, b, m);
    GivenParts(y, c, n);
    ValOfDec(m);
    ValOfDec(n);
    if m + 1 == n { DecLength(m, n); }
  }

  lemma PlaceIsPlain()
    ensures !Numbered(NO_TOPOLOGY) && '[' !in NO_TOPOLOGY && ',' !in NO_TOPOLOGY && TrimSpace(NO_TOPOLOGY) == NO_TOPOLOGY
  {
    assert NO_TOPOLOGY[|NO_TOPOLOGY| - 1] == 'y';
    TrimmedEnds(NO_TOPOLOGY);
  }

  /** Any set of given names, with or without no-topology, survives printing. */
  lemma GivenPrintable(names: seq<string>)
    requires NoRepeats(names) && forall s :: s in names ==> s == NO_TOPOLOGY || IsGiven(s)
    ensures Printable(names)
  {
    hide IsGiven, Numbered, Prefix, Numeral, TrimSpace, Val, Pad;
    PlaceIsPlain();
    forall s | s in names && s != NO_TOPOLOGY ensures GivenOk(s) { GivenIsOk(s); }
    forall x, y | x in names && y in names && SamePrefix(x, y)
      ensures Val(Numeral(x)) == Val(Numeral(y)) ==> x == y
      ensures Val(Numeral(x)) + 1 == Val(Numeral(y)) ==> Numeral(y) == Pad(|Numeral(x)|, Val(Numeral(y)))
    {
      GivenValues(x, y);
    }
    CountOfDistinct(names);
    assert Tame(names) && Listable(names);
    assert Clean(names);
    assert Aligned(names);
  }

  ghost predicate GivenOk(s: string) {
    && Numbered(s) && Val(Numeral(s)) < MAX_INT && Prefix(s) != NO_TOPOLOGY
    && '[' !in s && ',' !in s && s != "" && TrimSpace(s) == s
  }

  lemma GivenIsOk(s: string)
    requires IsGiven(s)
    ensures GivenOk(s)
  {
    hide Numbered, Prefix, Numeral, TrimSpace, Dec, SwitchName;
    var b: nat, n: nat :| GivenName(s, b, n);
    GivenParts(s, b, n);
    GivenPlain(s, b, n);
    ValOfDec(n);
    assert Stem(b)[|Stem(b)| - 1] == '.' && NO_TOPOLOGY[|NO_TOPOLOGY| - 1] == 'y';
  }

  // ---------- the names of normalized records ----------

  lemma {:induction false} StepsLength(records: seq<Record>)
    ensures |StepsOf(records)| == 3 * |records|
  {
    if records != [] { StepsLength(records[..|records| - 1]); }
  }

  lemma {:induction false} SeenLength(steps: seq<(nat, string)>, band: nat)
    ensures |SeenIn(steps, band)| <= |steps|
  {
    if steps != [] { SeenLength(steps[..|steps| - 1], band); }
  }

  lemma GivenByNaming(records: seq<Record>, id: string)
    requires 3 * |records| < MAX_INT && id in NamingOf(StepsOf(records)).switches
    ensures IsGiven(NamingOf(StepsOf(records)).switches[id])
  {
    hide NamingOf, StepsOf, SeenIn, SeenIds, SwitchName;
    var steps := StepsOf(records);
    var naming := NamingOf(steps);
    NamesAreNumbered(steps);
    var b: nat :| id in SeenIn(steps, b);
    var n :| 0 <= n < |SeenIn(steps, b)| && SeenIn(steps, b)[n] == id;
    StepsLength(records);
    SeenLength(steps, b);
    SeenInAre(steps, b);
    StepsAre(records);
    assert (b, id) in steps;
    var r, i: nat :| r in records && i < 3 && (b, id) == (i + 1, SwitchAt(r, i));
    assert GivenName(naming.switches[id], b, n + 1);
  }

  /** The records name switches apart, with names of the given form. */
  ghost predicate GivenNames(used: seq<Record>) {
    && (forall r, i: nat :: r in used && i < 3 ==> IsGiven(SwitchNameAt(r, i)))
    && (forall r, s, i: nat, j: nat :: r in used && s in used && i < 3 && j < 3 ==>
          (SwitchNameAt(r, i) == SwitchNameAt(s, j) <==> SwitchAt(r, i) == SwitchAt(s, j)))
  }

  lemma NormalizedNamed(records: seq<Record>)
    requires 3 * |records| < MAX_INT
    ensures GivenNames(Normalized(records))
  {
    hide SortBy, NamingOf, StepsOf, ByHierarchy, IsGiven, SwitchNameAt, SwitchAt;
    var all := Normalized(records);
    var sorted := SortBy(records, ByHierarchy);
    SortByPermutes(records, ByHierarchy);
    EveryoneNamed(sorted);
    forall r, i: nat | r in all && i < 3 ensures IsGiven(SwitchNameAt(r, i)) {
      NameIs(sorted, NamingOf(StepsOf(sorted)).switches, r, i);
      SameLength(sorted, records);
      GivenByNaming(sorted, SwitchAt(r, i));
    }
    forall r, s, i: nat, j: nat | r in all && s in all && i < 3 && j < 3
      ensures SwitchNameAt(r, i) == SwitchNameAt(s, j) <==> SwitchAt(r, i) == SwitchAt(s, j)
    {
      SameNameSameSwitch(records, r, s, i, j);
    }
  }

  lemma SameLength(a: seq<Record>, b: seq<Record>)
    requires multiset(a) == multiset(b)
    ensures |a| == |b|
  {
    assert |multiset(a)| == |a| && |multiset(b)| == |b|;
  }

  lemma {:induction false} UsedAreRecords(records: seq<Record>, ids: set<string>)
    ensures forall r :: r in Used(records, ids) ==> r in records
  {
    if records != [] {
      var front, last := records[..|records| - 1], records[|records| - 1];
      assert records == front + [last];
      UsedAreRecords(front, ids);
    }
  }

  // ---------- the labels of the tree ----------

  /** A mentioned switch carries the name of some record that mentions it. */
  lemma {:induction false} NameOfMention(used: seq<Record>, id: string) returns (r: Record, i: nat)
    requires AnyMentions(used, id)
    ensures r in used && i < 3 && SwitchAt(r, i) == id && NameOf(used, id) == SwitchNameAt(r, i)
  {
    var front, last := used[..|used| - 1], used[|used| - 1];
    assert used == front + [last];
    if AnyMentions(front, id) {
      r, i := NameOfMention(front, id);
    } else {
      r := last;
      i := NameInMention(last, id, 3);
    }
  }

  lemma {:induction false} NameInMention(r: Record, id: string, n: nat) returns (i: nat)
    requires MentionedIn(r, id, n)
    ensures i < n && SwitchAt(r, i) == id && NameIn(r, id, n) == SwitchNameAt(r, i)
  {
    if MentionedIn(r, id, n - 1) {
      i := NameInMention(r, id, n - 1);
    } else {
      i := n - 1;
    }
  }

  /** A switch of a record is labelled with the name the record gives it. */
  lemma LabelOfLevel(g: Graph, r: Record, l: nat)
    requires Buildable(g) && GivenNames(g.used) && r in g.used && 0 < l < 4 && Known(r, l)
    ensures LabelAt(g, IdAt(r, l)) == SwitchNameAt(r, l - 1)
  {
    hide TiersApart, Link, At, Tier, IsGiven, GivenName, SwitchNameAt;
    var id := IdAt(r, l);
    TierOfLevel(g, r, l);
    KidsAre(g, id, "");
    assert MentionedIn(r, id, 3) by { assert SwitchAt(r, l - 1) == id; }
    assert AnyMentions(g.used, id);
    var s, i := NameOfMention(g.used, id);
    assert SwitchNameAt(s, i) == SwitchNameAt(r, l - 1);
    assert IsGiven(SwitchNameAt(r, l - 1));
    GivenNotEmpty(SwitchNameAt(r, l - 1));
  }

  lemma GivenNotEmpty(s: string)
    requires IsGiven(s)
    ensures s != "" && s != NO_TOPOLOGY
  {
    hide GivenName;
    var b: nat, n: nat :| GivenName(s, b, n);
    GivenPlain(s, b, n);
  }

  /** The names of all switches, and the place without topology. */
  ghost function GivenLabels(used: seq<Record>): set<string> {
    (set r, i: nat | r in used && i < 3 :: SwitchNameAt(r, i)) + {NO_TOPOLOGY}
  }

  /** A switch with something above it is one of a record, or the place without topology. */
  lemma SwitchOrigin(g: Graph, p: string, c: string)
    requires Buildable(g) && GivenNames(g.used) && Link(g, p, c) && c !in g.names
    ensures (exists r, l: nat :: r in g.used && 0 < l < 4 && Known(r, l) && IdAt(r, l) == c && LabelAt(g, c) == SwitchNameAt(r, l - 1))
         || (Missing(g) != {} && c == NO_TOPOLOGY && LabelAt(g, c) == NO_TOPOLOGY)
  {
    hide TiersApart, LinksOf, Tops, At, NextKnown, IdAt, Known, GivenNames, SwitchNameAt, Tier, Missing;
    RecordLinks(g.used, p, c);
    if RecordLink(g.used, p, c) {
      var r, l: nat, m: nat :| r in g.used && NextKnown(r, l, m) && c == IdAt(r, l) && p == IdAt(r, m);
      LevelsKnown(r, l, m);
      InstanceLevel(r);
      LabelOfLevel(g, r, l);
    } else {
      MissingApart(g);
      NotMentioned(g);
    }
  }

  lemma MissingApart(g: Graph)
    ensures forall x :: x in Missing(g) ==> x in g.names
  {}

  ghost predicate IsSwitch(g: Graph, c: string) {
    c !in g.names && exists p :: Link(g, p, c)
  }

  lemma LabelsOfSwitches(g: Graph, c: string, d: string)
    requires Buildable(g) && GivenNames(g.used) && IsSwitch(g, c)
    ensures LabelAt(g, c) in GivenLabels(g.used) && LabelAt(g, c) != ""
    ensures IsSwitch(g, d) && LabelAt(g, c) == LabelAt(g, d) ==> c == d
  {
    hide Buildable, Link, LabelAt, Known, IsGiven, SwitchNameAt;
    var p :| Link(g, p, c);
    SwitchOrigin(g, p, c);
    if r, l: nat :| r in g.used && 0 < l < 4 && Known(r, l) && IdAt(r, l) == c && LabelAt(g, c) == SwitchNameAt(r, l - 1) {
      assert IsGiven(SwitchNameAt(r, l - 1));
      GivenNotEmpty(SwitchNameAt(r, l - 1));
      if IsSwitch(g, d) && LabelAt(g, c) == LabelAt(g, d) {
        var q :| Link(g, q, d);
        SwitchOrigin(g, q, d);
        var s, k: nat :| s in g.used && 0 < k < 4 && Known(s, k) && IdAt(s, k) == d && LabelAt(g, d) == SwitchNameAt(s, k - 1);
        assert SwitchAt(r, l - 1) == SwitchAt(s, k - 1);
      }
    } else if IsSwitch(g, d) && LabelAt(g, c) == LabelAt(g, d) {
      var q :| Link(g, q, d);
      SwitchOrigin(g, q, d);
      if s, k: nat :| s in g.used && 0 < k < 4 && Known(s, k) && IdAt(s, k) == d && LabelAt(g, d) == SwitchNameAt(s, k - 1) {
        assert IsGiven(SwitchNameAt(s, k - 1));
        GivenNotEmpty(SwitchNameAt(s, k - 1));
      }
    }
  }

  /** A vertex of the tree with children is the root or a switch. */
  lemma SwitchVertex(g: Graph, v: Vertex)
    requires Buildable(g) && v in Subs(TreeOf(g)) && !IsNode(v)
    ensures v == At(g, v.id) && (v.id == "" || IsSwitch(g, v.id))
  {
    hide Buildable, Link, At, Subs, TreeOf;
    RootPlaced(g);
    SubsPlaced(g, TreeOf(g), v);
    if v.id != "" {
      var p :| Link(g, p, v.id);
      NodeAt(g, p, v.id);
    }
  }

  lemma SwitchesLabelled(g: Graph, v: Vertex, w: Vertex)
    requires Buildable(g) && GivenNames(g.used) && v in Subs(TreeOf(g)) && w in Subs(TreeOf(g)) && !IsNode(v) && !IsNode(w)
    requires EntryOf(v) == EntryOf(w)
    ensures v == w
  {
    hide Buildable, GivenNames, Link, Subs, At, TreeOf, IsSwitch, LabelOf;
    SwitchVertex(g, v);
    SwitchVertex(g, w);
    EmptyLabel(g);
    if v.id != "" {
      LabelsOfSwitches(g, v.id, w.id);
    } else if w.id != "" {
      LabelsOfSwitches(g, w.id, v.id);
    }
  }

  lemma EmptyLabel(g: Graph)
    requires Buildable(g)
    ensures LabelAt(g, "") == ""
  {
    hide Buildable, At, TreeOf;
    RootPlaced(g);
    TreeIsAt(g);
  }

  /** With names of the given form, the labels of all switches are different and survive printing. */
  lemma GivenLabelsFit(g: Graph)
    requires Buildable(g) && GivenNames(g.used)
    ensures LabelsFit(g, GivenLabels(g.used))
  {
    hide Buildable, Link, Subs, At, TreeOf, IsSwitch, ChildEntry, IsGiven, SwitchNameAt, Printable, LabelOf;
    var t, labels := TreeOf(g), GivenLabels(g.used);
    forall v, w | v in Subs(t) && w in Subs(t) && OfKind(v, SwitchList) && OfKind(w, SwitchList) && EntryOf(v) == EntryOf(w) ensures v == w {
      SwitchesLabelled(g, v, w);
    }
    forall v, n | v in Subs(t) && ChildEntry(v, SwitchList, n) ensures n in labels { LabelIsGiven(g, v, n); }
    DistinctKeys(labels);
    assert forall s :: s in SortedKeys(labels) ==> s in labels;
    GivenPrintable(SortedKeys(labels));
  }

  lemma LabelIsGiven(g: Graph, v: Vertex, n: string)
    requires Buildable(g) && GivenNames(g.used) && v in Subs(TreeOf(g)) && ChildEntry(v, SwitchList, n)
    ensures n in GivenLabels(g.used)
  {
    hide Buildable, GivenNames, Link, Subs, At, TreeOf, GivenLabels, LabelAt;
    RootPlaced(g);
    SubsPlaced(g, TreeOf(g), v);
    SwitchEntries(g, v.id, n);
    var c :| c !in g.names && Link(g, v.id, c) && LabelAt(g, c) == n;
    assert IsSwitch(g, c);
    LabelsOfSwitches(g, c, c);
  }

  lemma NormalizedLabels(records: seq<Record>, names: map<string, string>)
    requires var g := Graph(Used(Normalized(records), names.Keys), names); Buildable(g)
    requires 3 * |records| < MAX_INT
    ensures var g := Graph(Used(Normalized(records), names.Keys), names);
            LabelsFit(g, GivenLabels(g.used)) && GivenNames(g.used)
  {
    hide Buildable, LabelsFit, GivenLabels, IsGiven, SwitchNameAt, SwitchAt;
    NormalizedNamed(records);
    UsedAreRecords(Normalized(records), names.Keys);
    GivenLabelsFit(Graph(Used(Normalized(records), names.Keys), names));
  }

  // ---------- what is read above a node ----------

  /** The names of the known switches of a record above level `l`, from the bottom. */
  function NamesAbove(r: Record, l: nat): seq<string>
    decreases 4 - l
  {
    if l >= 3 then [] else (if SwitchAt(r, l) != "" then [SwitchNameAt(r, l)] else []) + NamesAbove(r, l + 1)
  }

  lemma {:induction false} LabelsAreNames(g: Graph, r: Record, l: nat)
    requires Buildable(g) && GivenNames(g.used) && r in g.used
    ensures LabelsAbove(g, r, l) == NamesAbove(r, l)
    decreases 4 - l
  {
    hide Buildable, GivenNames, LabelAt, SwitchNameAt, IsGiven;
    if l < 3 {
      LabelsAreNames(g, r, l + 1);
      if Known(r, l + 1) { LabelOfLevel(g, r, l + 1); }
    }
  }

  /** The names of the known switches of a record: block, spine, datacenter. */
  function NamesFrom(r: Record): (names: seq<string>)
    ensures names == NamesAbove(r, 0)
  {
    assert NamesAbove(r, 3) == [];
    assert NamesAbove(r, 2) == if r.datacenterID == "" then [] else [r.datacenterName];
    assert NamesAbove(r, 1) == (if r.spineID == "" then [] else [r.spineName]) + NamesAbove(r, 2);
    (if r.blockID == "" then [] else [r.blockName]) + (if r.spineID == "" then [] else [r.spineName])
    + (if r.datacenterID == "" then [] else [r.datacenterName])
  }

  /** With normalized records, the headings above a node are the names in its first record and nothing else;
      above a node without a record there is only no-topology. */
  lemma NormalizedAncestors(records: seq<Record>, names: map<string, string>, lines: seq<Line>, x: string, chain: seq<string>)
    requires var g := Graph(Used(Normalized(records), names.Keys), names); WellFormed(g) && Printed(TreeOf(g), lines)
    requires 3 * |records| < MAX_INT && Printable(SortedKeys(names.Values)) && x in names
    ensures IsUpChain(lines, NodeList, names[x], chain) <==>
            if x !in Instances(records) then chain == ["no-topology"]
            else exists r :: FirstAbout(Normalized(records), names.Keys, r) && r.instanceID == x && chain == NamesFrom(r)
  {
    hide Buildable, OneAbove, NamesApart, Printed, Printable, TreeOf, IsUpChain, FirstAbout, NamesAbove, NamesFrom, LabelsAbove, LabelsFit, GivenNames, GivenLabels;
    var all := Normalized(records);
    var g := Graph(Used(all, names.Keys), names);
    NormalizedLabels(records, names);
    UsedInstances(all, names.Keys);
    UsedAreFirst(all, names.Keys);
    SameInstances(records);
    if x !in Instances(records) {
      MissingAncestors(g, GivenLabels(g.used), lines, x, chain);
    } else {
      assert x in Instances(g.used);
      var r :| r in g.used && r.instanceID == x;
      PrintedAncestors(all, names, GivenLabels(g.used), lines, r, chain);
      LabelsFromBlock(g, r);
      LabelsAreNames(g, r, 0);
      forall s | FirstAbout(all, names.Keys, s) && s.instanceID == x ensures s == r { OneFirstRecord(all, names.Keys, r, s); }
    }
  }

  lemma SameInstances(records: seq<Record>)
    ensures Instances(Normalized(records)) == Instances(records)
  {
    hide SortBy, NamingOf, StepsOf, ByHierarchy;
    var sorted := SortBy(records, ByHierarchy);
    var switches := NamingOf(StepsOf(sorted)).switches;
    SortByPermutes(records, ByHierarchy);
    SameMembers(sorted, records);
    var all := Normalized(records);
    forall x | x in Instances(records) ensures x in Instances(all) {
      var r :| r in records && r.instanceID == x;
      var i :| 0 <= i < |sorted| && sorted[i] == r;
      assert all[i] in all && all[i].instanceID == x;
    }
    forall x | x in Instances(all) ensures x in Instances(records) {
      var r :| r in all && r.instanceID == x;
      var i :| 0 <= i < |all| && all[i] == r;
      assert sorted[i] in sorted && sorted[i].instanceID == x;
    }
  }
}
