/** Sorting the records by network hierarchy and numbering the switches: `pkg/topology/graph.go`. */
module Normalization {
  import opened Numerals
  import opened Ordering
  import opened ThreeTierSpec

  /** By datacenter, spine, block and instance. */
  predicate ByHierarchy(a: Record, b: Record) {
    if a.datacenterID != b.datacenterID then Leq(a.datacenterID, b.datacenterID)
    else if a.spineID != b.spineID then Leq(a.spineID, b.spineID)
    else if a.blockID != b.blockID then Leq(a.blockID, b.blockID)
    else Leq(a.instanceID, b.instanceID)
  }

  /** The name given to each ID, and how many names each band has used. */
  datatype Naming = Naming(switches: map<string, string>, counts: map<nat, nat>)

  function SwitchName(band: nat, n: nat): string {
    "switch." + Dec(band) + "." + Dec(n)
  }

  function CountIn(naming: Naming, band: nat): nat {
    if band in naming.counts then naming.counts[band] else 0
  }

  /** An ID gets the next name of the band in which it is first seen. */
  function NameStep(naming: Naming, step: (nat, string)): Naming {
    if step.1 in naming.switches then naming
    else
      var n := CountIn(naming, step.0) + 1;
      Naming(naming.switches[step.1 := SwitchName(step.0, n)], naming.counts[step.0 := n])
  }

  function NamingOf(steps: seq<(nat, string)>): Naming {
    if steps == [] then Naming(map[], map[1 := 0, 2 := 0, 3 := 0]) else NameStep(NamingOf(steps[..|steps| - 1]), steps[|steps| - 1])
  }

  /** The switches in the order in which they are looked at, each with its band. */
  function StepsOf(records: seq<Record>): seq<(nat, string)> {
    if records == [] then []
    else
      var r := records[|records| - 1];
      StepsOf(records[..|records| - 1]) + [(1, r.blockID), (2, r.spineID), (3, r.datacenterID)]
  }

  function NameFor(switches: map<string, string>, id: string): string {
    if id in switches then switches[id] else ""
  }

  function Renamed(r: Record, switches: map<string, string>): Record {
    r.(blockName := NameFor(switches, r.blockID), spineName := NameFor(switches, r.spineID),
       datacenterName := NameFor(switches, r.datacenterID))
  }

  function RenamedAll(records: seq<Record>, switches: map<string, string>): (all: seq<Record>)
    ensures |all| == |records| && forall i :: 0 <= i < |all| ==> all[i] == Renamed(records[i], switches)
  {
    seq(|records|, i requires 0 <= i < |records| => Renamed(records[i], switches))
  }

  function Normalized(records: seq<Record>): seq<Record> {
    var sorted := SortBy(records, ByHierarchy);
    RenamedAll(sorted, NamingOf(StepsOf(sorted)).switches)
  }

  // ---------- the fold ----------

  lemma NamingSnoc(steps: seq<(nat, string)>, step: (nat, string))
    ensures NamingOf(steps + [step]) == NameStep(NamingOf(steps), step)
  {
    assert (steps + [step])[..|steps|] == steps;
  }

  /** The three bands of one record. */
  lemma NamingRecord(front: seq<Record>, r: Record)
    ensures NamingOf(StepsOf(front + [r])) ==
            NameStep(NameStep(NameStep(NamingOf(StepsOf(front)), (1, r.blockID)), (2, r.spineID)), (3, r.datacenterID))
  {
    hide NameStep;
    var steps := StepsOf(front);
    assert (front + [r])[..|front|] == front;
    NamingSnoc(steps, (1, r.blockID));
    NamingSnoc(steps + [(1, r.blockID)], (2, r.spineID));
    NamingSnoc(steps + [(1, r.blockID)] + [(2, r.spineID)], (3, r.datacenterID));
    assert steps + [(1, r.blockID), (2, r.spineID), (3, r.datacenterID)]
        == steps + [(1, r.blockID)] + [(2, r.spineID)] + [(3, r.datacenterID)];
  }

  /** Names, once given, stay. */
  ghost predicate Extends(switches: map<string, string>, more: map<string, string>) {
    forall id :: id in switches ==> id in more && more[id] == switches[id]
  }

  lemma StepExtends(naming: Naming, step: (nat, string))
    ensures Extends(naming.switches, NameStep(naming, step).switches) && step.1 in NameStep(naming, step).switches
  {}

  /** All switches of the records have been named. */
  ghost predicate NamedAll(records: seq<Record>, switches: map<string, string>) {
    forall r :: r in records ==> r.blockID in switches && r.spineID in switches && r.datacenterID in switches
  }

  lemma RenamedStays(records: seq<Record>, switches: map<string, string>, more: map<string, string>)
    requires NamedAll(records, switches) && Extends(switches, more)
    ensures NamedAll(records, more) && RenamedAll(records, switches) == RenamedAll(records, more)
  {
    forall i | 0 <= i < |records| ensures Renamed(records[i], switches) == Renamed(records[i], more) {
      assert records[i] in records;
    }
  }

  lemma {:induction false} EveryoneNamed(records: seq<Record>)
    ensures NamedAll(records, NamingOf(StepsOf(records)).switches)
  {
    hide NameStep, RenamedAll;
    if records != [] {
      var front, r := records[..|records| - 1], records[|records| - 1];
      assert records == front + [r];
      EveryoneNamed(front);
      NamingRecord(front, r);
      var a := NamingOf(StepsOf(front));
      StepExtends(a, (1, r.blockID));
      StepExtends(NameStep(a, (1, r.blockID)), (2, r.spineID));
      StepExtends(NameStep(NameStep(a, (1, r.blockID)), (2, r.spineID)), (3, r.datacenterID));
      RenamedStays(front, a.switches, NamingOf(StepsOf(records)).switches);
    }
  }

  // ---------- what the names are ----------

  ghost function SeenIds(steps: seq<(nat, string)>): set<string> {
    set s | s in steps :: s.1
  }

  /** The IDs first seen in the given band, in order. */
  ghost function SeenIn(steps: seq<(nat, string)>, band: nat): seq<string> {
    if steps == [] then []
    else
      var front, last := steps[..|steps| - 1], steps[|steps| - 1];
      SeenIn(front, band) + if last.0 == band && last.1 !in SeenIds(front) then [last.1] else []
  }

  /** The n-th ID first seen in a band has the n-th name of the band. */
  ghost predicate NumberedInOrder(steps: seq<(nat, string)>, naming: Naming) {
    && naming.switches.Keys == SeenIds(steps)
    && (forall b: nat :: CountIn(naming, b) == |SeenIn(steps, b)|)
    && (forall b: nat, n :: 0 <= n < |SeenIn(steps, b)| ==>
          SeenIn(steps, b)[n] in naming.switches && naming.switches[SeenIn(steps, b)[n]] == SwitchName(b, n + 1))
    && (forall id :: id in naming.switches ==> exists b: nat :: id in SeenIn(steps, b))
  }

  lemma SeenSnoc(front: seq<(nat, string)>, last: (nat, string), band: nat)
    ensures SeenIn(front + [last], band) == SeenIn(front, band) + if last.0 == band && last.1 !in SeenIds(front) then [last.1] else []
    ensures SeenIds(front + [last]) == SeenIds(front) + {last.1}
  {
    assert (front + [last])[..|front|] == front;
  }

  lemma NumberedStep(front: seq<(nat, string)>, last: (nat, string), naming: Naming)
    requires NumberedInOrder(front, naming)
    ensures NumberedInOrder(front + [last], NameStep(naming, last))
  {
    hide SwitchName, SeenIn, SeenIds;
    var steps, more := front + [last], NameStep(naming, last);
    forall b: nat ensures CountIn(more, b) == |SeenIn(steps, b)| && (forall x :: x in SeenIn(front, b) ==> x in SeenIn(steps, b)) {
      SeenSnoc(front, last, b);
    }
    SeenSnoc(front, last, last.0);
    forall b: nat, n | 0 <= n < |SeenIn(steps, b)|
      ensures SeenIn(steps, b)[n] in more.switches && more.switches[SeenIn(steps, b)[n]] == SwitchName(b, n + 1)
    {
      SeenSnoc(front, last, b);
      if n < |SeenIn(front, b)| { assert SeenIn(steps, b)[n] == SeenIn(front, b)[n]; }
    }
    forall id | id in more.switches ensures exists b: nat :: id in SeenIn(steps, b) {
      if id in naming.switches {
        var b: nat :| id in SeenIn(front, b);
        assert id in SeenIn(steps, b);
      } else {
        assert id in SeenIn(steps, last.0);
      }
    }
  }

  lemma {:induction false} NamesAreNumbered(steps: seq<(nat, string)>)
    ensures NumberedInOrder(steps, NamingOf(steps))
  {
    hide NumberedInOrder, NameStep;
    if steps == [] {
      NothingNumbered();
    } else {
      var front, last := steps[..|steps| - 1], steps[|steps| - 1];
      assert steps == front + [last];
      NamesAreNumbered(front);
      NumberedStep(front, last, NamingOf(front));
    }
  }

  lemma NothingNumbered()
    ensures NumberedInOrder([], NamingOf([]))
  {}

  lemma {:induction false} DecDiffer(m: nat, n: nat)
    requires Dec(m) == Dec(n)
    ensures m == n
  {
    ValOfDec(m);
    ValOfDec(n);
  }

  /** A dot separates band and number, so both can be read off the name. */
  lemma NamesSplit(b: nat, m: nat, c: nat, n: nat)
    requires SwitchName(b, m) == SwitchName(c, n)
    ensures b == c && m == n
  {
    hide Dec;
    var x, y := Dec(b) + "." + Dec(m), Dec(c) + "." + Dec(n);
    assert SwitchName(b, m) == "switch." + x && SwitchName(c, n) == "switch." + y;
    assert ("switch." + x)[7..] == x && ("switch." + y)[7..] == y;
    DotSplits(Dec(b), Dec(m), Dec(c), Dec(n));
    DecDiffer(b, c);
    DecDiffer(m, n);
  }

  lemma DotSplits(a: string, x: string, b: string, y: string)
    requires AllDigits(a) && AllDigits(b) && a + "." + x == b + "." + y
    ensures a == b && x == y
  {
    var s, t := a + "." + x, b + "." + y;
    assert s[|a|] == '.' && t[|b|] == '.';
    assert forall i :: 0 <= i < |a| ==> IsDigit(s[i]);
    assert forall i :: 0 <= i < |b| ==> IsDigit(t[i]);
    assert |a| == |b|;
    assert s[..|a|] == a && t[..|b|] == b && s[|a| + 1..] == x && t[|b| + 1..] == y;
  }

  /** Different IDs get different names, whatever the bands they occur in. */
  lemma NamesInjective(steps: seq<(nat, string)>, x: string, y: string)
    requires var switches := NamingOf(steps).switches;
             x in switches && y in switches && switches[x] == switches[y]
    ensures x == y
  {
    hide NamingOf, SwitchName, SeenIn;
    NamesAreNumbered(steps);
    var switches := NamingOf(steps).switches;
    var b: nat :| x in SeenIn(steps, b);
    var c: nat :| y in SeenIn(steps, c);
    var m :| 0 <= m < |SeenIn(steps, b)| && SeenIn(steps, b)[m] == x;
    var n :| 0 <= n < |SeenIn(steps, c)| && SeenIn(steps, c)[n] == y;
    NamesSplit(b, m + 1, c, n + 1);
  }

  /** Two records carry the same name for two switches exactly if the switches have the same ID. */
  lemma SameNameSameSwitch(records: seq<Record>, a: Record, b: Record, i: nat, j: nat)
    requires a in Normalized(records) && b in Normalized(records) && i < 3 && j < 3
    ensures SwitchNameAt(a, i) == SwitchNameAt(b, j) <==> SwitchAt(a, i) == SwitchAt(b, j)
  {
    hide SortBy, NamingOf, StepsOf, ByHierarchy;
    var sorted := SortBy(records, ByHierarchy);
    var switches := NamingOf(StepsOf(sorted)).switches;
    EveryoneNamed(sorted);
    NameIs(sorted, switches, a, i);
    NameIs(sorted, switches, b, j);
    if switches[SwitchAt(a, i)] == switches[SwitchAt(b, j)] {
      NamesInjective(StepsOf(sorted), SwitchAt(a, i), SwitchAt(b, j));
    }
  }

  lemma NameIs(sorted: seq<Record>, switches: map<string, string>, a: Record, i: nat)
    requires a in RenamedAll(sorted, switches) && NamedAll(sorted, switches) && i < 3
    ensures SwitchAt(a, i) in switches && SwitchNameAt(a, i) == switches[SwitchAt(a, i)]
  {
    var k :| 0 <= k < |sorted| && a == Renamed(sorted[k], switches);
    assert sorted[k] in sorted;
  }

  // ---------- the numbers of a band ----------

  /** No ID occurs in two bands. */
  ghost predicate BandsApart(records: seq<Record>) {
    forall a, b, i: nat, j: nat :: a in records && b in records && i < 3 && j < 3 && SwitchAt(a, i) == SwitchAt(b, j) ==> i == j
  }

  lemma {:induction false} StepsAre(records: seq<Record>)
    ensures forall s :: s in StepsOf(records) <==> exists r, i: nat :: r in records && i < 3 && s == (i + 1, SwitchAt(r, i))
  {
    if records != [] {
      var front, last := records[..|records| - 1], records[|records| - 1];
      assert records == front + [last];
      StepsAre(front);
      var tail := [(1, last.blockID), (2, last.spineID), (3, last.datacenterID)];
      forall s ensures s in tail <==> exists i: nat :: i < 3 && s == (i + 1, SwitchAt(last, i)) {
        if s == tail[0] { assert s == (0 + 1, SwitchAt(last, 0)); }
        if s == tail[1] { assert s == (1 + 1, SwitchAt(last, 1)); }
        if s == tail[2] { assert s == (2 + 1, SwitchAt(last, 2)); }
      }
    }
  }

  lemma {:induction false} SeenInAre(steps: seq<(nat, string)>, band: nat)
    ensures forall id :: id in SeenIn(steps, band) ==> (band, id) in steps
    ensures forall i, j :: 0 <= i < j < |SeenIn(steps, band)| ==> SeenIn(steps, band)[i] != SeenIn(steps, band)[j]
  {
    if steps != [] {
      var front, last := steps[..|steps| - 1], steps[|steps| - 1];
      assert steps == front + [last];
      SeenInAre(front, band);
      forall id | id in SeenIn(front, band) ensures id in SeenIds(front) { assert (band, id) in front; }
    }
  }

  lemma {:induction false} SeenSomewhere(steps: seq<(nat, string)>, id: string)
    requires id in SeenIds(steps)
    ensures exists b: nat :: id in SeenIn(steps, b)
  {
    NamesAreNumbered(steps);
  }

  /** If no ID occurs in two bands, the IDs of a band are named 1, 2, 3 and so on, in order of first appearance. */
  lemma BandNumbers(records: seq<Record>, i: nat)
    requires i < 3 && BandsApart(SortBy(records, ByHierarchy))
    ensures var sorted := SortBy(records, ByHierarchy);
            var ids := SeenIn(StepsOf(sorted), i + 1);
            && (forall m, n :: 0 <= m < n < |ids| ==> ids[m] != ids[n])
            && (forall x :: x in ids <==> exists r :: r in sorted && SwitchAt(r, i) == x)
            && (forall n :: 0 <= n < |ids| ==> ids[n] in NamingOf(StepsOf(sorted)).switches
                                               && NamingOf(StepsOf(sorted)).switches[ids[n]] == SwitchName(i + 1, n + 1))
  {
    hide SortBy, NamingOf, StepsOf, ByHierarchy, SeenIn, SwitchName;
    var sorted := SortBy(records, ByHierarchy);
    var steps := StepsOf(sorted);
    NamesAreNumbered(steps);
    StepsAre(sorted);
    SeenInAre(steps, i + 1);
    var ids := SeenIn(steps, i + 1);
    forall x | x in ids ensures exists r :: r in sorted && SwitchAt(r, i) == x {
      assert (i + 1, x) in steps;
    }
    forall r | r in sorted ensures SwitchAt(r, i) in SeenIn(steps, i + 1) {
      var x := SwitchAt(r, i);
      assert (i + 1, x) in steps;
      assert x in SeenIds(steps) by { assert (i + 1, x).1 == x; }
      SeenSomewhere(steps, x);
      var b: nat :| x in SeenIn(steps, b);
      SeenInAre(steps, b);
      var s, j: nat :| s in sorted && j < 3 && (b, x) == (j + 1, SwitchAt(s, j));
    }
  }

  // ---------- the order of the input ----------

  lemma HierarchyPreorder()
    ensures TotalPreorder(ByHierarchy)
  {
    hide Leq;
    forall a, b ensures ByHierarchy(a, b) || ByHierarchy(b, a) {
      LeqTotal(a.datacenterID, b.datacenterID);
      LeqTotal(a.spineID, b.spineID);
      LeqTotal(a.blockID, b.blockID);
      LeqTotal(a.instanceID, b.instanceID);
    }
    forall a, b, c | ByHierarchy(a, b) && ByHierarchy(b, c) ensures ByHierarchy(a, c) {
      HierarchyTransitive(a, b, c);
    }
  }

  lemma HierarchyTransitive(a: Record, b: Record, c: Record)
    requires ByHierarchy(a, b) && ByHierarchy(b, c)
    ensures ByHierarchy(a, c)
  {
    LexTransitive(a.datacenterID, b.datacenterID, c.datacenterID);
    LexTransitive(a.spineID, b.spineID, c.spineID);
    LexTransitive(a.blockID, b.blockID, c.blockID);
    LexTransitive(a.instanceID, b.instanceID, c.instanceID);
    hide Leq;
  }

  lemma LexTransitive(x: string, y: string, z: string)
    ensures Leq(x, y) && Leq(y, z) ==> Leq(x, z)
    ensures Leq(x, y) && Leq(y, x) ==> x == y
  {
    if Leq(x, y) && Leq(y, z) { LeqTransitive(x, y, z); }
    if Leq(x, y) && Leq(y, x) { LeqAntisymmetric(x, y); }
  }

  lemma HierarchyAntisymmetric(a: Record, b: Record)
    requires ByHierarchy(a, b) && ByHierarchy(b, a)
    ensures a.instanceID == b.instanceID
  {
    LexTransitive(a.datacenterID, b.datacenterID, a.datacenterID);
    LexTransitive(a.spineID, b.spineID, a.spineID);
    LexTransitive(a.blockID, b.blockID, a.blockID);
    LexTransitive(a.instanceID, b.instanceID, a.instanceID);
    hide Leq;
  }

  /** With one record per instance, the result does not depend on the order of the input. */
  lemma OrderIrrelevant(a: seq<Record>, b: seq<Record>)
    requires multiset(a) == multiset(b)
    requires forall r, s :: r in a && s in a && r.instanceID == s.instanceID ==> r == s
    ensures Normalized(a) == Normalized(b)
  {
    hide ByHierarchy, NamingOf, StepsOf, RenamedAll;
    HierarchyPreorder();
    SortBySorted(a, ByHierarchy);
    SortBySorted(b, ByHierarchy);
    SortByPermutes(a, ByHierarchy);
    SortByPermutes(b, ByHierarchy);
    var s := SortBy(a, ByHierarchy);
    SameMembers(s, a);
    forall x, y | x in s && y in s && ByHierarchy(x, y) && ByHierarchy(y, x) ensures x == y {
      HierarchyAntisymmetric(x, y);
    }
    SortUnique(s, SortBy(b, ByHierarchy), ByHierarchy);
  }
}
