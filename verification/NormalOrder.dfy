/** The result of normalizing the records: their order, and the number in every name. */
module NormalOrder {
  import opened Normalization
  import opened Numerals
  import opened Ordering
  import opened ThreeTierSpec

  /** Datacenters decide first, then spines, blocks and instances. */
  ghost predicate InHierarchyOrder(r: Record, s: Record) {
    && Leq(r.datacenterID, s.datacenterID)
    && (r.datacenterID == s.datacenterID ==> Leq(r.spineID, s.spineID))
    && (r.datacenterID == s.datacenterID && r.spineID == s.spineID ==> Leq(r.blockID, s.blockID))
    && (r.datacenterID == s.datacenterID && r.spineID == s.spineID && r.blockID == s.blockID ==> Leq(r.instanceID, s.instanceID))
  }

  lemma HierarchyIsOrder(r: Record, s: Record)
    ensures ByHierarchy(r, s) <==> InHierarchyOrder(r, s)
  {
    hide Leq;
    LeqReflexive(r.datacenterID);
    LeqReflexive(r.spineID);
    LeqReflexive(r.blockID);
  }

  /** A record without the names of its switches. */
  function Unnamed(r: Record): Record {
    r.(blockName := "", spineName := "", datacenterName := "")
  }

  function UnnamedAll(records: seq<Record>): (all: seq<Record>)
    ensures |all| == |records| && forall i :: 0 <= i < |all| ==> all[i] == Unnamed(records[i])
  {
    seq(|records|, i requires 0 <= i < |records| => Unnamed(records[i]))
  }

  lemma {:induction false} UnnamedPermutes(a: seq<Record>, b: seq<Record>)
    requires multiset(a) == multiset(b)
    ensures multiset(UnnamedAll(a)) == multiset(UnnamedAll(b))
  {
    hide Unnamed;
    if a == [] {
      assert |multiset(b)| == 0;
    } else {
      var left, right := TakeOut(a, b);
      UnnamedPermutes(a[1..], left + right);
      assert UnnamedAll(a) == [Unnamed(a[0])] + UnnamedAll(a[1..]);
      assert UnnamedAll(b) == UnnamedAll(left) + ([Unnamed(a[0])] + UnnamedAll(right));
      assert UnnamedAll(left + right) == UnnamedAll(left) + UnnamedAll(right);
    }
  }

  /** Normalizing sorts the records by the hierarchy and changes nothing else but the names of the switches. */
  lemma NormalizedInOrder(records: seq<Record>)
    ensures multiset(UnnamedAll(Normalized(records))) == multiset(UnnamedAll(records))
    ensures var out := Normalized(records); forall i, j :: 0 <= i < j < |out| ==> InHierarchyOrder(out[i], out[j])
  {
    hide ByHierarchy, InHierarchyOrder, NamingOf, StepsOf, SortBy;
    var sorted, out := SortBy(records, ByHierarchy), Normalized(records);
    SortByPermutes(records, ByHierarchy);
    UnnamedPermutes(sorted, records);
    assert UnnamedAll(out) == UnnamedAll(sorted);
    HierarchyPreorder();
    SortBySorted(records, ByHierarchy);
    forall i, j | 0 <= i < j < |out| ensures InHierarchyOrder(out[i], out[j]) {
      assert ByHierarchy(sorted[i], sorted[j]);
      HierarchyIsOrder(sorted[i], sorted[j]);
      OrderOfRenamed(sorted[i], sorted[j], out[i], out[j]);
    }
  }

  lemma OrderOfRenamed(r: Record, s: Record, x: Record, y: Record)
    requires InHierarchyOrder(r, s) && Unnamed(r) == Unnamed(x) && Unnamed(s) == Unnamed(y)
    ensures InHierarchyOrder(x, y)
  {
    hide Leq;
  }

  // ---------- the numbers ----------

  /** The records up to the k-th in which a new ID occurs at place `i`. */
  ghost function Firsts(records: seq<Record>, k: nat, i: nat): set<nat> {
    set l: nat | l < k && FirstAt(records, l, i)
  }

  lemma SeenThree(steps: seq<(nat, string)>, x: string, y: string, z: string)
    ensures var more := steps + [(1, x), (2, y), (3, z)];
      && SeenIn(more, 1) == SeenIn(steps, 1) + (if x !in SeenIds(steps) then [x] else [])
      && SeenIn(more, 2) == SeenIn(steps, 2) + (if y !in SeenIds(steps) + {x} then [y] else [])
      && SeenIn(more, 3) == SeenIn(steps, 3) + (if z !in SeenIds(steps) + {x} + {y} then [z] else [])
  {
    hide SeenIds, SeenIn;
    var one := steps + [(1, x)];
    var two := one + [(2, y)];
    for band: nat := 1 to 4
      invariant forall b: nat :: 1 <= b < band ==>
        SeenIn(two + [(3, z)], b) == SeenIn(steps, b)
                                     + (if b == 1 && x !in SeenIds(steps) then [x] else [])
                                     + (if b == 2 && y !in SeenIds(one) then [y] else [])
                                     + (if b == 3 && z !in SeenIds(two) then [z] else [])
    {
      SeenSnoc(steps, (1, x), band);
      SeenSnoc(one, (2, y), band);
      SeenSnoc(two, (3, z), band);
    }
    SeenSnoc(steps, (1, x), 1);
    SeenSnoc(one, (2, y), 1);
    assert steps + [(1, x), (2, y), (3, z)] == two + [(3, z)];
  }

  lemma SeenInRecord(front: seq<Record>, r: Record, i: nat)
    requires i < 3
    ensures SeenIn(StepsOf(front + [r]), i + 1) == SeenIn(StepsOf(front), i + 1)
            + if SwitchAt(r, i) !in SeenIds(StepsOf(front)) && (forall j: nat :: j < i ==> SwitchAt(r, j) != SwitchAt(r, i))
              then [SwitchAt(r, i)] else []
  {
    hide SeenIds, SeenIn;
    assert (front + [r])[..|front|] == front;
    SeenThree(StepsOf(front), r.blockID, r.spineID, r.datacenterID);
    assert i > 0 ==> SwitchAt(r, 0) == r.blockID;
    assert i > 1 ==> SwitchAt(r, 1) == r.spineID;
  }

  lemma SeenIdsAre(records: seq<Record>, x: string)
    ensures x in SeenIds(StepsOf(records)) <==> exists l: nat, j: nat :: l < |records| && j < 3 && SwitchAt(records[l], j) == x
  {
    hide StepsOf, SwitchAt;
    StepsAre(records);
    if x in SeenIds(StepsOf(records)) {
      var s :| s in StepsOf(records) && s.1 == x;
      var r, j: nat :| r in records && j < 3 && s == (j + 1, SwitchAt(r, j));
      var l: nat :| l < |records| && records[l] == r;
    }
    if l: nat, j: nat :| l < |records| && j < 3 && SwitchAt(records[l], j) == x {
      assert records[l] in records;
      assert (j + 1, x) in StepsOf(records) && (j + 1, x).1 == x;
    }
  }

  lemma FirstIsUnseen(records: seq<Record>, k: nat, i: nat)
    requires k < |records| && i < 3
    ensures FirstAt(records, k, i) <==> SwitchAt(records[k], i) !in SeenIds(StepsOf(records[..k]))
                                        && forall j: nat :: j < i ==> SwitchAt(records[k], j) != SwitchAt(records[k], i)
  {
    hide StepsOf, SwitchAt, SeenIds;
    SeenIdsAre(records[..k], SwitchAt(records[k], i));
  }

  lemma {:induction false} FirstsCounted(records: seq<Record>, k: nat, i: nat)
    requires k <= |records| && i < 3
    ensures |SeenIn(StepsOf(records[..k]), i + 1)| == |Firsts(records, k, i)|
  {
    hide SeenIn, StepsOf, SwitchAt, SeenIds, FirstAt;
    if k == 0 {
      NothingSeen(i);
      assert records[..k] == [] && Firsts(records, 0, i) == {};
    } else {
      var n := k - 1;
      FirstsCounted(records, n, i);
      assert records[..k] == records[..n] + [records[n]];
      SeenInRecord(records[..n], records[n], i);
      FirstIsUnseen(records, n, i);
      assert Firsts(records, k, i) == Firsts(records, n, i) + if FirstAt(records, n, i) then {n} else {};
    }
  }

  lemma NothingSeen(i: nat)
    ensures SeenIn(StepsOf([]), i + 1) == []
  {}

  lemma {:induction false} NamesStay(records: seq<Record>, k: nat)
    requires k <= |records|
    ensures Extends(NamingOf(StepsOf(records[..k])).switches, NamingOf(StepsOf(records)).switches)
    decreases |records| - k
  {
    hide NamingOf, StepsOf, NameStep;
    if k < |records| {
      var front, r := records[..k], records[k];
      NamesStay(records, k + 1);
      assert records[..k + 1] == front + [r];
      NamingRecord(front, r);
      var a := NamingOf(StepsOf(front));
      StepExtends(a, (1, r.blockID));
      StepExtends(NameStep(a, (1, r.blockID)), (2, r.spineID));
      StepExtends(NameStep(NameStep(a, (1, r.blockID)), (2, r.spineID)), (3, r.datacenterID));
    } else {
      assert records[..k] == records;
    }
  }

  lemma NameAtFirst(sorted: seq<Record>, k: nat, i: nat)
    requires FirstAt(sorted, k, i)
    ensures var switches := NamingOf(StepsOf(sorted)).switches;
            && SwitchAt(sorted[k], i) in switches
            && switches[SwitchAt(sorted[k], i)] == SwitchName(i + 1, |Firsts(sorted, k + 1, i)|)
  {
    hide NamingOf, StepsOf, SwitchName, SeenIn, SwitchAt, FirstAt, SeenIds;
    FirstInRange(sorted, k, i);
    var upTo := sorted[..k + 1];
    var ids := SeenIn(StepsOf(upTo), i + 1);
    assert upTo == sorted[..k] + [sorted[k]];
    FirstIsUnseen(sorted, k, i);
    SeenInRecord(sorted[..k], sorted[k], i);
    FirstsCounted(sorted, k + 1, i);
    assert ids[|ids| - 1] == SwitchAt(sorted[k], i);
    NamesAreNumbered(StepsOf(upTo));
    NamesStay(sorted, k + 1);
  }

  lemma FirstOfRenamed(a: seq<Record>, b: seq<Record>, k: nat, i: nat)
    requires UnnamedAll(a) == UnnamedAll(b) && |a| == |b|
    ensures FirstAt(a, k, i) <==> FirstAt(b, k, i)
  {
    forall l: nat, j: nat | l < |a| ensures SwitchAt(a[l], j) == SwitchAt(b[l], j) {
      assert UnnamedAll(a)[l] == UnnamedAll(b)[l];
    }
  }

  /** Where an ID occurs first, its name has the number of the place, counting up from the block, and the number of IDs
      that have occurred first in this place so far. */
  lemma NamesCountUp(records: seq<Record>, k: nat, i: nat)
    requires FirstAt(Normalized(records), k, i)
    ensures var out := Normalized(records);
            SwitchNameAt(out[k], i) == "switch." + Dec(i + 1) + "." + Dec(|set l: nat | l <= k && FirstAt(out, l, i)|)
  {
    hide SortBy, ByHierarchy, NamingOf, StepsOf, FirstAt, SwitchAt, SwitchNameAt;
    var sorted, out := SortBy(records, ByHierarchy), Normalized(records);
    assert UnnamedAll(out) == UnnamedAll(sorted);
    forall l: nat ensures FirstAt(out, l, i) <==> FirstAt(sorted, l, i) { FirstOfRenamed(out, sorted, l, i); }
    NameAtFirst(sorted, k, i);
    EveryoneNamed(sorted);
    FirstInRange(sorted, k, i);
    assert out[k] in out;
    NameIs(sorted, NamingOf(StepsOf(sorted)).switches, out[k], i);
    SwitchOfRenamed(sorted[k], NamingOf(StepsOf(sorted)).switches, i);
    assert Firsts(sorted, k + 1, i) == set l: nat | l <= k && FirstAt(out, l, i);
  }

  lemma FirstInRange(records: seq<Record>, k: nat, i: nat)
    requires FirstAt(records, k, i)
    ensures k < |records| && i < 3
  {}

  lemma SwitchOfRenamed(r: Record, switches: map<string, string>, i: nat)
    ensures SwitchAt(Renamed(r, switches), i) == SwitchAt(r, i)
  {}
}
