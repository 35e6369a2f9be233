/** The three-tier tree that instance records describe: `pkg/topology/graph.go`. */
module ThreeTierSpec {
  import opened Topology

  /** Where an instance hangs in the network; an empty ID means that the tier is unknown. */
  datatype Record = Record(instanceID: string, blockID: string, blockName: string, spineID: string, spineName: string,
                           datacenterID: string, datacenterName: string, acceleratorID: string)

  const NO_TOPOLOGY := "no-topology"

  function SwitchAt(r: Record, i: nat): string {
    if i == 0 then r.blockID else if i == 1 then r.spineID else r.datacenterID
  }

  function SwitchNameAt(r: Record, i: nat): string {
    if i == 0 then r.blockName else if i == 1 then r.spineName else r.datacenterName
  }

  /** The first record of every requested instance. */
  function Used(records: seq<Record>, ids: set<string>): (used: seq<Record>)
    ensures forall i, j :: 0 <= i < j < |used| ==> used[i].instanceID != used[j].instanceID
    ensures forall r :: r in used ==> r.instanceID in ids
  {
    if records == [] then []
    else
      var used, r := Used(records[..|records| - 1], ids), records[|records| - 1];
      if r.instanceID in ids && r.instanceID !in Instances(used) then used + [r] else used
  }

  function Instances(records: seq<Record>): set<string> {
    set r | r in records :: r.instanceID
  }

  lemma {:induction false} UsedInstances(records: seq<Record>, ids: set<string>)
    ensures Instances(Used(records, ids)) == Instances(records) * ids
  {
    if records != [] {
      var front, last := records[..|records| - 1], records[|records| - 1];
      assert records == front + [last];
      UsedInstances(front, ids);
      InstancesSnoc(front, last);
      InstancesSnoc(Used(front, ids), last);
    }
  }

  lemma InstancesSnoc(front: seq<Record>, last: Record)
    ensures Instances(front + [last]) == Instances(front) + {last.instanceID}
  {}

  /** The first record about a requested instance. */
  ghost predicate FirstAbout(records: seq<Record>, ids: set<string>, r: Record) {
    && r.instanceID in ids
    && exists i :: 0 <= i < |records| && records[i] == r && forall j :: 0 <= j < i ==> records[j].instanceID != r.instanceID
  }

  lemma FirstAboutSnoc(front: seq<Record>, last: Record, ids: set<string>, r: Record)
    ensures FirstAbout(front + [last], ids, r) <==>
            FirstAbout(front, ids, r) || (r == last && r.instanceID in ids && r.instanceID !in Instances(front))
  {
    var all := front + [last];
    if FirstAbout(front, ids, r) {
      var i :| 0 <= i < |front| && front[i] == r && forall j :: 0 <= j < i ==> front[j].instanceID != r.instanceID;
      assert all[i] == r && forall j :: 0 <= j < i ==> all[j] == front[j];
    }
    if r == last && r.instanceID !in Instances(front) {
      assert all[|front|] == r && forall j :: 0 <= j < |front| ==> all[j] in front;
    }
    if FirstAbout(all, ids, r) {
      var i :| 0 <= i < |all| && all[i] == r && forall j :: 0 <= j < i ==> all[j].instanceID != r.instanceID;
      if i < |front| {
        assert front[i] == r && forall j :: 0 <= j < i ==> front[j] == all[j];
      } else {
        assert forall j :: 0 <= j < |front| ==> front[j] == all[j];
      }
    }
  }

  /** A record is used exactly if its instance is requested and no earlier record is about it. */
  lemma {:induction false} UsedAreFirst(records: seq<Record>, ids: set<string>)
    ensures forall r :: r in Used(records, ids) <==> FirstAbout(records, ids, r)
  {
    hide FirstAbout, Instances;
    if records == [] {
      NoneFirst(ids);
    } else {
      var front, last := records[..|records| - 1], records[|records| - 1];
      assert records == front + [last];
      UsedAreFirst(front, ids);
      UsedInstances(front, ids);
      forall r ensures r in Used(records, ids) <==> FirstAbout(records, ids, r) {
        FirstAboutSnoc(front, last, ids, r);
      }
    }
  }

  lemma NoneFirst(ids: set<string>)
    ensures forall r :: !FirstAbout([], ids, r)
  {}

  // ---------- links ----------

  /** What the first `n` tiers of a record lead up to. */
  function TopTo(r: Record, n: nat): string {
    if n == 0 then r.instanceID else if SwitchAt(r, n - 1) == "" then TopTo(r, n - 1) else SwitchAt(r, n - 1)
  }

  /** The parent-child links of the first `n` tiers of a record. */
  function LinksTo(r: Record, n: nat): set<(string, string)> {
    if n == 0 then {}
    else LinksTo(r, n - 1) + if SwitchAt(r, n - 1) == "" then {} else {(SwitchAt(r, n - 1), TopTo(r, n - 1))}
  }

  function LinksOf(used: seq<Record>): set<(string, string)> {
    if used == [] then {} else LinksOf(used[..|used| - 1]) + LinksTo(used[|used| - 1], 3)
  }

  function Tops(used: seq<Record>): set<string> {
    set r | r in used :: TopTo(r, 3)
  }

  /** In the order record by record, block, spine, datacenter, the ID of switch `i` of record `k` has not occurred before. */
  ghost predicate FirstAt(records: seq<Record>, k: nat, i: nat) {
    && k < |records| && i < 3
    && (forall l: nat, j: nat :: l < k && j < 3 ==> SwitchAt(records[l], j) != SwitchAt(records[k], i))
    && forall j: nat :: j < i ==> SwitchAt(records[k], j) != SwitchAt(records[k], i)
  }

  /** The name a switch is given: that of the first record that mentions it. */
  function NameOf(used: seq<Record>, id: string): string {
    if used == [] then ""
    else if AnyMentions(used[..|used| - 1], id) then NameOf(used[..|used| - 1], id)
    else NameIn(used[|used| - 1], id, 3)
  }

  predicate AnyMentions(used: seq<Record>, id: string) {
    exists r :: r in used && MentionedIn(r, id, 3)
  }

  predicate MentionedIn(r: Record, id: string, n: nat) {
    id != "" && exists i: nat :: i < n && SwitchAt(r, i) == id
  }

  function NameIn(r: Record, id: string, n: nat): string {
    if n == 0 || id == "" then ""
    else if MentionedIn(r, id, n - 1) then NameIn(r, id, n - 1)
    else if SwitchAt(r, n - 1) == id then SwitchNameAt(r, n - 1) else ""
  }

  /** A switch has the name it is given where its ID occurs for the first time. */
  lemma {:induction false} NameIsFirst(used: seq<Record>, k: nat, i: nat)
    requires FirstAt(used, k, i) && SwitchAt(used[k], i) != ""
    ensures NameOf(used, SwitchAt(used[k], i)) == SwitchNameAt(used[k], i)
  {
    hide SwitchAt, SwitchNameAt, NameIn, MentionedIn;
    var front, last, id := used[..|used| - 1], used[|used| - 1], SwitchAt(used[k], i);
    assert used == front + [last];
    if k < |front| {
      assert front[k] == used[k] && front[k] in front;
      MentionedAtLevel(used[k], i);
      NameIsFirst(front, k, i);
    } else {
      forall r | r in front ensures !MentionedIn(r, id, 3) {
        var l :| 0 <= l < |front| && front[l] == r;
        NotMentionedIn(r, id);
      }
      NameAtLevel(last, i);
    }
  }

  lemma MentionedAtLevel(r: Record, i: nat)
    requires i < 3 && SwitchAt(r, i) != ""
    ensures MentionedIn(r, SwitchAt(r, i), 3)
  {}

  lemma NotMentionedIn(r: Record, id: string)
    requires forall j: nat :: j < 3 ==> SwitchAt(r, j) != id
    ensures !MentionedIn(r, id, 3)
  {}

  lemma NameAtLevel(r: Record, i: nat)
    requires i < 3 && SwitchAt(r, i) != "" && forall j: nat :: j < i ==> SwitchAt(r, j) != SwitchAt(r, i)
    ensures NameIn(r, SwitchAt(r, i), 3) == SwitchNameAt(r, i)
  {
    var id := SwitchAt(r, i);
    assert !MentionedIn(r, id, i);
    assert NameIn(r, id, i + 1) == SwitchNameAt(r, i);
    assert MentionedIn(r, id, i + 1);
    if i < 2 {
      assert NameIn(r, id, i + 2) == SwitchNameAt(r, i) && MentionedIn(r, id, i + 2);
    }
  }

  // ---------- the tree ----------

  /** The used records, and the names of the requested instances. */
  datatype Graph = Graph(used: seq<Record>, names: map<string, string>)

  function Missing(g: Graph): set<string> {
    g.names.Keys - Instances(g.used)
  }

  /** The parent-child links of the whole tree; the empty ID is the root. */
  ghost predicate Link(g: Graph, p: string, c: string) {
    || (p, c) in LinksOf(g.used)
    || (p == "" && c in Tops(g.used))
    || (Missing(g) != {} && ((p == "" && c == NO_TOPOLOGY) || (p == NO_TOPOLOGY && c in Missing(g))))
  }

  /** Everything that can be below something. */
  ghost function Below(g: Graph): set<string> {
    (set l | l in LinksOf(g.used) :: l.1) + Tops(g.used) + {NO_TOPOLOGY} + Missing(g)
  }

  ghost function KidsOf(g: Graph, id: string): set<string> {
    set k | k in Below(g) && Link(g, id, k)
  }

  ghost function Tier(g: Graph, id: string): nat {
    if id in g.names then 0
    else if id == "" then 4
    else if i: nat :| i < 3 && TierHas(g.used, i, id) then i + 1
    else 1
  }

  ghost predicate TierHas(used: seq<Record>, i: nat, id: string) {
    exists r :: r in used && SwitchAt(r, i) == id
  }

  ghost function Label(g: Graph, id: string): string {
    if id in g.names then g.names[id] else NameOf(g.used, id)
  }

  /** The vertex with the given ID, with everything below it. */
  ghost function At(g: Graph, id: string): Vertex
    decreases Tier(g, id)
  {
    Vertex(Label(g, id), id, map c | c in Below(g) && Link(g, id, c) && Tier(g, c) < Tier(g, id) :: At(g, c))
  }

  /** IDs of different tiers differ, and those of instances and of the places without records are free. */
  ghost predicate Buildable(g: Graph) {
    TiersApart(g.used) && IdsFree(g)
  }

  /** No switch has the ID of a requested instance, of the root or of the place for what is without topology. */
  ghost predicate IdsFree(g: Graph) {
    && (forall r, i: nat :: r in g.used && i < 3 ==> SwitchAt(r, i) !in g.names)
    && "" !in g.names
    && (Missing(g) != {} ==> NO_TOPOLOGY !in g.names && forall r, i: nat :: r in g.used && i < 3 ==> SwitchAt(r, i) != NO_TOPOLOGY)
    && (forall r :: r in g.used ==> r.instanceID in g.names)
    && (forall r, s :: r in g.used && s in g.used && r.instanceID == s.instanceID ==> r == s)
  }

  ghost predicate TiersApart(used: seq<Record>) {
    forall r, s, i: nat, j: nat :: r in used && s in used && i < 3 && j < 3 && SwitchAt(r, i) == SwitchAt(s, j) && SwitchAt(r, i) != ""
      ==> i == j
  }

  /** A switch has one set of switches above it. */
  ghost predicate OneAbove(used: seq<Record>) {
    forall r, s, i: nat :: r in used && s in used && i < 3 && SwitchAt(r, i) == SwitchAt(s, i) && SwitchAt(r, i) != ""
      ==> SameAbove(r, s, i)
  }

  predicate SameAbove(r: Record, s: Record, i: nat) {
    forall k: nat :: i < k < 3 ==> SwitchAt(r, k) == SwitchAt(s, k)
  }

  ghost predicate NamesApart(names: map<string, string>) {
    forall x, y :: x in names && y in names && names[x] == names[y] ==> x == y
  }

  /** The graph is a tree with different node names. */
  ghost predicate WellFormed(g: Graph) {
    Buildable(g) && OneAbove(g.used) && NamesApart(g.names)
  }
}
