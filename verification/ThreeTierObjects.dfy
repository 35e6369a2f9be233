/** Building the three-tier graph in memory, record by record: `pkg/topology/graph.go`. */
module ThreeTierObjects {
  import opened ThreeTierSpec

  import Domains

  /** A vertex as it is built: shared by reference, its children added one by one. */
  class Cell {
    const name: string
    const id: string
    var vertices: map<string, Cell>

    constructor (name: string, id: string)
      ensures this.name == name && this.id == id && vertices == map[]
    {
      this.name, this.id := name, id;
      vertices := map[];
    }
  }

  // ---------- what is filed where ----------

  /** What a key leads to: the object of an instance, or that of a switch. */
  datatype Ref = Host(id: string) | Sw(id: string)

  /** What is filed under the keys of every switch. */
  type Filings = map<string, map<string, Ref>>

  /** What the first `n` tiers of a record lead up to. */
  function RefTo(r: Record, n: nat): Ref {
    if n == 0 then Host(r.instanceID) else if SwitchAt(r, n - 1) == "" then RefTo(r, n - 1) else Sw(SwitchAt(r, n - 1))
  }

  /** `x` is filed under its ID below `p`, in place of what was there. */
  function FileBelow(table: Filings, p: string, x: Ref): Filings {
    table[p := (if p in table then table[p] else map[])[x.id := x]]
  }

  function TableTo(table: Filings, r: Record, n: nat): Filings {
    if n == 0 then table
    else if SwitchAt(r, n - 1) == "" then TableTo(table, r, n - 1)
    else FileBelow(TableTo(table, r, n - 1), SwitchAt(r, n - 1), RefTo(r, n - 1))
  }

  function TableOf(used: seq<Record>): Filings {
    if used == [] then map[] else TableTo(TableOf(used[..|used| - 1]), used[|used| - 1], 3)
  }

  /** What is filed below the root. */
  function TopRefs(used: seq<Record>): map<string, Ref> {
    if used == [] then map[]
    else var x := RefTo(used[|used| - 1], 3); TopRefs(used[..|used| - 1])[x.id := x]
  }

  // ---------- the objects ----------

  ghost predicate IsObject(c: Cell, x: Ref, hosts: map<string, Cell>, nodes: map<string, Cell>) {
    match x
    case Host(id) => id in hosts && c == hosts[id]
    case Sw(id) => id in nodes && c == nodes[id]
  }

  ghost predicate Files(c: Cell, kids: map<string, Ref>, hosts: map<string, Cell>, nodes: map<string, Cell>)
    reads c
  {
    c.vertices.Keys == kids.Keys && forall k :: k in kids ==> IsObject(c.vertices[k], kids[k], hosts, nodes)
  }

  /** The objects of the instances and of the switches, with what is filed below each. */
  ghost predicate Stored(table: Filings, hosts: map<string, Cell>, nodes: map<string, Cell>)
    reads hosts.Values, nodes.Values
  {
    && nodes.Keys == table.Keys
    && (forall p :: p in nodes ==> nodes[p].id == p && Files(nodes[p], table[p], hosts, nodes))
    && (forall x :: x in hosts ==> hosts[x].id == x && hosts[x].vertices == map[])
    && (forall x, p :: x in hosts && p in nodes ==> hosts[x] != nodes[p])
  }

  /** The objects only become more. */
  ghost predicate Grows(cells: map<string, Cell>, all: map<string, Cell>) {
    forall id :: id in cells ==> id in all && all[id] == cells[id]
  }

  /** Files the object under the switch, which is created if need be. */
  method Attach(swID: string, swName: string, instance: Cell, nodes: map<string, Cell>,
                ghost x: Ref, ghost table: Filings, ghost hosts: map<string, Cell>)
    returns (sw: Cell, more: map<string, Cell>)
    requires Stored(table, hosts, nodes) && IsObject(instance, x, hosts, nodes)
    modifies nodes.Values
    ensures sw.id == swID && more == (if swID in nodes then nodes else nodes[swID := sw]) && swID in more && more[swID] == sw
    ensures swID !in nodes ==> fresh(sw) && sw.name == swName
    ensures Stored(FileBelow(table, swID, x), hosts, more)
  {
    hide Files, IsObject;
    more := nodes;
    ghost var kids := if swID in table then table[swID] else map[];
    if swID in nodes {
      sw := nodes[swID];
    } else {
      sw := new Cell(swName, swID);
      more := more[swID := sw];
      EmptyFiled(hosts, nodes, sw);
    }
    ObjectStays(instance, x, hosts, nodes, more);
    ObjectHasId(table, hosts, nodes, instance, x);
    ghost var before := sw.vertices;
    FilesAre(sw, kids, hosts, more);
    sw.vertices := sw.vertices[instance.id := instance];
    FiledMore(sw, before, kids, instance, x, hosts, more);
    forall p | p in more ensures more[p].id == p && Files(more[p], FileBelow(table, swID, x)[p], hosts, more) {
      if p != swID { FilesStay(nodes[p], table[p], hosts, nodes, more); }
    }
  }

  lemma ObjectStays(c: Cell, x: Ref, hosts: map<string, Cell>, nodes: map<string, Cell>, more: map<string, Cell>)
    requires IsObject(c, x, hosts, nodes) && Grows(nodes, more)
    ensures IsObject(c, x, hosts, more)
  {}

  lemma FilesStay(c: Cell, kids: map<string, Ref>, hosts: map<string, Cell>, nodes: map<string, Cell>, more: map<string, Cell>)
    requires Files(c, kids, hosts, nodes) && Grows(nodes, more)
    ensures Files(c, kids, hosts, more)
  {
    hide IsObject, Grows;
    forall k | k in kids ensures IsObject(c.vertices[k], kids[k], hosts, more) { ObjectStays(c.vertices[k], kids[k], hosts, nodes, more); }
  }

  lemma EmptyFiled(hosts: map<string, Cell>, nodes: map<string, Cell>, sw: Cell)
    requires sw.vertices == map[]
    ensures Files(sw, map[], hosts, nodes[sw.id := sw])
  {}

  lemma ObjectHasId(table: Filings, hosts: map<string, Cell>, nodes: map<string, Cell>, c: Cell, x: Ref)
    requires Stored(table, hosts, nodes) && IsObject(c, x, hosts, nodes)
    ensures c.id == x.id
  {}

  lemma FilesAre(c: Cell, kids: map<string, Ref>, hosts: map<string, Cell>, nodes: map<string, Cell>)
    requires Files(c, kids, hosts, nodes)
    ensures c.vertices.Keys == kids.Keys && forall k :: k in kids ==> IsObject(c.vertices[k], kids[k], hosts, nodes)
  {}

  lemma FiledMore(c: Cell, before: map<string, Cell>, kids: map<string, Ref>, w: Cell, x: Ref, hosts: map<string, Cell>, nodes: map<string, Cell>)
    requires before.Keys == kids.Keys && forall k :: k in kids ==> IsObject(before[k], kids[k], hosts, nodes)
    requires c.vertices == before[x.id := w] && IsObject(w, x, hosts, nodes)
    ensures Files(c, kids[x.id := x], hosts, nodes)
  {
    hide IsObject;
  }

  // ---------- names ----------

  /** The objects of the given instances, with their node names. */
  ghost predicate HostsNamed(hosts: map<string, Cell>, ids: set<string>, names: map<string, string>) {
    hosts.Keys == ids && forall x :: x in hosts ==> x in names && hosts[x].name == names[x]
  }

  /** The objects of the switches that the records mention, with the names from the first record that does. */
  ghost predicate SwitchesNamed(used: seq<Record>, nodes: map<string, Cell>) {
    && (forall id :: id in nodes <==> AnyMentions(used, id))
    && (forall id :: id in nodes ==> nodes[id].name == NameOf(used, id))
  }

  /** The names of the switches after `used` and the first `n` tiers of `r`. */
  ghost predicate Labelled(used: seq<Record>, r: Record, n: nat, nodes: map<string, Cell>) {
    && (forall id :: id in nodes <==> AnyMentions(used, id) || MentionedIn(r, id, n))
    && (forall id :: id in nodes ==> nodes[id].name == NameSoFar(used, r, n, id))
  }

  ghost function NameSoFar(used: seq<Record>, r: Record, n: nat, id: string): string {
    if AnyMentions(used, id) then NameOf(used, id) else NameIn(r, id, n)
  }

  lemma NewNamesStep(used: seq<Record>, r: Record, n: nat, id: string)
    requires n < 3
    ensures MentionedIn(r, id, n + 1) <==> MentionedIn(r, id, n) || (id != "" && id == SwitchAt(r, n))
    ensures AnyMentions(used, id) || MentionedIn(r, id, n) || id != SwitchAt(r, n) ==> NameSoFar(used, r, n + 1, id) == NameSoFar(used, r, n, id)
    ensures !AnyMentions(used, id) && !MentionedIn(r, id, n) && id == SwitchAt(r, n) && id != "" ==>
              NameSoFar(used, r, n + 1, id) == SwitchNameAt(r, n)
    ensures !AnyMentions(used, "") && !MentionedIn(r, "", n)
  {}

  lemma LabelledStep(used: seq<Record>, r: Record, n: nat, nodes: map<string, Cell>, more: map<string, Cell>, sw: Cell)
    requires n < 3 && Labelled(used, r, n, nodes)
    requires var swID := SwitchAt(r, n);
             if swID == "" then more == nodes
             else (swID in nodes || sw.name == SwitchNameAt(r, n)) && more == (if swID in nodes then nodes else nodes[swID := sw])
    ensures Labelled(used, r, n + 1, more)
  {
    hide NameSoFar, AnyMentions, MentionedIn;
    forall id
      ensures id in more <==> AnyMentions(used, id) || MentionedIn(r, id, n + 1)
      ensures id in more ==> more[id].name == NameSoFar(used, r, n + 1, id)
    {
      NewNamesStep(used, r, n, id);
    }
  }

  // ---------- one record ----------

  /** The objects after the given records. */
  ghost predicate Built(used: seq<Record>, names: map<string, string>, hosts: map<string, Cell>, nodes: map<string, Cell>)
    reads hosts.Values, nodes.Values
  {
    Stored(TableOf(used), hosts, nodes) && HostsNamed(hosts, Instances(used), names) && SwitchesNamed(used, nodes)
  }

  /** In the middle of a record. */
  ghost predicate Building(used: seq<Record>, r: Record, n: nat, names: map<string, string>, hosts: map<string, Cell>, nodes: map<string, Cell>)
    reads hosts.Values, nodes.Values
  {
    && Stored(TableTo(TableOf(used), r, n), hosts, nodes) && HostsNamed(hosts, Instances(used) + {r.instanceID}, names)
    && Labelled(used, r, n, nodes)
  }

  lemma BuildingStarts(used: seq<Record>, r: Record, names: map<string, string>, before: map<string, Cell>, nodes: map<string, Cell>, c: Cell)
    requires Built(used, names, before, nodes) && r.instanceID in names && r.instanceID !in before
    requires c.id == r.instanceID && c.name == names[r.instanceID] && c.vertices == map[] && c !in nodes.Values
    ensures Building(used, r, 0, names, before[r.instanceID := c], nodes)
  {
    hide TableOf, NameOf, AnyMentions;
  }

  lemma BuildingEnds(used: seq<Record>, r: Record, names: map<string, string>, hosts: map<string, Cell>, nodes: map<string, Cell>)
    requires Building(used, r, 3, names, hosts, nodes)
    ensures Built(used + [r], names, hosts, nodes)
  {
    hide TableTo, AnyMentions, MentionedIn, NameOf, NameIn, Stored;
    var more := used + [r];
    assert more[..|used|] == used;
    InstancesSnoc(used, r);
    forall id ensures AnyMentions(more, id) <==> AnyMentions(used, id) || MentionedIn(r, id, 3) { MentionsMore(used, r, id); }
    forall id | id in nodes ensures nodes[id].name == NameOf(more, id) { NameMore(used, r, id); }
  }

  lemma MentionsMore(used: seq<Record>, r: Record, id: string)
    ensures AnyMentions(used + [r], id) <==> AnyMentions(used, id) || MentionedIn(r, id, 3)
  {
    hide MentionedIn;
    if AnyMentions(used, id) {
      var s :| s in used && MentionedIn(s, id, 3);
      assert s in used + [r];
    }
    assert r in used + [r];
  }

  lemma NameMore(used: seq<Record>, r: Record, id: string)
    ensures NameOf(used + [r], id) == if AnyMentions(used, id) then NameOf(used, id) else NameIn(r, id, 3)
  {
    hide AnyMentions, NameIn;
    assert (used + [r])[..|used|] == used;
  }

  /** One tier: if its switch is known, the object reached so far is filed under it. */
  method Climb(r: Record, n: nat, reached: Cell, nodes: map<string, Cell>,
               ghost used: seq<Record>, ghost names: map<string, string>, ghost hosts: map<string, Cell>)
    returns (top: Cell, more: map<string, Cell>)
    requires n < 3 && Building(used, r, n, names, hosts, nodes) && IsObject(reached, RefTo(r, n), hosts, nodes)
    modifies nodes.Values
    ensures Building(used, r, n + 1, names, hosts, more) && IsObject(top, RefTo(r, n + 1), hosts, more)
    ensures Grows(nodes, more) && forall id :: id in more && id !in nodes ==> fresh(more[id])
  {
    hide TableOf, AnyMentions, MentionedIn, NameSoFar, Instances, Stored;
    var swID := SwitchAt(r, n);
    top, more := reached, nodes;
    if |swID| != 0 {
      top, more := Attach(swID, SwitchNameAt(r, n), reached, nodes, RefTo(r, n), TableTo(TableOf(used), r, n), hosts);
    }
    LabelledStep(used, r, n, nodes, more, top);
  }

  /** One record: its instance is a new object, filed under the lowest known switch, and so on up. */
  method PlaceRecord(r: Record, nodeName: string, nodes: map<string, Cell>,
                     ghost used: seq<Record>, ghost names: map<string, string>, ghost hosts: map<string, Cell>)
    returns (top: Cell, more: map<string, Cell>, ghost all: map<string, Cell>)
    requires Built(used, names, hosts, nodes) && r.instanceID in names && names[r.instanceID] == nodeName && r.instanceID !in hosts
    modifies nodes.Values
    ensures Built(used + [r], names, all, more) && IsObject(top, RefTo(r, 3), all, more)
    ensures Grows(hosts, all) && forall x :: x in all && x !in hosts ==> fresh(all[x])
    ensures Grows(nodes, more) && forall id :: id in more && id !in nodes ==> fresh(more[id])
  {
    hide RefTo, Building, Labelled, AnyMentions, TableOf, NameOf, Instances;
    top := new Cell(nodeName, r.instanceID);
    more, all := nodes, hosts[r.instanceID := top];
    BuildingStarts(used, r, names, hosts, nodes, top);
    StartRef(r, top, all, more);
    for n := 0 to 3
      invariant Building(used, r, n, names, all, more) && IsObject(top, RefTo(r, n), all, more)
      invariant Grows(nodes, more) && forall id :: id in more && id !in nodes ==> fresh(more[id])
    {
      top, more := Climb(r, n, top, more, used, names, all);
    }
    BuildingEnds(used, r, names, all, more);
  }

  lemma StartRef(r: Record, c: Cell, hosts: map<string, Cell>, nodes: map<string, Cell>)
    requires r.instanceID in hosts && hosts[r.instanceID] == c
    ensures IsObject(c, RefTo(r, 0), hosts, nodes)
  {}

  // ---------- all records ----------

  /** The highest objects so far. */
  ghost predicate ForestOf(forest: map<string, Cell>, used: seq<Record>, hosts: map<string, Cell>, nodes: map<string, Cell>) {
    && forest.Keys == TopRefs(used).Keys
    && forall id :: id in forest ==> IsObject(forest[id], TopRefs(used)[id], hosts, nodes)
  }

  /** The requested instances no record has been seen for. */
  ghost predicate Rest(i2n: map<string, string>, names: map<string, string>, used: seq<Record>) {
    && i2n.Keys == names.Keys - Instances(used)
    && forall x :: x in i2n ==> i2n[x] == names[x]
  }

  lemma NothingBuilt(names: map<string, string>)
    ensures Built([], names, map[], map[]) && ForestOf(map[], [], map[], map[]) && Rest(names, names, [])
    ensures Domains.DomainsOf([], names) == map[]
  {}

  lemma ForestStep(forest: map<string, Cell>, used: seq<Record>, r: Record, top: Cell,
                   hosts: map<string, Cell>, nodes: map<string, Cell>, all: map<string, Cell>, more: map<string, Cell>)
    requires ForestOf(forest, used, hosts, nodes) && Grows(hosts, all) && Grows(nodes, more)
    requires IsObject(top, RefTo(r, 3), all, more) && top.id == RefTo(r, 3).id
    ensures ForestOf(forest[top.id := top], used + [r], all, more)
  {
    hide RefTo;
    assert (used + [r])[..|used|] == used;
  }

  /** An object carries the ID it is filed under. */
  lemma ObjectId(c: Cell, x: Ref, used: seq<Record>, names: map<string, string>, hosts: map<string, Cell>, nodes: map<string, Cell>)
    requires Built(used, names, hosts, nodes) && IsObject(c, x, hosts, nodes)
    ensures c.id == x.id
  {
    hide TableOf, AnyMentions, NameOf;
  }

  lemma RestStep(i2n: map<string, string>, names: map<string, string>, used: seq<Record>, r: Record)
    requires Rest(i2n, names, used) && r.instanceID in i2n
    ensures Rest(i2n - {r.instanceID}, names, used + [r])
  {
    hide Instances;
    InstancesSnoc(used, r);
  }

  /** The next record is used exactly if its instance is still wanted, and then the instance has no object yet. */
  lemma MayPlace(records: seq<Record>, i: nat, names: map<string, string>, i2n: map<string, string>,
                 hosts: map<string, Cell>, nodes: map<string, Cell>)
    requires i < |records|
    requires Rest(i2n, names, Used(records[..i], names.Keys)) && Built(Used(records[..i], names.Keys), names, hosts, nodes)
    ensures var used, r := Used(records[..i], names.Keys), records[i];
            if r.instanceID in i2n then
              && Used(records[..i + 1], names.Keys) == used + [r]
              && r.instanceID in names && i2n[r.instanceID] == names[r.instanceID] && r.instanceID !in hosts
            else Used(records[..i + 1], names.Keys) == used
  {
    hide Stored, TableOf, Instances, AnyMentions, NameOf;
    assert records[..i + 1][..i] == records[..i];
  }

  method PlaceRecords(records: seq<Record>, names: map<string, string>)
    returns (forest: map<string, Cell>, rest: map<string, string>, domainMap: Domains.DomainMap,
             ghost hosts: map<string, Cell>, ghost switches: map<string, Cell>)
    ensures var used := Used(records, names.Keys);
            && Built(used, names, hosts, switches) && ForestOf(forest, used, hosts, switches) && Rest(rest, names, used)
            && domainMap.domains == Domains.DomainsOf(used, names)
    ensures fresh(domainMap) && (forall x :: x in hosts ==> fresh(hosts[x])) && forall id :: id in switches ==> fresh(switches[id])
  {
    hide Built, ForestOf, Rest, RefTo, Domains.DomainsOf, Used, IsObject;
    var i2n := names;
    forest := map[];
    var nodes: map<string, Cell> := map[];
    hosts := map[];
    domainMap := new Domains.DomainMap();
    NothingBuilt(names);
    assert records[..0] == [] && Used([], names.Keys) == [] by { NoneUsed(names.Keys); }
    for i := 0 to |records|
      invariant Built(Used(records[..i], names.Keys), names, hosts, nodes)
      invariant ForestOf(forest, Used(records[..i], names.Keys), hosts, nodes) && Rest(i2n, names, Used(records[..i], names.Keys))
      invariant domainMap.domains == Domains.DomainsOf(Used(records[..i], names.Keys), names)
      invariant fresh(domainMap) && (forall x :: x in hosts ==> fresh(hosts[x])) && forall id :: id in nodes ==> fresh(nodes[id])
    {
      ghost var used := Used(records[..i], names.Keys);
      var inst := records[i];
      MayPlace(records, i, names, i2n, hosts, nodes);
      if inst.instanceID in i2n {
        var nodeName := i2n[inst.instanceID];
        RestStep(i2n, names, used, inst);
        i2n := i2n - {inst.instanceID};
        DomainsStep(used, inst, names);
        if |inst.acceleratorID| != 0 {
          domainMap.AddHost(inst.acceleratorID, inst.instanceID, nodeName);
        }
        ghost var before, below := hosts, nodes;
        var top: Cell;
        top, nodes, hosts := PlaceRecord(inst, nodeName, nodes, used, names, hosts);
        ObjectId(top, RefTo(inst, 3), used + [inst], names, hosts, nodes);
        ForestStep(forest, used, inst, top, before, below, hosts, nodes);
        forest := forest[top.id := top];
      }
    }
    assert records[..|records|] == records;
    rest, switches := i2n, nodes;
  }

  lemma NoneUsed(ids: set<string>)
    ensures Used([], ids) == []
  {}

  lemma DomainsStep(used: seq<Record>, r: Record, names: map<string, string>)
    requires r.instanceID in names
    ensures Domains.DomainsOf(used + [r], names) ==
            if r.acceleratorID == "" then Domains.DomainsOf(used, names)
            else Domains.WithHost(Domains.DomainsOf(used, names), r.acceleratorID, r.instanceID, names[r.instanceID])
  {
    assert (used + [r])[..|used|] == used;
  }

  // ---------- the root ----------

  /** The place for the instances without topology. */
  method AddMissing(i2n: map<string, string>, ghost nodes: map<string, Cell>) returns (sw: Cell, ghost added: map<string, Cell>)
    ensures fresh(sw) && sw.id == NO_TOPOLOGY && sw.name == "" && sw.vertices == added && added.Keys == i2n.Keys
    ensures forall x :: x in added ==> fresh(added[x]) && added[x] != sw && IsInstance(added[x], x, i2n[x])
    ensures NotAmong(added, nodes)
  {
    sw := new Cell("", NO_TOPOLOGY);
    added := map[];
    var todo := i2n.Keys;
    while todo != {}
      invariant todo <= i2n.Keys && added.Keys == i2n.Keys - todo && sw.vertices == added
      invariant forall x :: x in added ==> fresh(added[x]) && added[x] != sw && IsInstance(added[x], x, i2n[x])
      decreases todo
    {
      var instanceID :| instanceID in todo;
      todo := todo - {instanceID};
      var instance := new Cell(i2n[instanceID], instanceID);
      added := added[instanceID := instance];
      sw.vertices := sw.vertices[instanceID := instance];
    }
  }

  ghost predicate NotAmong(added: map<string, Cell>, nodes: map<string, Cell>) {
    forall x, p :: x in added && p in nodes ==> added[x] != nodes[p]
  }

  lemma BuiltParts(g: Graph, hosts: map<string, Cell>, nodes: map<string, Cell>)
    requires Built(g.used, g.names, hosts, nodes)
    ensures Stored(TableOf(g.used), hosts, nodes) && HostsNamed(hosts, Instances(g.used), g.names)
    ensures SwitchesNamed(g.used, nodes)
  {}

  ghost predicate IsInstance(c: Cell, id: string, name: string)
    reads c
  {
    c.id == id && c.name == name && c.vertices == map[]
  }

  ghost predicate IsPlace(place: Cell, missing: set<string>, hosts: map<string, Cell>)
    reads place
  {
    && place.id == NO_TOPOLOGY && place.name == "" && place.vertices.Keys == missing
    && forall x :: x in missing ==> x in hosts && place.vertices[x] == hosts[x]
  }

  /** What is filed below the root: the highest objects and, in place of one with its ID, the place for what is missing. */
  ghost predicate RootFiles(root: Cell, g: Graph, place: Cell?, hosts: map<string, Cell>, nodes: map<string, Cell>)
    reads root
  {
    && root.id == "" && root.name == ""
    && root.vertices.Keys == TopRefs(g.used).Keys + (if place != null then {NO_TOPOLOGY} else {})
    && forall k :: k in root.vertices ==>
         if place != null && k == NO_TOPOLOGY then root.vertices[k] == place else IsObject(root.vertices[k], TopRefs(g.used)[k], hosts, nodes)
  }

  /** The finished graph: every requested instance and every switch of the used records is one object, and each has filed
      below it what was last filed under each key. */
  ghost predicate Assembled(g: Graph, root: Cell, place: Cell?, hosts: map<string, Cell>, nodes: map<string, Cell>)
    reads root, place, hosts.Values, nodes.Values
  {
    && Stored(TableOf(g.used), hosts, nodes) && HostsNamed(hosts, g.names.Keys, g.names) && SwitchesNamed(g.used, nodes)
    && (place == null <==> Missing(g) == {}) && (place != null ==> IsPlace(place, Missing(g), hosts))
    && RootFiles(root, g, place, hosts, nodes)
  }

  /** A new root over copies of the given entries. */
  method NewRoot(forest: map<string, Cell>) returns (treeRoot: Cell)
    ensures fresh(treeRoot) && treeRoot.id == "" && treeRoot.name == "" && treeRoot.vertices == forest
  {
    treeRoot := new Cell("", "");
    treeRoot.vertices := forest;
  }

  /** If instances are missing, their place joins the highest objects. */
  method AddPlace(forest: map<string, Cell>, rest: map<string, string>, ghost names: map<string, string>, ghost ids: set<string>,
                  ghost table: Filings, ghost hosts: map<string, Cell>, ghost nodes: map<string, Cell>)
    returns (whole: map<string, Cell>, ghost place: Cell?, ghost all: map<string, Cell>)
    requires Stored(table, hosts, nodes) && HostsNamed(hosts, ids, names) && rest.Keys !! hosts.Keys
    requires forall x :: x in rest ==> x in names && rest[x] == names[x]
    ensures whole == (if place == null then forest else forest[NO_TOPOLOGY := place]) && (place == null <==> |rest| == 0)
    ensures Stored(table, all, nodes) && HostsNamed(all, ids + rest.Keys, names) && Grows(hosts, all)
    ensures place != null ==> fresh(place) && IsPlace(place, rest.Keys, all)
    ensures forall x :: x in all ==> fresh(all[x]) || (x in hosts && all[x] == hosts[x])
  {
    hide Stored, HostsNamed, IsPlace, NotAmong, Grows;
    whole, place, all := forest, null, hosts;
    if |rest| == 0 {
      SameHosts(hosts, ids, rest);
      return;
    }
    var sw: Cell;
    ghost var added;
    sw, added := AddMissing(rest, nodes);
    whole := whole[NO_TOPOLOGY := sw];
    place, all := sw, hosts + added;
    MoreHosts(table, hosts, nodes, added);
    HostsMore(hosts, ids, added, names);
    PlaceHolds(sw, hosts, added);
  }

  lemma SameHosts(hosts: map<string, Cell>, ids: set<string>, rest: map<string, string>)
    requires |rest| == 0
    ensures ids + rest.Keys == ids && Grows(hosts, hosts)
  {}

  method AddRoot(ghost g: Graph, forest: map<string, Cell>, rest: map<string, string>, ghost hosts: map<string, Cell>, ghost nodes: map<string, Cell>)
    returns (treeRoot: Cell, ghost place: Cell?, ghost all: map<string, Cell>)
    requires Built(g.used, g.names, hosts, nodes) && ForestOf(forest, g.used, hosts, nodes) && Rest(rest, g.names, g.used)
    ensures Assembled(g, treeRoot, place, all, nodes) && fresh(treeRoot) && (place != null ==> fresh(place))
    ensures forall x :: x in all ==> fresh(all[x]) || (x in hosts && all[x] == hosts[x])
  {
    hide Missing, Instances, TableOf, TopRefs, Stored, HostsNamed, IsPlace, ForestOf, Rest, RootFiles, Built, Assembled;
    BuiltParts(g, hosts, nodes);
    RestIsMissing(g, rest, hosts);
    var whole;
    whole, place, all := AddPlace(forest, rest, g.names, Instances(g.used), TableOf(g.used), hosts, nodes);
    treeRoot := NewRoot(whole);
    ForestBelow(g, forest, hosts, nodes, all, place, treeRoot);
    AssembledFrom(g, treeRoot, place, all, nodes);
  }

  lemma AssembledFrom(g: Graph, root: Cell, place: Cell?, hosts: map<string, Cell>, nodes: map<string, Cell>)
    requires Stored(TableOf(g.used), hosts, nodes) && HostsNamed(hosts, g.names.Keys, g.names) && SwitchesNamed(g.used, nodes)
    requires (place == null <==> Missing(g) == {}) && (place != null ==> IsPlace(place, Missing(g), hosts))
    requires RootFiles(root, g, place, hosts, nodes)
    ensures Assembled(g, root, place, hosts, nodes)
  {
    hide TableOf, TopRefs, AnyMentions, NameOf, Missing, Instances;
  }

  lemma ForestBelow(g: Graph, forest: map<string, Cell>, hosts: map<string, Cell>, nodes: map<string, Cell>, all: map<string, Cell>,
                    place: Cell?, root: Cell)
    requires ForestOf(forest, g.used, hosts, nodes) && Grows(hosts, all) && root.id == "" && root.name == ""
    requires root.vertices == if place == null then forest else forest[NO_TOPOLOGY := place]
    ensures RootFiles(root, g, place, all, nodes)
  {
    hide TopRefs;
  }

  /** The requested instances without an object are those that are missing. */
  lemma RestIsMissing(g: Graph, rest: map<string, string>, hosts: map<string, Cell>)
    requires HostsNamed(hosts, Instances(g.used), g.names) && Rest(rest, g.names, g.used)
    ensures rest.Keys == Missing(g) && rest.Keys !! hosts.Keys && hosts.Keys + rest.Keys == g.names.Keys
    ensures |rest| == 0 <==> Missing(g) == {}
    ensures forall x :: x in rest ==> x in g.names && rest[x] == g.names[x]
  {
    hide Instances;
    SplitKeys(g.names.Keys, hosts.Keys, rest.Keys);
    assert |rest| == |rest.Keys|;
  }

  lemma SplitKeys(all: set<string>, part: set<string>, rest: set<string>)
    requires part <= all && rest == all - part
    ensures rest !! part && part + rest == all
  {}

  lemma HostsMore(hosts: map<string, Cell>, ids: set<string>, added: map<string, Cell>, names: map<string, string>)
    requires HostsNamed(hosts, ids, names) && added.Keys !! hosts.Keys
    requires forall x :: x in added ==> x in names && IsInstance(added[x], x, names[x])
    ensures HostsNamed(hosts + added, ids + added.Keys, names) && Grows(hosts, hosts + added)
  {}

  lemma PlaceHolds(place: Cell, hosts: map<string, Cell>, added: map<string, Cell>)
    requires place.id == NO_TOPOLOGY && place.name == "" && place.vertices == added
    ensures IsPlace(place, added.Keys, hosts + added)
  {}

  lemma MoreHosts(table: Filings, hosts: map<string, Cell>, nodes: map<string, Cell>, added: map<string, Cell>)
    requires Stored(table, hosts, nodes) && added.Keys !! hosts.Keys && NotAmong(added, nodes)
    requires forall x :: x in added ==> added[x].id == x && added[x].vertices == map[]
    ensures Stored(table, hosts + added, nodes)
  {
    hide Files;
    forall p | p in nodes ensures Files(nodes[p], table[p], hosts + added, nodes) { FilesWith(nodes[p], table[p], hosts, nodes, added); }
  }

  lemma FilesWith(c: Cell, kids: map<string, Ref>, hosts: map<string, Cell>, nodes: map<string, Cell>, added: map<string, Cell>)
    requires Files(c, kids, hosts, nodes) && added.Keys !! hosts.Keys
    ensures Files(c, kids, hosts + added, nodes)
  {}
}
