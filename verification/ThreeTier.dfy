/** The three-tier graph that is built in memory, and the tree it stands for: `pkg/topology/graph.go`. */
module ThreeTier {
  import opened Normalization
  import opened Options
  import opened Ordering
  import opened SharedIds
  import opened ThreeTierCycles
  import opened ThreeTierObjects
  import opened ThreeTierSpec
  import opened ThreeTierTree
  import opened Topology
  import opened Trees
  import opened Walks

  import BlocksSpec
  import Domains

  /** The object stands for the vertex `v`: same name, same ID, and children that stand for the children of `v`. */
  ghost predicate Represents(c: Cell, v: Vertex, cells: set<Cell>)
    reads cells
    decreases v
  {
    && c in cells && c.id == v.id && c.name == v.name
    && (forall k :: k in c.vertices <==> k in v.vertices)
    && (forall k :: k in v.vertices ==> Represents(c.vertices[k], v.vertices[k], cells))
  }

  /** The object stands for some vertex: following children from it comes to an end. */
  ghost predicate IsValue(c: Cell, cells: set<Cell>)
    reads cells
  {
    exists v :: Represents(c, v, cells)
  }

  /** An object stands for one vertex only. */
  lemma {:induction false} RepresentsOne(c: Cell, v: Vertex, w: Vertex, cells: set<Cell>)
    requires Represents(c, v, cells) && Represents(c, w, cells)
    ensures v == w
    decreases v
  {
    forall k | k in v.vertices ensures v.vertices[k] == w.vertices[k] {
      RepresentsOne(c.vertices[k], v.vertices[k], w.vertices[k], cells);
    }
    assert v.vertices.Keys == w.vertices.Keys;
    assert v.vertices == w.vertices;
  }

  /** The children recorded for an ID. */
  function KidsIn(links: set<(string, string)>, id: string): set<string> {
    set l | l in links && l.0 == id :: l.1
  }

  /** The object has the given ID, and its children are the objects filed under the given IDs. */
  ghost predicate CellFor(c: Cell, id: string, kids: set<string>, cells: map<string, Cell>)
    reads c
  {
    && c.id == id && c.vertices.Keys == kids
    && forall k :: k in kids ==> k in cells && c.vertices[k] == cells[k]
  }

  // ---------- the finished graph ----------

  /** All objects of the graph, by ID. */
  ghost predicate Complete(cells: map<string, Cell>, g: Graph)
    reads cells.Values
  {
    forall id :: id in cells ==> Finished(cells[id], id, g, cells)
  }

  ghost predicate Finished(c: Cell, id: string, g: Graph, cells: map<string, Cell>)
    reads c
  {
    CellFor(c, id, KidsOf(g, id), cells) && c.name == Label(g, id)
  }

  lemma {:induction false} CompleteRepresents(cells: map<string, Cell>, g: Graph, id: string)
    requires Buildable(g) && Complete(cells, g) && id in cells
    ensures Represents(cells[id], At(g, id), cells.Values)
    decreases Tier(g, id)
  {
    hide Buildable, Link, Below, Label;
    var v := At(g, id);
    KidsAre(g, id, "");
    forall k ensures k in v.vertices <==> k in KidsOf(g, id) {
      KidsAre(g, id, k);
      if Link(g, id, k) { LinkDescends(g, id, k); }
    }
    forall k | k in v.vertices ensures Represents(cells[id].vertices[k], v.vertices[k], cells.Values) {
      KidsAre(g, id, k);
      LinkDescends(g, id, k);
      CompleteRepresents(cells, g, k);
    }
  }

  lemma {:induction false} UnfoldedRepresents(cells: map<string, Cell>, g: Graph, id: string, n: nat)
    requires Complete(cells, g) && id in cells && Short(ChildLists(g), id, n)
    ensures Represents(cells[id], Unfolded(g, id, n), cells.Values)
    decreases n
  {
    hide KidsOf, Label, Short, ChildLists, ListAt;
    var v := Unfolded(g, id, n);
    assert Finished(cells[id], id, g, cells);
    forall k | k in KidsOf(g, id)
      ensures n > 0 && k in v.vertices && Represents(cells[id].vertices[k], v.vertices[k], cells.Values)
    {
      KidListed(g, id, k);
      ShortBelow(ChildLists(g), id, k, n);
      UnfoldedRepresents(cells, g, k, n - 1);
    }
  }

  lemma KidListed(g: Graph, p: string, c: string)
    ensures c in KidsOf(g, p) <==> c in ListAt(ChildLists(g), p)
  {
    hide Link, Below, ChildLists, ListAt;
    ListedAreLinked(g, p, c);
    if c in KidsOf(g, p) { assert Link(g, p, c); }
  }

  /** An object that stands for a vertex is not on a way that never ends. */
  lemma {:induction false} RepresentsEnds(cells: map<string, Cell>, g: Graph, id: string, v: Vertex, ids: set<string>)
    requires Complete(cells, g) && id in cells && Represents(cells[id], v, cells.Values) && Trap(ChildLists(g), "", ids)
    ensures id !in ids
    decreases v
  {
    hide KidsOf, Label, ChildLists, ListAt;
    if id in ids {
      assert Finished(cells[id], id, g, cells);
      var c :| c in ids && c in ListAt(ChildLists(g), id);
      KidListed(g, id, c);
      RepresentsEnds(cells, g, c, v.vertices[c], ids);
    }
  }

  /** The objects stand for a vertex, with everything below it, if and only if nothing lies below itself. */
  lemma ValueUnlessCycle(cells: map<string, Cell>, g: Graph)
    requires Complete(cells, g) && "" in cells
    ensures IsValue(cells[""], cells.Values) <==> !HasCycle(g)
  {
    hide Complete, Represents, Short, ComesBack, HasCycle, Trap, ChildLists;
    CycleComesBack(g);
    if HasCycle(g) {
      var ids := BackIsTrap(ChildLists(g), "");
      TrapHasRoot(ChildLists(g), "", ids);
      forall v ensures !Represents(cells[""], v, cells.Values) {
        if Represents(cells[""], v, cells.Values) { RepresentsEnds(cells, g, "", v, ids); }
      }
    } else {
      WaysAreShort(ChildLists(g), "");
      UnfoldedRepresents(cells, g, "", |ListedIds(ChildLists(g))|);
    }
  }

  lemma SwitchKids(g: Graph, id: string)
    requires IdsFree(g) && AnyMentions(g.used, id)
    ensures KidsOf(g, id) == KidsIn(LinksOf(g.used), id) && id != "" && id !in g.names && (Missing(g) != {} ==> id != NO_TOPOLOGY)
  {
    hide LinksOf, Tops;
    forall k | k in KidsIn(LinksOf(g.used), id) ensures k in Below(g) {
      assert (id, k) in LinksOf(g.used) && (id, k).1 == k;
    }
    forall k | k in KidsOf(g, id) ensures k in KidsIn(LinksOf(g.used), id) {
      assert (id, k).1 == k;
    }
  }

  lemma InstanceKids(g: Graph, x: string)
    requires IdsFree(g) && x in g.names
    ensures KidsOf(g, x) == {}
  {
    hide LinksOf, Tops;
    forall k | k in KidsOf(g, x) ensures false {
      LinkSources(g.used, x, k);
    }
  }

  lemma {:induction false} Unmentioned(used: seq<Record>, id: string)
    requires !AnyMentions(used, id)
    ensures NameOf(used, id) == ""
  {
    if used != [] {
      assert used[|used| - 1] in used;
    }
  }

  lemma {:induction false} LinkSources(used: seq<Record>, p: string, c: string)
    requires (p, c) in LinksOf(used)
    ensures AnyMentions(used, p)
  {
    hide LinksTo;
    var front, last := used[..|used| - 1], used[|used| - 1];
    assert used == front + [last];
    if (p, c) in LinksOf(front) {
      LinkSources(front, p, c);
      var r :| r in front && MentionedIn(r, p, 3);
      assert r in used;
    } else {
      LinkSource(last, 3, p, c);
      assert last in used;
    }
  }

  lemma {:induction false} LinkSource(r: Record, n: nat, p: string, c: string)
    requires n <= 3 && (p, c) in LinksTo(r, n)
    ensures MentionedIn(r, p, n)
  {
    if n > 0 && (p, c) in LinksTo(r, n - 1) { LinkSource(r, n - 1, p, c); }
  }

  lemma MissingKids(g: Graph)
    requires IdsFree(g) && Missing(g) != {}
    ensures KidsOf(g, NO_TOPOLOGY) == Missing(g) && Label(g, NO_TOPOLOGY) == ""
  {
    hide LinksOf, Tops;
    assert !AnyMentions(g.used, NO_TOPOLOGY);
    Unmentioned(g.used, NO_TOPOLOGY);
    forall k | (NO_TOPOLOGY, k) in LinksOf(g.used) ensures false { LinkSources(g.used, NO_TOPOLOGY, k); }
  }

  lemma RootKids(g: Graph)
    requires IdsFree(g)
    ensures KidsOf(g, "") == Tops(g.used) + (if Missing(g) != {} then {NO_TOPOLOGY} else {}) && Label(g, "") == ""
  {
    hide LinksOf, Tops;
    Unmentioned(g.used, "");
    forall k | ("", k) in LinksOf(g.used) ensures false { LinkSources(g.used, "", k); }
  }

  // ---------- from objects to the tree ----------

  ghost predicate HasEntry(table: Filings, p: string, k: string) {
    p in table && k in table[p]
  }

  /** What is filed under a key carries the key as its ID. */
  ghost predicate KeysAreIds(table: Filings) {
    forall p, k :: HasEntry(table, p, k) ==> table[p][k].id == k
  }

  lemma {:induction false} RefToTop(r: Record, n: nat)
    ensures RefTo(r, n).id == TopTo(r, n)
  {
    if n > 0 { RefToTop(r, n - 1); }
  }

  lemma {:induction false} TableToLinks(table: Filings, r: Record, n: nat)
    requires KeysAreIds(table)
    ensures KeysAreIds(TableTo(table, r, n))
    ensures forall p, k :: HasEntry(TableTo(table, r, n), p, k) <==> HasEntry(table, p, k) || (p, k) in LinksTo(r, n)
  {
    hide RefTo, TopTo;
    if n > 0 {
      TableToLinks(table, r, n - 1);
      RefToTop(r, n - 1);
    }
  }

  /** What is filed is what is linked. */
  lemma {:induction false} TableIsLinks(used: seq<Record>)
    ensures KeysAreIds(TableOf(used))
    ensures forall p, k :: HasEntry(TableOf(used), p, k) <==> (p, k) in LinksOf(used)
  {
    hide TableTo, LinksTo;
    if used != [] {
      var front, last := used[..|used| - 1], used[|used| - 1];
      TableIsLinks(front);
      TableToLinks(TableOf(front), last, 3);
      assert LinksOf(used) == LinksOf(front) + LinksTo(last, 3);
    }
  }

  lemma {:induction false} TopRefsAreTops(used: seq<Record>)
    ensures TopRefs(used).Keys == Tops(used) && forall k :: k in TopRefs(used) ==> TopRefs(used)[k].id == k
  {
    hide RefTo, TopTo;
    if used != [] {
      var front, last := used[..|used| - 1], used[|used| - 1];
      assert used == front + [last];
      TopRefsAreTops(front);
      RefToTop(last, 3);
      TopsSnoc(front, last);
    }
  }

  lemma TopsSnoc(front: seq<Record>, last: Record)
    ensures Tops(front + [last]) == Tops(front) + {TopTo(last, 3)}
  {
    hide TopTo;
  }

  /** All objects by ID. */
  ghost function AllCells(root: Cell, place: Cell?, hosts: map<string, Cell>, nodes: map<string, Cell>): map<string, Cell> {
    (nodes + hosts + if place != null then map[NO_TOPOLOGY := place] else map[])["" := root]
  }

  /** Where no switch has the ID of an instance, objects are found by their IDs. */
  lemma FoundById(g: Graph, root: Cell, place: Cell?, hosts: map<string, Cell>, nodes: map<string, Cell>, c: Cell, x: Ref)
    requires IdsFree(g) && HostsNamed(hosts, g.names.Keys, g.names) && SwitchesNamed(g.used, nodes) && (place == null <==> Missing(g) == {})
    requires IsObject(c, x, hosts, nodes)
    ensures x.id != "" && (place != null ==> x.id != NO_TOPOLOGY)
    ensures var cells := AllCells(root, place, hosts, nodes); x.id in cells && cells[x.id] == c
  {
    hide NameOf, Missing;
  }

  lemma AssembledComplete(g: Graph, root: Cell, place: Cell?, hosts: map<string, Cell>, nodes: map<string, Cell>)
    requires IdsFree(g) && Assembled(g, root, place, hosts, nodes)
    ensures Complete(AllCells(root, place, hosts, nodes), g)
  {
    hide IdsFree, Missing, Finished, Assembled, HostsNamed, SwitchesNamed;
    var cells := AllCells(root, place, hosts, nodes);
    forall id | id in cells ensures Finished(cells[id], id, g, cells) {
      if id == "" {
        RootFinished(g, root, place, hosts, nodes);
      } else if place != null && id == NO_TOPOLOGY {
        PlaceFinished(g, root, place, hosts, nodes);
      } else if id in hosts {
        HostFinished(g, root, place, hosts, nodes, id);
      } else {
        SwitchFinished(g, root, place, hosts, nodes, id);
      }
    }
  }

  lemma RootFinished(g: Graph, root: Cell, place: Cell?, hosts: map<string, Cell>, nodes: map<string, Cell>)
    requires IdsFree(g) && Assembled(g, root, place, hosts, nodes)
    ensures Finished(root, "", g, AllCells(root, place, hosts, nodes))
  {
    hide IdsFree, Missing, Stored, HostsNamed, SwitchesNamed, KidsOf, Label, IsObject, IsPlace, AllCells;
    var cells := AllCells(root, place, hosts, nodes);
    RootKids(g);
    TopRefsAreTops(g.used);
    if place != null { PlaceAt(root, place, hosts, nodes); }
    forall k | k in root.vertices ensures k in cells && root.vertices[k] == cells[k] {
      if place == null || k != NO_TOPOLOGY { FoundById(g, root, place, hosts, nodes, root.vertices[k], TopRefs(g.used)[k]); }
    }
  }

  lemma PlaceAt(root: Cell, place: Cell, hosts: map<string, Cell>, nodes: map<string, Cell>)
    ensures var cells := AllCells(root, place, hosts, nodes); NO_TOPOLOGY in cells && cells[NO_TOPOLOGY] == place
  {}

  lemma PlaceFinished(g: Graph, root: Cell, place: Cell, hosts: map<string, Cell>, nodes: map<string, Cell>)
    requires IdsFree(g) && Assembled(g, root, place, hosts, nodes)
    ensures var cells := AllCells(root, place, hosts, nodes); NO_TOPOLOGY in cells && Finished(cells[NO_TOPOLOGY], NO_TOPOLOGY, g, cells)
  {
    hide IdsFree, Missing, Stored, SwitchesNamed, RootFiles, KidsOf, Label, AllCells;
    MissingKids(g);
    PlaceAt(root, place, hosts, nodes);
    forall x | x in Missing(g) ensures x in AllCells(root, place, hosts, nodes) && place.vertices[x] == AllCells(root, place, hosts, nodes)[x] {
      FoundById(g, root, place, hosts, nodes, hosts[x], Host(x));
    }
  }

  lemma HostFinished(g: Graph, root: Cell, place: Cell?, hosts: map<string, Cell>, nodes: map<string, Cell>, id: string)
    requires IdsFree(g) && Assembled(g, root, place, hosts, nodes) && id in hosts
    ensures var cells := AllCells(root, place, hosts, nodes); id in cells && Finished(cells[id], id, g, cells)
  {
    hide IdsFree, Missing, SwitchesNamed, RootFiles, KidsOf, AllCells, TableOf, Files, NameOf, IsPlace;
    InstanceKids(g, id);
    FoundById(g, root, place, hosts, nodes, hosts[id], Host(id));
  }

  lemma SwitchFinished(g: Graph, root: Cell, place: Cell?, hosts: map<string, Cell>, nodes: map<string, Cell>, id: string)
    requires IdsFree(g) && Assembled(g, root, place, hosts, nodes) && id in nodes && id !in hosts
    ensures var cells := AllCells(root, place, hosts, nodes); id in cells && Finished(cells[id], id, g, cells)
  {
    hide IdsFree, Missing, RootFiles, KidsOf, AllCells, TableOf, LinksOf, NameOf, AnyMentions, IsPlace, IsObject;
    var cells := AllCells(root, place, hosts, nodes);
    SwitchKids(g, id);
    TableIsLinks(g.used);
    FoundById(g, root, place, hosts, nodes, nodes[id], Sw(id)) by { SwitchObject(hosts, nodes, id); }
    var c := nodes[id];
    forall k ensures k in c.vertices <==> k in KidsIn(LinksOf(g.used), id) { LinkedKid(LinksOf(g.used), id, k); }
    forall k | k in c.vertices ensures k in cells && c.vertices[k] == cells[k] {
      FoundById(g, root, place, hosts, nodes, c.vertices[k], TableOf(g.used)[id][k]);
    }
  }

  lemma SwitchObject(hosts: map<string, Cell>, nodes: map<string, Cell>, id: string)
    requires id in nodes
    ensures IsObject(nodes[id], Sw(id), hosts, nodes)
  {}

  lemma LinkedKid(links: set<(string, string)>, p: string, k: string)
    ensures k in KidsIn(links, p) <==> (p, k) in links
  {
    if (p, k) in links { assert (p, k).0 == p && (p, k).1 == k; }
  }

  /** The objects are linked as the records say, stand for a vertex if and only if nothing lies below itself, and stand for
      the tree of the records if tiers have different IDs. */
  ghost predicate StandsForLinks(g: Graph, tree: Cell, cells: map<string, Cell>)
    requires IdsFree(g)
    reads cells.Values
  {
    && Complete(cells, g) && "" in cells && cells[""] == tree
    && (IsValue(tree, cells.Values) <==> !HasCycle(g))
    && (TiersApart(g.used) ==> Represents(tree, TreeOf(g), cells.Values))
  }

  lemma ObjectsStand(g: Graph, root: Cell, place: Cell?, hosts: map<string, Cell>, nodes: map<string, Cell>)
    requires IdsFree(g) && Assembled(g, root, place, hosts, nodes)
    ensures StandsForLinks(g, root, AllCells(root, place, hosts, nodes))
  {
    hide IdsFree, TiersApart, Assembled, Complete, HasCycle, IsValue, Represents;
    var cells := AllCells(root, place, hosts, nodes);
    AssembledComplete(g, root, place, hosts, nodes);
    ValueUnlessCycle(cells, g);
    if TiersApart(g.used) { CompleteRepresents(cells, g, ""); }
  }

  const LIKE_INSTANCE := Record("a", "a", "", "", "", "", "", "")

  lemma LikeInstanceUsed()
    ensures Used([LIKE_INSTANCE], {"a"}) == [LIKE_INSTANCE] && Instances([LIKE_INSTANCE]) == {"a"}
    ensures TableOf([LIKE_INSTANCE]) == map["a" := map["a" := Host("a")]] && TopRefs([LIKE_INSTANCE]) == map["a" := Sw("a")]
    ensures NameOf([LIKE_INSTANCE], "a") == ""
  {
    var r := LIKE_INSTANCE;
    assert [r][..0] == [] && SwitchAt(r, 0) == "a" && SwitchAt(r, 1) == "" && SwitchAt(r, 2) == "";
    assert RefTo(r, 1) == Sw("a") && RefTo(r, 2) == Sw("a") && RefTo(r, 3) == Sw("a");
    assert TableTo(map[], r, 1) == map["a" := map["a" := Host("a")]] && TableTo(map[], r, 2) == TableTo(map[], r, 1);
    assert TableTo(map[], r, 3) == TableTo(map[], r, 2);
  }

  lemma LikeInstanceObjects(g: Graph, root: Cell, place: Cell?, hosts: map<string, Cell>, nodes: map<string, Cell>)
    requires g == Graph([LIKE_INSTANCE], map["a" := "n1"]) && Assembled(g, root, place, hosts, nodes)
    ensures hosts.Keys == {"a"} && hosts["a"].id == "a" && hosts["a"].name == "n1" && hosts["a"].vertices == map[]
    ensures nodes.Keys == {"a"} && nodes["a"].id == "a" && nodes["a"].name == "" && nodes["a"].vertices == map["a" := hosts["a"]]
    ensures root.id == "" && root.name == "" && root.vertices == map["a" := nodes["a"]]
  {
    hide TableOf, TopRefs, NameOf, IsPlace, Used, AnyMentions;
    LikeInstanceUsed();
    assert g.names.Keys == {"a"} && place == null;
  }

  /** A switch with the ID of its instance: the objects stand for the graph that is not loaded whole and never printed to an end. */
  lemma SwitchLikeInstance(root: Cell, place: Cell?, hosts: map<string, Cell>, nodes: map<string, Cell>)
    requires var names := map["a" := "n1"]; Assembled(Graph(Used([LIKE_INSTANCE], names.Keys), names), root, place, hosts, nodes)
    ensures Represents(root, ROOT_A, {root} + hosts.Values + nodes.Values)
  {
    hide Used, Assembled;
    LikeInstanceUsed();
    var names := map["a" := "n1"];
    assert names.Keys == {"a"};
    LikeInstanceObjects(Graph([LIKE_INSTANCE], names), root, place, hosts, nodes);
    var cells := {root} + hosts.Values + nodes.Values;
    assert Represents(hosts["a"], NODE_A, cells);
    assert Represents(nodes["a"], SWITCH_A, cells);
  }

  // ---------- the collected records ----------

  /** The instances of all requests; a later request overrides an earlier one. */
  function AllNames(cis: seq<map<string, string>>): map<string, string> {
    if cis == [] then map[] else AllNames(cis[..|cis| - 1]) + cis[|cis| - 1]
  }

  /** The records in the order in which they are used. */
  function Effective(records: seq<Record>, normalize: bool): seq<Record> {
    if normalize then Normalized(records) else records
  }

  function GraphOf(records: seq<Record>, cis: seq<map<string, string>>, normalize: bool): Graph {
    Graph(Used(Effective(records, normalize), AllNames(cis).Keys), AllNames(cis))
  }

  method CopyNames(cis: seq<map<string, string>>) returns (i2n: map<string, string>)
    ensures i2n == AllNames(cis)
  {
    i2n := map[];
    for i := 0 to |cis|
      invariant i2n == AllNames(cis[..i])
    {
      assert cis[..i + 1][..i] == cis[..i];
      i2n := i2n + cis[i];
    }
    assert cis[..|cis|] == cis;
  }

  /** The name of a switch, chosen when it is first seen. */
  method NextName(naming: Naming, band: nat, id: string) returns (name: string, more: Naming)
    ensures more == NameStep(naming, (band, id)) && name == NameFor(more.switches, id)
  {
    more := naming;
    if id !in naming.switches {
      var n := CountIn(naming, band) + 1;
      more := Naming(naming.switches[id := SwitchName(band, n)], naming.counts[band := n]);
    }
    name := more.switches[id];
  }

  class ClusterTopology {
    var instances: seq<Record>

    constructor ()
      ensures instances == []
    {
      instances := [];
    }

    method Append(inst: Record)
      modifies this
      ensures instances == old(instances) + [inst]
    {
      instances := instances + [inst];
    }

    /** Sorts the records and writes the normalized switch names into them. */
    method Normalize()
      modifies this
      ensures instances == Normalized(old(instances))
    {
      hide NameStep, ByHierarchy, SortBy, RenamedUpTo, NameFor;
      instances := SortBy(instances, ByHierarchy);
      ghost var sorted := instances;
      RenamedStart(sorted);
      var naming := Naming(map[], map[1 := 0, 2 := 0, 3 := 0]);
      for i := 0 to |instances|
        invariant |instances| == |sorted| && RenamedUpTo(sorted, i, naming, instances)
      {
        ghost var before, records := naming, instances;
        naming := NameInstance(i, naming);
        RenamedOn(sorted, i, before, records, naming, instances);
      }
      RenamedEnd(sorted, naming, instances);
    }

    /** Names the switches of one record, from the block up. */
    method NameInstance(i: nat, naming: Naming) returns (more: Naming)
      requires i < |instances|
      modifies this
      ensures var r := old(instances)[i];
              var a := NameStep(naming, (1, r.blockID));
              var b := NameStep(a, (2, r.spineID));
              && more == NameStep(b, (3, r.datacenterID))
              && instances == old(instances)[i := r.(blockName := NameFor(a.switches, r.blockID),
                                                     spineName := NameFor(b.switches, r.spineID),
                                                     datacenterName := NameFor(more.switches, r.datacenterID))]
    {
      hide NameStep, NameFor;
      var inst := instances[i];
      var name: string;
      name, more := NextName(naming, 1, inst.blockID);
      instances := instances[i := instances[i].(blockName := name)];
      name, more := NextName(more, 2, inst.spineID);
      instances := instances[i := instances[i].(spineName := name)];
      name, more := NextName(more, 3, inst.datacenterID);
      instances := instances[i := instances[i].(datacenterName := name)];
    }

    /** The tree of the requested instances, and the blocks of their accelerator domains if there are any. */
    method ToThreeTierGraph(cis: seq<map<string, string>>, normalize: bool)
      returns (tree: Cell, blocks: Option<Vertex>, ghost place: Cell?, ghost hosts: map<string, Cell>, ghost switches: map<string, Cell>)
      modifies this
      ensures instances == Effective(old(instances), normalize)
      ensures var g := GraphOf(old(instances), cis, normalize);
              && Assembled(g, tree, place, hosts, switches)
              && (IdsFree(g) ==> StandsForLinks(g, tree, AllCells(tree, place, hosts, switches)))
              && blocks == (if Domains.DomainsOf(g.used, g.names) == map[] then None
                            else Some(Domains.BlocksOf(Domains.DomainsOf(g.used, g.names))))
      ensures fresh(tree) && (forall x :: x in hosts ==> fresh(hosts[x])) && forall id :: id in switches ==> fresh(switches[id])
    {
      hide IdsFree, Normalized, Built, ForestOf, Rest, Assembled, StandsForLinks, Domains.DomainsOf, Domains.BlocksOf, Domains.AreBlocksOf, Used;
      ghost var g := GraphOf(instances, cis, normalize);
      var i2n := CopyNames(cis);
      if normalize { Normalize(); }
      var forest, rest, domainMap;
      ghost var objects;
      forest, rest, domainMap, objects, switches := PlaceRecords(instances, i2n);
      tree, place, hosts := AddRoot(g, forest, rest, objects, switches);
      if IdsFree(g) { ObjectsStand(g, tree, place, hosts, switches); }
      blocks := None;
      if |domainMap.domains| != 0 {
        var blockRoot := domainMap.ToBlocks();
        blocks := Some(blockRoot);
      }
    }
  }

  /** The first `i` records carry their names, the others are as they were. */
  ghost predicate RenamedUpTo(sorted: seq<Record>, i: nat, naming: Naming, records: seq<Record>) {
    && i <= |sorted| && naming == NamingOf(StepsOf(sorted[..i]))
    && records == RenamedAll(sorted[..i], naming.switches) + sorted[i..]
  }

  lemma RenamedStart(sorted: seq<Record>)
    ensures RenamedUpTo(sorted, 0, Naming(map[], map[1 := 0, 2 := 0, 3 := 0]), sorted)
  {}

  lemma RenamedEnd(sorted: seq<Record>, naming: Naming, records: seq<Record>)
    requires RenamedUpTo(sorted, |sorted|, naming, records)
    ensures records == RenamedAll(sorted, NamingOf(StepsOf(sorted)).switches)
  {
    assert sorted[..|sorted|] == sorted;
  }

  lemma RenamedOn(sorted: seq<Record>, i: nat, naming: Naming, records: seq<Record>, more: Naming, renamed: seq<Record>)
    requires i < |sorted| && |records| == |sorted| && RenamedUpTo(sorted, i, naming, records)
    requires var r := records[i];
             var a := NameStep(naming, (1, r.blockID));
             var b := NameStep(a, (2, r.spineID));
             && more == NameStep(b, (3, r.datacenterID))
             && renamed == records[i := r.(blockName := NameFor(a.switches, r.blockID), spineName := NameFor(b.switches, r.spineID),
                                           datacenterName := NameFor(more.switches, r.datacenterID))]
    ensures RenamedUpTo(sorted, i + 1, more, renamed)
  {
    hide NameStep, NameFor, NamingOf, StepsOf;
    RenameStep(sorted, i);
    assert records[i] == sorted[i];
    var front := RenamedAll(sorted[..i], naming.switches);
    assert sorted[i..] == [sorted[i]] + sorted[i + 1..];
    assert renamed == front + [renamed[i]] + sorted[i + 1..];
  }

  lemma RenameStep(sorted: seq<Record>, i: nat)
    requires i < |sorted|
    ensures var r := sorted[i];
            var before := NamingOf(StepsOf(sorted[..i]));
            var a := NameStep(before, (1, r.blockID));
            var b := NameStep(a, (2, r.spineID));
            var c := NameStep(b, (3, r.datacenterID));
            && NamingOf(StepsOf(sorted[..i + 1])) == c
            && RenamedAll(sorted[..i + 1], c.switches) == RenamedAll(sorted[..i], before.switches)
               + [r.(blockName := NameFor(a.switches, r.blockID), spineName := NameFor(b.switches, r.spineID),
                     datacenterName := NameFor(c.switches, r.datacenterID))]
  {
    hide NameStep;
    var r := sorted[i];
    var front := sorted[..i];
    assert sorted[..i + 1] == front + [r];
    NamingRecord(front, r);
    EveryoneNamed(front);
    var before := NamingOf(StepsOf(front));
    var a := NameStep(before, (1, r.blockID));
    var b := NameStep(a, (2, r.spineID));
    var c := NameStep(b, (3, r.datacenterID));
    StepExtends(before, (1, r.blockID));
    StepExtends(a, (2, r.spineID));
    StepExtends(b, (3, r.datacenterID));
    RenamedStays(front, before.switches, c.switches);
  }

  /** What is built is fit for the translation: a tree with different node names, and blocks without common nodes. */
  lemma ReadyToTranslate(g: Graph, records: seq<Record>)
    requires WellFormed(g) && g.used == Used(records, g.names.Keys)
    ensures IsTree(TreeOf(g)) && NamesDiffer(TreeOf(g)) && TreeOf(g).id == ""
    ensures BlocksSpec.BlocksOk(Domains.BlocksOf(Domains.DomainsOf(g.used, g.names)))
  {
    hide TiersApart, IsTree, NamesDiffer, At, Domains.BlocksOf, Domains.DomainsOf, BlocksSpec.BlocksOk;
    GraphIsTree(g);
    GraphNames(g);
    RootPlaced(g);
    Domains.RecordsOneDomain(g.used, g.names);
    Domains.BlocksFit(Domains.DomainsOf(g.used, g.names));
  }
}
