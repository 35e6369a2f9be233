/** The switches emitted for a partition, and where its nodes appear: `pkg/translate/yaml.go`. */
module PartitionUnit {
  import opened Arrivals
  import opened BlocksSpec
  import opened ClusetSpec
  import opened Loading
  import opened Ordering
  import opened PartitionSpec
  import opened Printing
  import opened Topology
  import opened TranslateSpec
  import opened TreeOutput
  import opened Trees
  import opened WalkOrder

  datatype SwitchOut = SwitchOut(name: string, children: string, nodes: string)

  /** Either the requested nodes are all known, or the first unknown one is reported. */
  datatype TreeUnit = MissingNode(name: string) | Switches(switches: seq<SwitchOut>)

  /** Every compute node of the tree is known by its name, under its instance ID. */
  ghost predicate InstancesKnown(t: Vertex, nodeInfo: map<string, NodeInfo>) {
    && (forall v :: v in Subs(t) && IsNode(v) ==> v.name in nodeInfo && nodeInfo[v.name].instanceID == v.id)
    && (forall n :: n in nodeInfo ==> exists v :: v in Subs(t) && IsNode(v) && v.name == n)
  }

  /** Whatever is known is known by the name and the ID of a compute node. */
  ghost predicate InstancesFrom(t: Vertex, nodeInfo: map<string, NodeInfo>) {
    forall n :: n in nodeInfo ==> exists v :: v in Subs(t) && IsNode(v) && v.name == n && v.id == nodeInfo[n].instanceID
  }

  /** Recording the blocks changes no instance ID. */
  lemma KnownAfterBlocks(t: Vertex, blockMap: map<string, Vertex>, home: map<string, string>, order: seq<string>,
                         base: map<string, NodeInfo>, nodeInfo: map<string, NodeInfo>)
    requires NodesKnown(t, base) && (nodeInfo == base || NodesIndexed(blockMap, home, order, nodeInfo, base))
    ensures InstancesFrom(t, nodeInfo) && (NamesDiffer(t) ==> InstancesKnown(t, nodeInfo))
  {
    hide Subs, IsNode, NodesIndexed;
    IdsStay(blockMap, home, order, base, nodeInfo);
    forall n | n in nodeInfo ensures exists v :: v in Subs(t) && IsNode(v) && v.name == n && v.id == nodeInfo[n].instanceID {
      var v :| v in Subs(t) && InfoFrom(v, n, base[n]);
    }
    if NamesDiffer(t) { LoadedNames(t, base); }
  }

  lemma IdsStay(blockMap: map<string, Vertex>, home: map<string, string>, order: seq<string>,
                base: map<string, NodeInfo>, nodeInfo: map<string, NodeInfo>)
    requires nodeInfo == base || NodesIndexed(blockMap, home, order, nodeInfo, base)
    ensures nodeInfo.Keys == base.Keys && forall n :: n in base ==> nodeInfo[n].instanceID == base[n].instanceID
  {
    hide IndexIn;
  }

  ghost predicate FirstMissing(names: seq<string>, nodeInfo: map<string, NodeInfo>, name: string) {
    exists i :: 0 <= i < |names| && names[i] == name && name !in nodeInfo && forall j :: 0 <= j < i ==> names[j] in nodeInfo
  }

  /** The IDs of the requested compute nodes. */
  ghost function LeavesOf(t: Vertex, names: set<string>): set<string> {
    set v | v in Subs(t) && IsNode(v) && v.name in names :: v.id
  }

  /** The instance IDs that the requested names are looked up to. */
  ghost function LeafIds(nodeInfo: map<string, NodeInfo>, names: set<string>): set<string> {
    set n | n in names && n in nodeInfo :: nodeInfo[n].instanceID
  }

  /** Every ID looked for is that of a compute node with a requested name. */
  ghost predicate LeavesNamed(t: Vertex, leaves: set<string>, names: set<string>) {
    forall x :: x in leaves ==> exists w :: w in Subs(t) && IsNode(w) && w.id == x && w.name in names
  }

  lemma LeavesLookedUp(t: Vertex, nodeInfo: map<string, NodeInfo>, names: set<string>)
    requires InstancesFrom(t, nodeInfo)
    ensures LeavesNamed(t, LeafIds(nodeInfo, names), names)
  {
    hide Subs, IsNode;
    forall x | x in LeafIds(nodeInfo, names) ensures exists w :: w in Subs(t) && IsNode(w) && w.id == x && w.name in names {
      var n :| n in names && n in nodeInfo && nodeInfo[n].instanceID == x;
      var v :| v in Subs(t) && IsNode(v) && v.name == n && v.id == nodeInfo[n].instanceID;
    }
  }

  /** If names are different, the IDs are those of all requested compute nodes. */
  lemma LeavesFound(t: Vertex, nodeInfo: map<string, NodeInfo>, names: set<string>)
    requires InstancesKnown(t, nodeInfo) && NamesDiffer(t) && forall n :: n in names ==> n in nodeInfo
    ensures LeafIds(nodeInfo, names) == LeavesOf(t, names)
  {
    hide Subs, IsNode;
    forall x | x in LeafIds(nodeInfo, names) ensures x in LeavesOf(t, names) {
      var n :| n in names && n in nodeInfo && nodeInfo[n].instanceID == x;
      var v :| v in Subs(t) && IsNode(v) && v.name == n;
    }
  }

  lemma RequestedLeaves(t: Vertex, names: set<string>)
    ensures LeavesNamed(t, LeavesOf(t, names), names)
  {
    hide Subs, IsNode;
  }

  /** A compute node leads to a requested one exactly if it is requested itself; a switch is no requested leaf. */
  lemma LeafKept(t: Vertex, names: set<string>, w: Vertex)
    requires WellFiled(t) && NamesDiffer(t) && w in Subs(t)
    ensures w.id in LeavesOf(t, names) <==> IsNode(w) && w.name in names
    ensures IsNode(w) ==> (Keeps(w, LeavesOf(t, names)) <==> w.name in names)
  {
    KeepsStep(w, LeavesOf(t, names));
    hide Subs, Keeps;
  }

  /** The IDs of the kept sub-switches among the children, in the given order. */
  ghost function KeptIds(kids: seq<Vertex>, leaves: set<string>): seq<string> {
    if kids == [] then []
    else
      var w := kids[|kids| - 1];
      KeptIds(kids[..|kids| - 1], leaves) + if !IsNode(w) && Keeps(w, leaves) then [w.id] else []
  }

  /** What is emitted for `v`, with the children visited in the given order. */
  ghost predicate Describes(s: SwitchOut, v: Vertex, kids: seq<Vertex>, names: set<string>, leaves: set<string>) {
    && s.name == v.id
    && s.children == OneLine(KeptIds(kids, leaves))
    && s.nodes == OneLine(Among(NodesIn(kids), names))
  }

  ghost predicate SwitchFor(s: SwitchOut, v: Vertex, names: set<string>, leaves: set<string>) {
    exists kids :: ChildListing(v, kids) && Describes(s, v, kids, names, leaves)
  }

  /** Exactly the switches above requested nodes are emitted, each once, and none before a switch it is below;
      the nameless root is not. */
  ghost predicate Emitted(t: Vertex, names: set<string>, out: seq<SwitchOut>) {
    var leaves := LeavesOf(t, names);
    && OncePerName(out) && TopFirst(t, out)
    && (forall s :: s in out ==> ForKept(t, names, leaves, s))
    && (forall v :: EmittedFor(t, leaves, v) ==> exists s :: s in out && s.name == v.id)
  }

  ghost predicate ForKept(t: Vertex, names: set<string>, leaves: set<string>, s: SwitchOut) {
    exists v :: EmittedFor(t, leaves, v) && SwitchFor(s, v, names, leaves)
  }

  ghost predicate TopFirst(t: Vertex, out: seq<SwitchOut>) {
    forall j :: 0 <= j < |out| ==> BelowRootOr(t, out[..j], out[j].name)
  }

  /** The named vertex is a child of the root or of a switch in the list. */
  ghost predicate BelowRootOr(t: Vertex, front: seq<SwitchOut>, name: string) {
    name in t.vertices || exists s, v :: s in front && v in Subs(t) && v.id == s.name && name in v.vertices
  }

  ghost predicate EmittedFor(t: Vertex, leaves: set<string>, v: Vertex) {
    v in Subs(t) && !IsNode(v) && v.id != "" && Keeps(v, leaves)
  }

  ghost predicate OncePerName(out: seq<SwitchOut>) {
    forall i, j :: 0 <= i < j < |out| ==> out[i].name != out[j].name
  }

  // ---------- the traversal of the pruned graph ----------

  ghost predicate Writes(u: Vertex) {
    u.id != "" && u.vertices != map[]
  }

  /** What is emitted when `u` is visited. */
  ghost predicate ChunkOf(t: Vertex, names: set<string>, leaves: set<string>, u: Vertex, chunk: seq<SwitchOut>) {
    if Writes(u) then |chunk| == 1 && chunk[0].name == u.id && DescribesKept(t, names, leaves, u, chunk[0]) else chunk == []
  }

  ghost predicate DescribesKept(t: Vertex, names: set<string>, leaves: set<string>, u: Vertex, s: SwitchOut) {
    exists v :: v in Subs(t) && v.id == u.id && u == Prune(v, leaves) && SwitchFor(s, v, names, leaves)
  }

  ghost predicate ChunksOf(t: Vertex, names: set<string>, leaves: set<string>, order: seq<Vertex>, chunks: seq<seq<SwitchOut>>) {
    && |order| == |chunks|
    && forall i :: 0 <= i < |order| ==> ChunkOf(t, names, leaves, order[i], chunks[i])
  }

  /** The kept vertices visited so far, each after a parent, have been written. */
  ghost predicate EmittedAlong(t: Vertex, names: set<string>, leaves: set<string>, order: seq<Vertex>, out: seq<SwitchOut>) {
    ParentsFirst(Prune(t, leaves), order) && exists chunks :: ChunksOf(t, names, leaves, order, chunks) && out == Flatten(chunks)
  }

  /** How often a kept vertex is visited. */
  ghost function KeptVisits(t: Vertex, leaves: set<string>, u: Vertex): nat {
    Visits(Listings(t), Prune(t, leaves), {u})
  }

  /** The switches are emitted along a walk that visits every kept vertex as often as the loaded lists say. */
  ghost predicate GraphEmitted(t: Vertex, names: set<string>, leaves: set<string>, out: seq<SwitchOut>) {
    exists order :: (forall u :: multiset(order)[u] == KeptVisits(t, leaves, u)) && EmittedAlong(t, names, leaves, order, out) && InTurn(order, [])
  }

  lemma EmitStart(t: Vertex, names: set<string>, leaves: set<string>)
    ensures EmittedAlong(t, names, leaves, [], []) && Waits(Prune(t, leaves), [], [Prune(t, leaves)])
    ensures Accounted(Listings(t), Prune(t, leaves), [], [Prune(t, leaves)]) && Prune(t, leaves).id == t.id
  {
    hide Keeps, Visits, Listings;
    assert ChunksOf(t, names, leaves, [], []) && Flatten<SwitchOut>([]) == [];
    AccountStart(Listings(t), Prune(t, leaves));
  }

  lemma EmitFront(t: Vertex, names: set<string>, leaves: set<string>, order: seq<Vertex>, out: seq<SwitchOut>, u: Vertex, chunk: seq<SwitchOut>)
    requires EmittedAlong(t, names, leaves, order, out) && ChunkOf(t, names, leaves, u, chunk)
    requires if order == [] then u == Prune(t, leaves) else HasParentIn(order, u)
    ensures EmittedAlong(t, names, leaves, order + [u], out + chunk)
  {
    hide ChunkOf, HasParentIn, Prune;
    var more := order + [u];
    forall i | 0 <= i < |more| ensures if i == 0 then more[i] == Prune(t, leaves) else HasParentIn(more[..i], more[i]) {
      if i < |order| { assert more[..i] == order[..i] && more[i] == order[i]; } else { assert more[..i] == order; }
    }
    var chunks :| ChunksOf(t, names, leaves, order, chunks) && out == Flatten(chunks);
    assert (chunks + [chunk])[..|chunks|] == chunks;
    assert ChunksOf(t, names, leaves, more, chunks + [chunk]);
  }

  /** What was written for the vertex behind the front. */
  lemma ChunkWritten(t: Vertex, names: set<string>, leaves: set<string>, v: Vertex, u: Vertex, more: seq<SwitchOut>)
    requires v in Subs(t) && v.id == u.id && u == Prune(v, leaves)
    requires if u.id != "" && u.vertices != map[] then |more| == 1 && more[0].name == v.id && SwitchFor(more[0], v, names, leaves) else more == []
    ensures ChunkOf(t, names, leaves, u, more)
  {
    hide Subs, Prune, SwitchFor;
  }

  lemma EmitEnd(t: Vertex, names: set<string>, leaves: set<string>, order: seq<Vertex>, out: seq<SwitchOut>)
    requires Accounted(Listings(t), Prune(t, leaves), order, []) && EmittedAlong(t, names, leaves, order, out) && InTurn(order, [])
    ensures GraphEmitted(t, names, leaves, out)
  {
    hide InTurn, Visits, Listings, EmittedAlong, Prune;
    ListingsPositive(t);
    AccountEnd(Listings(t), Prune(t, leaves), order);
  }

  // ---------- the vertex at the front of the queue ----------

  lemma FrontVertex(t: Vertex, tree: map<string, seq<string>>, vertices: map<string, Vertex>, leaves: set<string>, u: Vertex)
    requires WellFiled(t) && GraphLoaded(t, tree, vertices) && u in Subs(Prune(t, leaves))
    ensures u.id in vertices && vertices[u.id].id == u.id && Stays(t, vertices[u.id], leaves) && u == Prune(vertices[u.id], leaves)
    ensures Factor(Listings(t), u) == Paths(t, vertices[u.id])
  {
    hide Subs, Keeps, Prune, GraphLoaded, WellFiled, Listings, Visits;
    var w := PruneComes(t, leaves, u);
    PruneChild(w, leaves, "");
    SubsSelf(t);
    LoadedList(t, tree, vertices, w);
    ListingsAre(t, w);
    SameFactor(Listings(t), u, w);
  }

  lemma SameFactor(m: map<string, nat>, u: Vertex, w: Vertex)
    requires u.id == w.id
    ensures Factor(m, u) == Factor(m, w)
  {}

  /** The list of the vertex at the front: exactly its kept children, as often as there are paths to it. */
  lemma FrontFacts(t: Vertex, tree: map<string, seq<string>>, vertices: map<string, Vertex>, leaves: set<string>,
                   sub: map<string, seq<string>>, u: Vertex)
    requires WellFiled(t) && GraphLoaded(t, tree, vertices) && u in Subs(Prune(t, leaves))
    requires Filtered(tree, Required(t, leaves), sub)
    ensures u.id !in sub ==> u.vertices == map[]
    ensures u.id in sub ==> Repeats(sub[u.id], u.vertices.Keys, Factor(Listings(t), u)) && u.vertices != map[]
                            && Elements(sub[u.id]) == u.vertices.Keys && SortedBy(sub[u.id], LeqStrings)
    ensures u.id in vertices && vertices[u.id] in Subs(t) && vertices[u.id].id == u.id && u == Prune(vertices[u.id], leaves)
  {
    hide Subs, Keeps, Prune, WellFiled, GraphLoaded, Filtered, Listings, Visits, Repeats, Factor, SortedBy;
    FrontVertex(t, tree, vertices, leaves, u);
    SubsSelf(t);
    var n := Paths(t, vertices[u.id]);
    FilteredLists(t, tree, vertices, leaves, sub, vertices[u.id]);
    if u.id in sub {
      RepeatedKeys(sub[u.id], u.vertices.Keys, n);
      FilteredSorted(t, tree, vertices, leaves, sub, u.id);
    }
  }

  lemma FilteredSorted(t: Vertex, tree: map<string, seq<string>>, vertices: map<string, Vertex>, leaves: set<string>,
                       sub: map<string, seq<string>>, id: string)
    requires GraphLoaded(t, tree, vertices) && Filtered(tree, Required(t, leaves), sub) && id in sub
    ensures SortedBy(sub[id], LeqStrings)
  {
    hide Subs, Repeats, Visits, SortedBy, Among, Required;
    assert ListedAt(t, tree[id], vertices[id], id);
    AmongSorted(tree[id], Required(t, leaves));
  }

  /** Choosing from a sorted list leaves it sorted. */
  lemma {:induction false} AmongSorted(list: seq<string>, chosen: set<string>)
    requires SortedBy(list, LeqStrings)
    ensures SortedBy(Among(list, chosen), LeqStrings) && forall x :: x in Among(list, chosen) ==> x in list
  {
    hide LeqStrings;
    if list != [] {
      var front, last := list[..|list| - 1], list[|list| - 1];
      assert list == front + [last];
      AmongSorted(front, chosen);
      var a := Among(front, chosen);
      forall i | 0 <= i < |a| ensures LeqStrings(a[i], last) {
        assert a[i] in front;
        var j :| 0 <= j < |front| && front[j] == a[i];
        assert LeqStrings(list[j], list[|list| - 1]);
      }
    }
  }

  lemma RepeatedKeys(s: seq<string>, keys: set<string>, n: nat)
    requires Repeats(s, keys, n) && n > 0
    ensures Elements(s) == keys
  {
    forall k ensures k in s <==> k in keys { assert k in s <==> multiset(s)[k] > 0; }
  }

  /** The children behind the list. */
  lemma KeptFiled(p: Vertex, u: Vertex, list: seq<string>, n: nat) returns (kids: seq<Vertex>)
    requires WellFiled(p) && u in Subs(p) && Repeats(list, u.vertices.Keys, n) && SortedBy(list, LeqStrings)
    ensures KidsTimes(u, kids, n) && Ascending(kids) && forall w :: w in kids ==> w.id in u.vertices
    ensures |kids| == |list| && forall i :: 0 <= i < |kids| ==> kids[i].id == list[i]
  {
    hide WellFiled, Subs, SortedBy, Ascending;
    FiledKids(p, u);
    forall k | k in list ensures k in u.vertices { assert multiset(list)[k] > 0; }
    assert forall i :: 0 <= i < |list| ==> list[i] in list;
    kids := ChildrenAt(u, list);
    forall w ensures multiset(kids)[w] == if w.id in u.vertices && u.vertices[w.id] == w then n else 0 { FiledCount(u, list, w); }
    KidsAscend(list, kids);
  }

  lemma NoKids(u: Vertex, n: nat)
    requires u.vertices == map[]
    ensures KidsTimes(u, [], n)
  {}

  lemma ConnectsAre(v: Vertex, kids: seq<Vertex>, connects: set<string>, leaves: set<string>)
    requires ChildListing(v, kids) && connects == Prune(v, leaves).vertices.Keys
    ensures forall w :: w in kids ==> (w.id in connects <==> Keeps(w, leaves))
  {
    hide Keeps, DistinctIds, Prune;
    forall w | w in kids ensures w.id in connects <==> Keeps(w, leaves) { PruneChild(v, leaves, w.id); }
  }

  lemma NothingChosen(leaves: set<string>, names: set<string>)
    ensures KeptIds([], leaves) == [] && Among(NodesIn([]), names) == []
  {}

  lemma KeptIdsSnoc(front: seq<Vertex>, w: Vertex, leaves: set<string>)
    ensures KeptIds(front + [w], leaves) == KeptIds(front, leaves) + if !IsNode(w) && Keeps(w, leaves) then [w.id] else []
  {
    hide Keeps;
    assert (front + [w])[..|front|] == front;
  }

  lemma ChosenSnoc(front: seq<Vertex>, w: Vertex, names: set<string>)
    ensures Among(NodesIn(front + [w]), names) == Among(NodesIn(front), names) + if IsNode(w) && w.name in names then [w.name] else []
  {
    assert (front + [w])[..|front|] == front;
    EntriesSnoc(front, w, NodeList);
    var nodes := NodesIn(front);
    assert (nodes + [w.name])[..|nodes|] == nodes;
    assert nodes + [] == nodes;
  }

  lemma NothingPrinted()
    ensures OneLine([]) == ""
  {
    assert Groups([]) == map[];
    assert SortedKeys(Groups([]).Keys) == [];
  }

  /** A kept compute node was requested. */
  lemma KeptNodeNamed(t: Vertex, leaves: set<string>, names: set<string>, w: Vertex)
    requires WellFiled(t) && LeavesNamed(t, leaves, names) && w in Subs(t)
    ensures w.id in leaves ==> IsNode(w) && w.name in names
    ensures IsNode(w) && Keeps(w, leaves) ==> w.name in names
  {
    KeepsStep(w, leaves);
    hide Subs, Keeps;
  }

  /** Something is listed for every switch with a kept child. */
  lemma SomethingListed(t: Vertex, names: set<string>, leaves: set<string>, v: Vertex, kids: seq<Vertex>)
    requires WellFiled(t) && LeavesNamed(t, leaves, names) && v in Subs(t) && ChildListing(v, kids)
    requires Prune(v, leaves).vertices != map[]
    ensures KeptIds(kids, leaves) != [] || Among(NodesIn(kids), names) != []
  {
    hide Subs, Keeps, Prune, IsNode, DistinctIds, LeavesNamed;
    var k :| k in Prune(v, leaves).vertices;
    PruneChild(v, leaves, k);
    var w := v.vertices[k];
    SubsChild(t, v, k);
    KeptNodeNamed(t, leaves, names, w);
    assert w in kids;
    if IsNode(w) {
      EntriesInAre(kids, NodeList);
      AmongAre(NodesIn(kids), names);
      assert w.name in Among(NodesIn(kids), names);
    } else {
      KeptIdsAre(kids, leaves);
      assert w.id in KeptIds(kids, leaves);
    }
  }

  lemma {:induction false} KeptIdsAre(kids: seq<Vertex>, leaves: set<string>)
    ensures forall x :: x in KeptIds(kids, leaves) <==> exists w :: w in kids && !IsNode(w) && Keeps(w, leaves) && w.id == x
  {
    hide IsNode, Keeps;
    if kids != [] {
      var front, last := kids[..|kids| - 1], kids[|kids| - 1];
      assert kids == front + [last];
      KeptIdsAre(front, leaves);
    }
  }

  lemma KeptSwitchWrites(t: Vertex, names: set<string>, leaves: set<string>, v: Vertex)
    requires WellFiled(t) && LeavesNamed(t, leaves, names) && EmittedFor(t, leaves, v)
    ensures Writes(Prune(v, leaves))
  {
    hide Subs, Keeps, Prune, LeavesNamed;
    KeptNodeNamed(t, leaves, names, v);
    KeepsStep(v, leaves);
    var k :| k in v.vertices && Keeps(v.vertices[k], leaves);
    PruneChild(v, leaves, k);
  }

  // ---------- how often a switch is emitted ----------

  ghost function TimesEmitted(out: seq<SwitchOut>, name: string): nat {
    if out == [] then 0 else TimesEmitted(out[..|out| - 1], name) + if out[|out| - 1].name == name then 1 else 0
  }

  lemma {:induction false} TimesConcat(a: seq<SwitchOut>, b: seq<SwitchOut>, name: string)
    ensures TimesEmitted(a + b, name) == TimesEmitted(a, name) + TimesEmitted(b, name)
  {
    if b == [] {
      assert a + b == a;
    } else {
      assert (a + b)[..|a + b| - 1] == a + b[..|b| - 1];
      TimesConcat(a, b[..|b| - 1], name);
    }
  }

  lemma TimesOne(chunk: seq<SwitchOut>, name: string)
    requires |chunk| == 1
    ensures TimesEmitted(chunk, name) == if chunk[0].name == name then 1 else 0
  {
    assert chunk[..0] == [];
  }

  lemma {:induction false} TimesAlong(t: Vertex, names: set<string>, leaves: set<string>, order: seq<Vertex>,
                                      chunks: seq<seq<SwitchOut>>, u: Vertex)
    requires ChunksOf(t, names, leaves, order, chunks) && Writes(u)
    requires forall w :: w in order && w.id == u.id ==> w == u
    ensures TimesEmitted(Flatten(chunks), u.id) == multiset(order)[u]
  {
    hide DescribesKept, Writes;
    if order != [] {
      var k := |order| - 1;
      var front, w := order[..k], order[k];
      assert order == front + [w];
      TimesAlong(t, names, leaves, front, chunks[..k], u);
      TimesConcat(Flatten(chunks[..k]), chunks[k], u.id);
      assert w in order;
      if Writes(w) { TimesOne(chunks[k], u.id); }
    }
  }

  /** A switch is emitted once for every visit. */
  lemma EmittedTimes(t: Vertex, names: set<string>, leaves: set<string>, out: seq<SwitchOut>, v: Vertex)
    requires WellFiled(t) && LeavesNamed(t, leaves, names) && GraphEmitted(t, names, leaves, out) && EmittedFor(t, leaves, v)
    ensures TimesEmitted(out, v.id) == KeptVisits(t, leaves, Prune(v, leaves))
  {
    hide Subs, Keeps, Prune, LeavesNamed, WellFiled, ParentsFirst, ChunksOf, Visits, Listings, Writes;
    var u, p := Prune(v, leaves), Prune(t, leaves);
    var order :| (forall w :: multiset(order)[w] == KeptVisits(t, leaves, w)) && EmittedAlong(t, names, leaves, order, out);
    var chunks :| ChunksOf(t, names, leaves, order, chunks) && out == Flatten(chunks);
    KeptSwitchWrites(t, names, leaves, v);
    PruneHas(t, leaves, v);
    PruneChild(v, leaves, "");
    PruneWellFiled(t, leaves);
    VisitedKept(t, leaves, order);
    SameIdSame(p, u);
    TimesAlong(t, names, leaves, order, chunks, u);
  }

  lemma VisitedKept(t: Vertex, leaves: set<string>, order: seq<Vertex>)
    requires forall u :: multiset(order)[u] == KeptVisits(t, leaves, u)
    ensures forall u :: u in order <==> u in Subs(Prune(t, leaves))
  {
    hide Subs, Prune, Visits, Listings;
    ListingsPositive(t);
    forall u ensures u in order <==> u in Subs(Prune(t, leaves)) {
      assert u in order <==> multiset(order)[u] > 0;
      VisitedAreBelow(Listings(t), Prune(t, leaves), u);
    }
  }

  lemma SameIdSame(p: Vertex, u: Vertex)
    requires WellFiled(p) && u in Subs(p)
    ensures forall w :: w in Subs(p) && w.id == u.id ==> w == u
  {
    hide Subs;
  }

  /** No emitted switch has two parents. */
  ghost predicate SwitchesOneParent(t: Vertex, leaves: set<string>) {
    forall c, v, w :: EmittedFor(t, leaves, c) && v in Subs(t) && w in Subs(t) && c.id in v.vertices && c.id in w.vertices ==> v == w
  }

  /** A kept switch below another is below a child that is a kept switch. */
  lemma SwitchOnTheWay(t: Vertex, leaves: set<string>, u: Vertex, x: Vertex) returns (k: string)
    requires WellFiled(t) && t.id == "" && u in Subs(t) && EmittedFor(t, leaves, x) && x in Subs(u) && x != u
    ensures k in u.vertices && u.vertices[k].id == k && x in Subs(u.vertices[k])
    ensures u.vertices[k] in Subs(t) && EmittedFor(t, leaves, u.vertices[k])
  {
    hide Keeps, WellFiled;
    k :| k in u.vertices && x in Subs(u.vertices[k]);
    var w := u.vertices[k];
    FiledChild(t, u, k);
    KeepsAbove(w, x, leaves);
    RootIsNoChild(t, u, k);
    HasBelow(w, x);
  }

  lemma RootIsNoChild(t: Vertex, u: Vertex, k: string)
    requires WellFiled(t) && u in Subs(t) && k in u.vertices
    ensures u.vertices[k].id != t.id
  {
    hide Subs;
    FiledChild(t, u, k);
    SubsSelf(t);
    NotBelowItself(u, k);
  }

  lemma HasBelow(w: Vertex, x: Vertex)
    requires x in Subs(w) && !IsNode(x)
    ensures !IsNode(w)
  {}

  lemma OnlyKeptParent(t: Vertex, leaves: set<string>, u: Vertex, k: string)
    requires WellFiled(t) && SwitchesOneParent(t, leaves) && u in Subs(t) && k in u.vertices && EmittedFor(t, leaves, u.vertices[k])
    ensures OnlyParentIs(t, u, u.vertices[k]) && OnlyParentIs(Prune(t, leaves), Prune(u, leaves), Prune(u.vertices[k], leaves))
  {
    hide Subs, Keeps, Prune;
    var w := u.vertices[k];
    FiledChild(t, u, k);
    forall a | a in Subs(Prune(t, leaves)) && Prune(w, leaves).id in a.vertices && a.vertices[Prune(w, leaves).id] == Prune(w, leaves)
      ensures a == Prune(u, leaves)
    {
      PruneChild(w, leaves, "");
      var v := PruneComes(t, leaves, a);
      PruneChild(v, leaves, w.id);
    }
  }

  /** With one parent each, switches are loaded once and visited once, all the way down. */
  lemma {:induction false} OneWayDown(t: Vertex, leaves: set<string>, u: Vertex, x: Vertex)
    requires WellFiled(t) && t.id == "" && SwitchesOneParent(t, leaves) && u in Subs(t) && EmittedFor(t, leaves, x) && x in Subs(u)
    requires Paths(t, u) <= 1 && KeptVisits(t, leaves, Prune(u, leaves)) <= 1
    ensures KeptVisits(t, leaves, Prune(x, leaves)) <= 1
    decreases u
  {
    hide Subs, Keeps, Prune, Visits, Listings, WellFiled, SwitchesOneParent, OnlyParentIs, EmittedFor, Factor;
    if x != u {
      var k := SwitchOnTheWay(t, leaves, u, x);
      var w, m, p := u.vertices[k], Listings(t), Prune(t, leaves);
      OnlyKeptParent(t, leaves, u, k);
      PruneWellFiled(t, leaves);
      NotTheRoot(t, leaves, w);
      SubsSelf(t);
      SubsSelf(p);
      VisitsByOnlyParent(map[], t, t, u, w);
      VisitsByOnlyParent(m, p, p, Prune(u, leaves), Prune(w, leaves));
      ListingsAre(t, u);
      PruneChild(u, leaves, "");
      SameFactor(m, u, Prune(u, leaves));
      NoFactor(u);
      SmallProduct(Factor(m, Prune(u, leaves)), Visits(m, p, {Prune(u, leaves)}));
      SmallProduct(Factor(map[], u), Visits(map[], t, {u}));
      OneWayDown(t, leaves, w, x);
    }
  }

  lemma NoFactor(u: Vertex)
    ensures Factor(map[], u) == 1
  {}

  lemma NotTheRoot(t: Vertex, leaves: set<string>, w: Vertex)
    requires t.id == "" && EmittedFor(t, leaves, w)
    ensures t != w && Prune(t, leaves) != Prune(w, leaves) && w.id != ""
  {
    hide Keeps, Prune;
    PruneChild(t, leaves, "");
    PruneChild(w, leaves, "");
  }

  lemma TwoParentsEmitted(t: Vertex, leaves: set<string>, c: Vertex, v: Vertex, w: Vertex)
    requires WellFiled(t) && EmittedFor(t, leaves, c) && v in Subs(t) && w in Subs(t) && v != w && c.id in v.vertices && c.id in w.vertices
    ensures KeptVisits(t, leaves, Prune(c, leaves)) >= 2
  {
    hide Subs, Keeps, Prune, Visits, Listings;
    var p := Prune(t, leaves);
    forall q | q in {v, w} ensures Prune(q, leaves) in Subs(p) && Prune(q, leaves).id == q.id && c.id in Prune(q, leaves).vertices
                                   && Prune(q, leaves).vertices[c.id] == Prune(c, leaves)
    {
      FiledChild(t, q, c.id);
      KeepsChild(q, c.id, leaves);
      PruneHas(t, leaves, q);
      PruneChild(q, leaves, c.id);
    }
    PruneChild(c, leaves, "");
    ListingsPositive(t);
    TwoParentsTwoVisits(Listings(t), p, Prune(v, leaves), Prune(w, leaves), Prune(c, leaves));
  }

  /** Every switch above a requested node is emitted once if and only if none of them has two parents. */
  lemma SwitchesEmittedOnce(t: Vertex, names: set<string>, leaves: set<string>, out: seq<SwitchOut>)
    requires WellFiled(t) && t.id == "" && LeavesNamed(t, leaves, names) && GraphEmitted(t, names, leaves, out)
    ensures (forall v :: EmittedFor(t, leaves, v) ==> TimesEmitted(out, v.id) == 1) <==> SwitchesOneParent(t, leaves)
  {
    hide Subs, Keeps, Prune, Visits, Listings, WellFiled, GraphEmitted, LeavesNamed, KeptVisits;
    forall v | EmittedFor(t, leaves, v) ensures TimesEmitted(out, v.id) == KeptVisits(t, leaves, Prune(v, leaves)) > 0 {
      EmittedTimes(t, names, leaves, out, v);
      KeptIsVisited(t, leaves, v);
    }
    if SwitchesOneParent(t, leaves) {
      SubsSelf(t);
      RootVisited(t, leaves);
      forall v | EmittedFor(t, leaves, v) ensures TimesEmitted(out, v.id) == 1 { OneWayDown(t, leaves, t, v); }
    }
    if forall v :: EmittedFor(t, leaves, v) ==> TimesEmitted(out, v.id) == 1 {
      forall c, v, w | EmittedFor(t, leaves, c) && v in Subs(t) && w in Subs(t) && c.id in v.vertices && c.id in w.vertices
        ensures v == w
      {
        if v != w { TwoParentsEmitted(t, leaves, c, v, w); }
      }
    }
  }

  lemma RootVisited(t: Vertex, leaves: set<string>)
    ensures Paths(t, t) == 1 && KeptVisits(t, leaves, Prune(t, leaves)) == 1
  {
    hide Visits, Listings, Prune;
    RootOnce(map[], t);
    RootOnce(Listings(t), Prune(t, leaves));
  }

  lemma KeptIsVisited(t: Vertex, leaves: set<string>, v: Vertex)
    requires EmittedFor(t, leaves, v)
    ensures KeptVisits(t, leaves, Prune(v, leaves)) > 0
  {
    hide Subs, Keeps, Prune, Visits, Listings;
    PruneHas(t, leaves, v);
    ListingsPositive(t);
    VisitedAreBelow(Listings(t), Prune(t, leaves), Prune(v, leaves));
  }

  // ---------- in a tree ----------

  /** What has been written for the kept vertices visited so far, each once. */
  ghost predicate WrittenFor(t: Vertex, names: set<string>, leaves: set<string>, order: seq<Vertex>, out: seq<SwitchOut>) {
    && OncePerName(out)
    && (forall s :: s in out ==> exists u :: u in order && Writes(u) && s.name == u.id && DescribesKept(t, names, leaves, u, s))
    && (forall u :: u in order && Writes(u) ==> exists s :: s in out && s.name == u.id)
  }

  lemma WrittenStep(t: Vertex, names: set<string>, leaves: set<string>, order: seq<Vertex>, out: seq<SwitchOut>, u: Vertex, more: seq<SwitchOut>)
    requires WrittenFor(t, names, leaves, order, out) && ChunkOf(t, names, leaves, u, more)
    requires forall w :: w in order ==> w.id != u.id
    ensures WrittenFor(t, names, leaves, order + [u], out + more)
  {
    hide DescribesKept, Writes;
    var order', out' := order + [u], out + more;
    assert u in order' && forall w :: w in order' <==> w in order || w == u;
    forall i, j | 0 <= i < j < |out'| ensures out'[i].name != out'[j].name {
      if j == |out| { assert out[i] in out; }
    }
    forall s | s in out' ensures exists w :: w in order' && Writes(w) && s.name == w.id && DescribesKept(t, names, leaves, w, s) {
      if s in out {
        var w :| w in order && Writes(w) && s.name == w.id && DescribesKept(t, names, leaves, w, s);
        assert w in order';
      } else {
        assert s == more[0];
      }
    }
    forall w | w in order' && Writes(w) ensures exists s :: s in out' && s.name == w.id {
      if w == u {
        assert more[0] in out';
      } else {
        var s :| s in out && s.name == w.id;
        assert s in out';
      }
    }
  }

  /** A parent on the way down is the root, or has been written. */
  lemma ParentWritten(t: Vertex, names: set<string>, leaves: set<string>, front: seq<Vertex>, out: seq<SwitchOut>, u: Vertex)
    requires WellFiled(t) && t.id == "" && WrittenFor(t, names, leaves, front, out)
    requires (forall w :: w in front ==> w in Subs(Prune(t, leaves))) && HasParentIn(front, u)
    ensures BelowRootOr(t, out, u.id)
  {
    hide Subs, Keeps, Prune, WrittenFor, WellFiled;
    var q :| q in front && u.id in q.vertices;
    var v := PruneComes(t, leaves, q);
    PruneChild(v, leaves, u.id);
    if q.id == "" {
      SameRoot(t, v);
    } else {
      var s := EntryWritten(t, names, leaves, front, out, q);
    }
  }

  lemma EntryWritten(t: Vertex, names: set<string>, leaves: set<string>, order: seq<Vertex>, out: seq<SwitchOut>, u: Vertex)
    returns (s: SwitchOut)
    requires WrittenFor(t, names, leaves, order, out) && u in order && Writes(u)
    ensures s in out && s.name == u.id
  {
    hide DescribesKept, OncePerName;
    s :| s in out && s.name == u.id;
  }

  lemma SameRoot(t: Vertex, v: Vertex)
    requires WellFiled(t) && v in Subs(t) && v.id == t.id
    ensures v == t
  {
    hide Subs;
    SubsSelf(t);
  }

  lemma TopFirstStep(t: Vertex, out: seq<SwitchOut>, more: seq<SwitchOut>)
    requires TopFirst(t, out) && |more| <= 1 && (more != [] ==> BelowRootOr(t, out, more[0].name))
    ensures TopFirst(t, out + more)
  {
    hide BelowRootOr;
    var all := out + more;
    forall j | 0 <= j < |all| ensures BelowRootOr(t, all[..j], all[j].name) {
      if j < |out| { assert all[..j] == out[..j] && all[j] == out[j]; } else { assert all[..j] == out; }
    }
  }

  lemma {:induction false} WrittenInTree(t: Vertex, names: set<string>, leaves: set<string>, order: seq<Vertex>, chunks: seq<seq<SwitchOut>>)
    requires WellFiled(t) && t.id == "" && ChunksOf(t, names, leaves, order, chunks) && DistinctIds(order)
    requires ParentsFirst(Prune(t, leaves), order) && forall u :: u in order ==> u in Subs(Prune(t, leaves))
    ensures WrittenFor(t, names, leaves, order, Flatten(chunks)) && TopFirst(t, Flatten(chunks))
  {
    hide WellFiled, Subs, Prune, HasParentIn, DescribesKept, BelowRootOr, WrittenFor, TopFirst;
    if order == [] {
      NothingWrittenFor(t, names, leaves);
    } else {
      var k := |order| - 1;
      var front, u, out := order[..k], order[k], Flatten(chunks[..k]);
      assert order == front + [u];
      FrontOfOrder(Prune(t, leaves), front, u);
      WrittenInTree(t, names, leaves, front, chunks[..k]);
      if k > 0 { ParentWritten(t, names, leaves, front, out, u); } else { PruneChild(t, leaves, ""); }
      assert ChunkOf(t, names, leaves, u, chunks[k]);
      WrittenStep(t, names, leaves, front, out, u, chunks[k]);
      TopFirstStep(t, out, chunks[k]);
    }
  }

  lemma FrontOfOrder(p: Vertex, front: seq<Vertex>, u: Vertex)
    requires DistinctIds(front + [u]) && ParentsFirst(p, front + [u])
    ensures DistinctIds(front) && ParentsFirst(p, front) && forall w :: w in front ==> w.id != u.id
    ensures if front == [] then u == p else HasParentIn(front, u)
  {
    hide HasParentIn;
    var all := front + [u];
    assert all[|front|] == u && all[..|front|] == front;
    forall i | 0 <= i < |front| ensures all[i] == front[i] && all[..i] == front[..i] && front[i].id != u.id {
      assert all[i].id != all[|front|].id;
    }
  }

  lemma NothingWrittenFor(t: Vertex, names: set<string>, leaves: set<string>)
    ensures WrittenFor(t, names, leaves, [], []) && TopFirst(t, [])
  {}

  /** In a tree every kept vertex is visited once. */
  lemma KeptOnce(t: Vertex, leaves: set<string>)
    requires IsTree(t)
    ensures forall u :: u in Subs(Prune(t, leaves)) ==> KeptVisits(t, leaves, u) == 1
  {
    hide Subs, Keeps, Prune, Visits, Listings, WellFiled, OneParent, Factor;
    var p := Prune(t, leaves);
    PruneIsTree(t, leaves);
    LoadedOnce(t);
    ListingsPositive(t);
    SubsSelf(t);
    forall u | u in Subs(p) ensures Factor(Listings(t), u) == 1 {
      var v := PruneComes(t, leaves, u);
      PruneChild(v, leaves, "");
      ListingsAre(t, v);
      SameFactor(Listings(t), u, v);
    }
    TreeOnce(Listings(t), p);
  }

  /** What was emitted was written along some walk of the kept tree. */
  lemma EmittedWalk(t: Vertex, names: set<string>, leaves: set<string>, out: seq<SwitchOut>) returns (order: seq<Vertex>)
    requires IsTree(t) && t.id == "" && GraphEmitted(t, names, leaves, out)
    ensures WrittenFor(t, names, leaves, order, out) && TopFirst(t, out) && forall u :: u in Subs(Prune(t, leaves)) ==> u in order
  {
    hide Subs, Prune, WellFiled, OneParent, ParentsFirst, InTurn, ChunksOf, KeptVisits, DistinctIds, WrittenFor, TopFirst;
    order :| (forall u :: multiset(order)[u] == KeptVisits(t, leaves, u)) && EmittedAlong(t, names, leaves, order, out);
    var chunks :| ChunksOf(t, names, leaves, order, chunks) && out == Flatten(chunks);
    VisitedKept(t, leaves, order);
    KeptOnce(t, leaves);
    PruneIsTree(t, leaves);
    FollowedDistinct(Prune(t, leaves), order);
    WrittenInTree(t, names, leaves, order, chunks);
  }

  /** In a tree exactly the named switches above requested nodes are emitted, each once. */
  lemma TreeIsEmitted(t: Vertex, names: set<string>, out: seq<SwitchOut>)
    requires IsTree(t) && t.id == "" && GraphEmitted(t, names, LeavesOf(t, names), out)
    ensures Emitted(t, names, out)
  {
    hide Subs, Keeps, Prune, LeavesOf, WellFiled, OneParent, GraphEmitted, SwitchFor, BelowRootOr, OncePerName, LeavesNamed, Writes;
    var leaves := LeavesOf(t, names);
    RequestedLeaves(t, names);
    var order := EmittedWalk(t, names, leaves, out);
    forall s | s in out ensures ForKept(t, names, leaves, s) {
      WriterStays(t, names, leaves, order, out, s);
    }
    forall v | EmittedFor(t, leaves, v) ensures exists s :: s in out && s.name == v.id {
      KeptSwitchWrites(t, names, leaves, v);
      PruneHas(t, leaves, v);
      PruneChild(v, leaves, "");
    }
  }

  lemma WriterKeeps(t: Vertex, names: set<string>, leaves: set<string>, u: Vertex, s: SwitchOut)
    requires Writes(u) && DescribesKept(t, names, leaves, u, s)
    ensures ForKept(t, names, leaves, s)
  {
    hide Subs, Keeps, Prune, SwitchFor;
    var v :| v in Subs(t) && v.id == u.id && u == Prune(v, leaves) && SwitchFor(s, v, names, leaves);
    var k :| k in u.vertices;
    PruneChild(v, leaves, k);
    KeepsChild(v, k, leaves);
    assert EmittedFor(t, leaves, v);
  }

  lemma WriterStays(t: Vertex, names: set<string>, leaves: set<string>, order: seq<Vertex>, out: seq<SwitchOut>, s: SwitchOut)
    requires WrittenFor(t, names, leaves, order, out) && s in out
    ensures ForKept(t, names, leaves, s)
  {
    hide DescribesKept, OncePerName, Writes, ForKept;
    var u :| u in order && Writes(u) && s.name == u.id && DescribesKept(t, names, leaves, u, s);
    WriterKeeps(t, names, leaves, u, s);
  }

  // ---------- reading the emitted switches ----------

  /** The requested nodes directly below `v`. */
  ghost function NodesUnder(v: Vertex, names: set<string>): set<string> {
    set n | n in names && ChildNode(v, n)
  }

  /** The kept sub-switches of `v`. */
  ghost function SwitchesUnder(v: Vertex, leaves: set<string>): set<string> {
    set k | k in v.vertices && !IsNode(v.vertices[k]) && Keeps(v.vertices[k], leaves)
  }

  lemma NodesReadBack(t: Vertex, names: set<string>, s: SwitchOut, v: Vertex)
    requires WellFiled(t) && NamesDiffer(t) && v in Subs(t) && Printable(SortedKeys(names))
    requires SwitchFor(s, v, names, LeavesOf(t, names))
    ensures Reads(s.nodes, NodesUnder(v, names))
  {
    hide Subs, IsNode, Printable, LeavesOf, NoRepeats, Reads, WellFiled, NamesDiffer, ChildListing, OneLine, ChildEntry;
    var kids :| ChildListing(v, kids) && Describes(s, v, kids, names, LeavesOf(t, names));
    NamesAreEntries(t);
    KidsNamed(t, v, kids, NodeList);
    EntriesNoRepeats(kids, NodeList);
    AmongNoRepeats(NodesIn(kids), names);
    AmongAre(NodesIn(kids), names);
    ListedEntries(v, kids, NodeList);
    var part := Among(NodesIn(kids), names);
    ReadsOneLine(names, part);
    assert (set x | x in part) == NodesUnder(v, names);
  }

  lemma {:induction false} KeptIdsNoRepeats(kids: seq<Vertex>, leaves: set<string>)
    requires DistinctIds(kids)
    ensures NoRepeats(KeptIds(kids, leaves))
  {
    hide IsNode, Keeps;
    if kids != [] {
      var front, last := kids[..|kids| - 1], kids[|kids| - 1];
      assert kids == front + [last];
      KeptIdsNoRepeats(front, leaves);
      KeptIdsAre(front, leaves);
      SnocNoRepeats(KeptIds(front, leaves), last.id);
      assert last.id !in KeptIds(front, leaves);
      assert KeptIds(front, leaves) + [] == KeptIds(front, leaves);
    }
  }

  lemma ListedSwitches(v: Vertex, kids: seq<Vertex>, leaves: set<string>)
    requires ChildListing(v, kids) && forall k :: k in v.vertices ==> v.vertices[k].id == k
    ensures (set x | x in KeptIds(kids, leaves)) == SwitchesUnder(v, leaves)
  {
    hide IsNode, Keeps, DistinctIds, KeptIds;
    KeptIdsAre(kids, leaves);
    forall k | k in SwitchesUnder(v, leaves) ensures k in KeptIds(kids, leaves) {
      assert v.vertices[k] in kids;
    }
  }

  lemma ChildrenReadBack(t: Vertex, names: set<string>, s: SwitchOut, v: Vertex, all: set<string>)
    requires WellFiled(t) && v in Subs(t) && Printable(SortedKeys(all)) && SwitchesUnder(v, LeavesOf(t, names)) <= all
    requires SwitchFor(s, v, names, LeavesOf(t, names))
    ensures Reads(s.children, SwitchesUnder(v, LeavesOf(t, names)))
  {
    hide Subs, IsNode, Keeps, Printable, LeavesOf, NoRepeats, Reads, OneLine, ChildListing, KeptIds;
    var leaves := LeavesOf(t, names);
    var kids :| ChildListing(v, kids) && Describes(s, v, kids, names, leaves);
    ListingDistinct(v, kids);
    KeptIdsNoRepeats(kids, leaves);
    ListedSwitches(v, kids, leaves);
    forall x | x in KeptIds(kids, leaves) ensures x in all {
      assert x in SwitchesUnder(v, leaves);
    }
    ReadsOneLine(all, KeptIds(kids, leaves));
  }

  lemma ListingDistinct(v: Vertex, kids: seq<Vertex>)
    requires ChildListing(v, kids)
    ensures DistinctIds(kids)
  {}

  /** How often a node is listed by the emitted switches together. */
  ghost function TimesListed(out: seq<SwitchOut>, n: string): nat {
    if out == [] then 0 else TimesListed(out[..|out| - 1], n) + multiset(ExpandList(out[|out| - 1].nodes))[n]
  }

  lemma {:induction false} TimesByName(out: seq<SwitchOut>, n: string, id: string)
    requires OncePerName(out) && forall s :: s in out ==> multiset(ExpandList(s.nodes))[n] == if s.name == id then 1 else 0
    ensures TimesListed(out, n) == if exists s :: s in out && s.name == id then 1 else 0
  {
    hide ExpandList;
    if out != [] {
      var front, last := out[..|out| - 1], out[|out| - 1];
      assert out == front + [last];
      TimesByName(front, n, id);
      assert last in out;
      if s :| s in front && s.name == id { assert last.name != id; assert s in out; }
    }
  }

  /** A requested node below a vertex with an ID is listed once, by that switch. One below a vertex without an ID,
      the nameless root, is listed by no switch, although it was requested and is known. */
  lemma NodeUnderOneSwitch(t: Vertex, names: set<string>, out: seq<SwitchOut>, v: Vertex, n: string)
    requires IsTree(t) && NamesDiffer(t) && Emitted(t, names, out) && Printable(SortedKeys(names))
    requires v in Subs(t) && ChildNode(v, n) && n in names
    ensures TimesListed(out, n) == if v.id == "" then 0 else 1
    ensures forall s :: s in out ==> multiset(ExpandList(s.nodes))[n] == if s.name == v.id then 1 else 0
  {
    hide *;
    if v.id != "" { SwitchEmitted(t, names, out, v, n); }
    forall s | s in out ensures multiset(ExpandList(s.nodes))[n] == if s.name == v.id then 1 else 0 {
      ListedByParent(t, names, out, s, v, n);
    }
    EmittedNames(t, names, out);
    TimesByName(out, n, v.id);
  }

  lemma EmittedNames(t: Vertex, names: set<string>, out: seq<SwitchOut>)
    requires Emitted(t, names, out)
    ensures OncePerName(out) && forall s :: s in out ==> s.name != ""
  {
    hide Subs, LeavesOf, IsNode, Keeps, TopFirst;
  }

  lemma SwitchEmitted(t: Vertex, names: set<string>, out: seq<SwitchOut>, v: Vertex, n: string)
    requires IsTree(t) && NamesDiffer(t) && Emitted(t, names, out)
    requires v in Subs(t) && v.id != "" && ChildNode(v, n) && n in names
    ensures exists s :: s in out && s.name == v.id
  {
    hide Subs, LeavesOf, IsNode, WellFiled, OneParent, NamesDiffer, Keeps, SwitchFor, OncePerName, ChildEntry;
    NodeKeepsParent(t, names, v, n);
    assert EmittedFor(t, LeavesOf(t, names), v);
  }

  lemma ListedByParent(t: Vertex, names: set<string>, out: seq<SwitchOut>, s: SwitchOut, v: Vertex, n: string)
    requires IsTree(t) && NamesDiffer(t) && Emitted(t, names, out) && Printable(SortedKeys(names))
    requires v in Subs(t) && ChildNode(v, n) && n in names && s in out
    ensures multiset(ExpandList(s.nodes))[n] == if s.name == v.id then 1 else 0
  {
    hide Subs, Printable, LeavesOf, IsNode, OneParent, NamesDiffer, EntriesDiffer, Keeps, SwitchFor, OncePerName, ChildEntry, ExpandList;
    var u := SwitchOf(t, names, out, s);
    NodesReadBack(t, names, s, u);
    assert n in NodesUnder(u, names) <==> ChildNode(u, n);
    NamesAreEntries(t);
    if ChildNode(u, n) { SameParent(t, u, v, NodeList, n); }
  }

  /** The vertex an emitted switch stands for. */
  lemma SwitchOf(t: Vertex, names: set<string>, out: seq<SwitchOut>, s: SwitchOut) returns (v: Vertex)
    requires Emitted(t, names, out) && s in out
    ensures v in Subs(t) && v.id == s.name && SwitchFor(s, v, names, LeavesOf(t, names))
  {
    hide Subs, LeavesOf, IsNode, Keeps, SwitchFor, OncePerName;
    v :| EmittedFor(t, LeavesOf(t, names), v) && SwitchFor(s, v, names, LeavesOf(t, names));
    NamedAfter(s, v, names, LeavesOf(t, names));
  }

  lemma NamedAfter(s: SwitchOut, v: Vertex, names: set<string>, leaves: set<string>)
    requires SwitchFor(s, v, names, leaves)
    ensures s.name == v.id
  {}

  lemma NodeKeepsParent(t: Vertex, names: set<string>, v: Vertex, n: string)
    requires WellFiled(t) && NamesDiffer(t) && v in Subs(t) && ChildNode(v, n) && n in names
    ensures !IsNode(v) && Keeps(v, LeavesOf(t, names))
  {
    var k :| k in v.vertices && IsNode(v.vertices[k]) && v.vertices[k].name == n;
    SubsChild(t, v, k);
    LeafKept(t, names, v.vertices[k]);
    KeepsChild(v, k, LeavesOf(t, names));
  }

  /** No node is listed that was not requested, and none away from its switch. */
  lemma OnlyRequestedNodes(t: Vertex, names: set<string>, out: seq<SwitchOut>, s: SwitchOut, n: string)
    requires IsTree(t) && NamesDiffer(t) && Emitted(t, names, out) && Printable(SortedKeys(names))
    requires s in out && n in ExpandList(s.nodes)
    ensures n in names && exists v :: v in Subs(t) && v.id == s.name && ChildNode(v, n)
  {
    hide Subs, Printable, LeavesOf, IsNode, NamesDiffer, Keeps, SwitchFor, OncePerName, ChildEntry;
    var v := SwitchOf(t, names, out, s);
    NodesReadBack(t, names, s, v);
    assert multiset(ExpandList(s.nodes))[n] > 0;
  }

  /** A node that was not requested is listed by no switch. */
  lemma NeverListed(t: Vertex, names: set<string>, out: seq<SwitchOut>, n: string)
    requires IsTree(t) && NamesDiffer(t) && Emitted(t, names, out) && Printable(SortedKeys(names)) && n !in names
    ensures TimesListed(out, n) == 0
  {
    hide IsTree, NamesDiffer, Emitted, Printable, ExpandList, Subs;
    forall s | s in out ensures multiset(ExpandList(s.nodes))[n] == 0 {
      if n in ExpandList(s.nodes) { OnlyRequestedNodes(t, names, out, s, n); }
    }
    NoTimes(out, n);
  }

  lemma {:induction false} NoTimes(out: seq<SwitchOut>, n: string)
    requires forall s :: s in out ==> multiset(ExpandList(s.nodes))[n] == 0
    ensures TimesListed(out, n) == 0
  {
    hide ExpandList;
    if out != [] {
      var front, last := out[..|out| - 1], out[|out| - 1];
      assert out == front + [last];
      NoTimes(front, n);
    }
  }
}
