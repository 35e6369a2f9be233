/** What is printed for a tree, vertex by vertex: `pkg/translate/tree.go`. */
module TreeOutput {
  import opened Arrivals
  import opened ClusetSpec
  import opened Loading
  import opened Ordering
  import opened Printing
  import opened Topology
  import opened TranslateSpec
  import opened Trees
  import opened WalkOrder

  /** One line of output: a comment (possibly empty), the switch name, and the list of its switches or nodes. */
  datatype Line = Line(comment: string, name: string, kind: Kind, list: string)

  datatype Output = MissingVertex(id: string) | Lines(lines: seq<Line>)

  function CommentOf(v: Vertex): string {
    if v.name == "" then "" else "# " + v.name + "=" + v.id + "\n"
  }

  /** Comment and name together identify the vertex a line was printed for. */
  predicate Heads(line: Line, v: Vertex) {
    line.comment == CommentOf(v) && line.name == LabelOf(v)
  }

  lemma HeadingIdentifies(line: Line, v: Vertex, w: Vertex)
    requires Heads(line, v) && Heads(line, w)
    ensures v.id == w.id && v.name == w.name
  {
    if v.name != "" && w.name != "" {
      var head := "# " + v.name + "=";
      assert CommentOf(v) == head + (v.id + "\n") && CommentOf(w) == head + (w.id + "\n");
      assert CommentOf(v)[|head|..] == v.id + "\n" && CommentOf(w)[|head|..] == w.id + "\n";
      assert (v.id + "\n")[..|v.id|] == v.id && (w.id + "\n")[..|w.id|] == w.id;
    }
  }

  function LineFor(v: Vertex, kind: Kind, names: seq<string>): Line {
    Line(CommentOf(v), LabelOf(v), kind, OneLine(names))
  }

  function LinesFor(v: Vertex, kids: seq<Vertex>): seq<Line> {
    (if EntriesIn(kids, SwitchList) == [] then [] else [LineFor(v, SwitchList, EntriesIn(kids, SwitchList))])
    + (if EntriesIn(kids, NodeList) == [] then [] else [LineFor(v, NodeList, EntriesIn(kids, NodeList))])
  }

  /** What is printed for one vertex; nothing for one without an ID. */
  ghost predicate WritesVertex(v: Vertex, chunk: seq<Line>) {
    if v.id == "" then chunk == [] else exists kids :: ChildListing(v, kids) && chunk == LinesFor(v, kids)
  }

  /** Every vertex once, the root first, and every other vertex after its parent. */
  ghost predicate TopDown(root: Vertex, order: seq<Vertex>) {
    && (forall v :: v in order <==> v in Subs(root))
    && DistinctIds(order)
    && ParentsFirst(root, order)
  }

  ghost predicate HasParentIn(front: seq<Vertex>, v: Vertex) {
    exists p :: p in front && v.id in p.vertices
  }

  ghost predicate ParentsFirst(root: Vertex, order: seq<Vertex>) {
    forall i :: 0 <= i < |order| ==> if i == 0 then order[i] == root else HasParentIn(order[..i], order[i])
  }

  ghost predicate ChunkFor(order: seq<Vertex>, chunks: seq<seq<Line>>) {
    && |order| == |chunks|
    && forall i :: 0 <= i < |order| ==> WritesVertex(order[i], chunks[i])
  }

  /** The lines are what is printed for all vertices of the tree, from the top down. */
  ghost predicate Printed(t: Vertex, lines: seq<Line>) {
    exists order, chunks :: TopDown(t, order) && InTurn(order, []) && ChunkFor(order, chunks) && lines == Flatten(chunks)
  }

  /** The lines are what is printed along a walk that visits every vertex as often as the loaded lists say. */
  ghost predicate GraphPrinted(t: Vertex, lines: seq<Line>) {
    exists order, chunks :: Followed(t, order) && ChunkFor(order, chunks) && lines == Flatten(chunks)
  }

  ghost predicate Followed(t: Vertex, order: seq<Vertex>) {
    (forall v :: multiset(order)[v] == Writings(t, v)) && ParentsFirst(t, order) && InTurn(order, [])
  }

  // ---------- the traversal ----------

  /** What waits has a parent that has been written; at first only the root waits. */
  ghost predicate Waits(t: Vertex, order: seq<Vertex>, queue: seq<Vertex>) {
    if order == [] then queue == [t] else forall w :: w in queue ==> HasParentIn(order, w)
  }

  ghost predicate WrittenUpTo(t: Vertex, order: seq<Vertex>, lines: seq<Line>) {
    ParentsFirst(t, order) && exists chunks :: ChunkFor(order, chunks) && lines == Flatten(chunks)
  }

  lemma NothingWritten(t: Vertex)
    ensures WrittenUpTo(t, [], []) && Waits(t, [], [t])
  {
    assert ChunkFor([], []) && Flatten<Line>([]) == [];
  }

  lemma WaitsStep(t: Vertex, order: seq<Vertex>, queue: seq<Vertex>, kids: seq<Vertex>)
    requires Waits(t, order, queue) && queue != [] && forall w :: w in kids ==> w.id in queue[0].vertices
    ensures Waits(t, order + [queue[0]], queue[1..] + kids)
    ensures if order == [] then queue[0] == t else HasParentIn(order, queue[0])
  {
    var u, more := queue[0], order + [queue[0]];
    assert u in more && forall p :: p in order ==> p in more;
    forall w | w in queue[1..] + kids ensures HasParentIn(more, w) {
      if w in queue[1..] {
        assert w in queue;
        var p :| p in order && w.id in p.vertices;
        assert p in more;
      }
    }
  }

  lemma WriteFront(t: Vertex, order: seq<Vertex>, lines: seq<Line>, u: Vertex, chunk: seq<Line>)
    requires WrittenUpTo(t, order, lines) && WritesVertex(u, chunk)
    requires if order == [] then u == t else HasParentIn(order, u)
    ensures WrittenUpTo(t, order + [u], lines + chunk)
  {
    hide WritesVertex, HasParentIn;
    var more := order + [u];
    forall i | 0 <= i < |more| ensures if i == 0 then more[i] == t else HasParentIn(more[..i], more[i]) {
      if i < |order| { assert more[..i] == order[..i] && more[i] == order[i]; } else { assert more[..i] == order; }
    }
    var chunks :| ChunkFor(order, chunks) && lines == Flatten(chunks);
    assert (chunks + [chunk])[..|chunks|] == chunks;
    assert ChunkFor(more, chunks + [chunk]);
  }

  lemma GraphWritten(t: Vertex, order: seq<Vertex>, lines: seq<Line>)
    requires Accounted(Listings(t), t, order, []) && WrittenUpTo(t, order, lines) && InTurn(order, [])
    ensures GraphPrinted(t, lines)
  {
    hide Visits, Listings, ParentsFirst, ChunkFor, InTurn;
    ListingsPositive(t);
    AccountEnd(Listings(t), t, order);
    assert Followed(t, order);
  }

  lemma {:induction false} FiledCount(u: Vertex, list: seq<string>, w: Vertex)
    requires (forall k :: k in list ==> k in u.vertices) && forall k :: k in u.vertices ==> u.vertices[k].id == k
    ensures multiset(ChildrenAt(u, list))[w] == if w.id in u.vertices && u.vertices[w.id] == w then multiset(list)[w.id] else 0
  {
    if list != [] {
      var first, rest := list[0], list[1..];
      assert list == [first] + rest;
      FiledCount(u, rest, w);
      FiledCons(u, first, rest);
    }
  }

  lemma FiledCons(u: Vertex, first: string, rest: seq<string>)
    requires first in u.vertices && forall k :: k in rest ==> k in u.vertices
    ensures ChildrenAt(u, [first] + rest) == [u.vertices[first]] + ChildrenAt(u, rest)
  {}

  /** The children behind a loaded list: each as often as the list repeats its key. */
  lemma LoadedKids(t: Vertex, tree: map<string, seq<string>>, vertices: map<string, Vertex>, u: Vertex) returns (kids: seq<Vertex>)
    requires WellFiled(t) && GraphLoaded(t, tree, vertices) && u in Subs(t)
    ensures u.id in vertices && vertices[u.id] == u && u.id in tree
    ensures KidsTimes(u, kids, Factor(Listings(t), u)) && Ascending(kids) && forall w :: w in kids ==> w.id in u.vertices
    ensures |kids| == |tree[u.id]| && forall i :: 0 <= i < |kids| ==> kids[i].id == tree[u.id][i]
  {
    hide WellFiled, Subs, Visits, Listings, Factor, SortedBy, Ascending;
    assert ListedAt(t, tree[u.id], vertices[u.id], u.id);
    var list := tree[u.id];
    FiledKids(t, u);
    ListingsAre(t, u);
    forall k | k in list ensures k in u.vertices { assert multiset(list)[k] > 0; }
    assert forall i :: 0 <= i < |list| ==> list[i] in list;
    kids := ChildrenAt(u, list);
    forall w ensures multiset(kids)[w] == if w.id in u.vertices && u.vertices[w.id] == w then Factor(Listings(t), u) else 0 {
      FiledCount(u, list, w);
    }
    KidsAscend(list, kids);
  }

  lemma KidsAscend(list: seq<string>, kids: seq<Vertex>)
    requires SortedBy(list, LeqStrings) && |kids| == |list| && forall i :: 0 <= i < |kids| ==> kids[i].id == list[i]
    ensures Ascending(kids)
  {
    hide Leq;
  }

  /** The vertex at the front of the queue is one of the graph, so it is filed. */
  lemma FrontLoaded(t: Vertex, tree: map<string, seq<string>>, vertices: map<string, Vertex>,
                    m: map<string, nat>, order: seq<Vertex>, queue: seq<Vertex>)
    requires GraphLoaded(t, tree, vertices) && Positive(m) && Accounted(m, t, order, queue) && queue != []
    ensures queue[0] in Subs(t) && queue[0].id in vertices && vertices[queue[0].id] == queue[0]
  {
    hide Subs, Accounted;
    AccountFront(m, t, order, queue);
  }

  /** A tree is printed vertex by vertex, each once. */
  lemma TreeIsPrinted(t: Vertex, lines: seq<Line>)
    requires IsTree(t) && GraphPrinted(t, lines)
    ensures Printed(t, lines)
  {
    hide WellFiled, OneParent, Subs, ChunkFor, ParentsFirst, InTurn, Writings, DistinctIds;
    var order, chunks :| Followed(t, order) && ChunkFor(order, chunks) && lines == Flatten(chunks);
    WrittenOnce(t);
    forall v ensures v in order <==> v in Subs(t) {
      assert v in order <==> multiset(order)[v] > 0;
      WrittenAreBelow(t, v);
    }
    FollowedDistinct(t, order);
    assert TopDown(t, order);
  }

  lemma WrittenAreBelow(t: Vertex, v: Vertex)
    ensures Writings(t, v) > 0 <==> v in Subs(t)
  {
    hide Visits, Listings, Subs;
    ListingsPositive(t);
    VisitedAreBelow(Listings(t), t, v);
  }

  lemma FollowedDistinct(t: Vertex, order: seq<Vertex>)
    requires WellFiled(t) && forall v :: v in order ==> v in Subs(t) && multiset(order)[v] == 1
    ensures DistinctIds(order)
  {
    hide Subs;
    CountOnce(order);
    assert forall i :: 0 <= i < |order| ==> order[i] in order;
  }

  /** A walk that writes every vertex once needs a tree. */
  lemma OnceNeedsTree(t: Vertex, order: seq<Vertex>)
    requires WellFiled(t) && Followed(t, order)
    ensures (forall v :: v in Subs(t) ==> multiset(order)[v] == 1) <==> OneParent(t)
  {
    hide WellFiled, OneParent, Subs, ParentsFirst, InTurn, Writings;
    WrittenOnce(t);
  }

  // ---------- where nodes and switches appear ----------

  /** How often an entry is in the lists of one kind, when the lines are read back. */
  ghost function Listed(lines: seq<Line>, kind: Kind, n: string): nat {
    if lines == [] then 0
    else
      var last := lines[|lines| - 1];
      Listed(lines[..|lines| - 1], kind, n) + if last.kind == kind then multiset(ExpandList(last.list))[n] else 0
  }

  lemma {:induction false} ListedConcat(a: seq<Line>, b: seq<Line>, kind: Kind, n: string)
    ensures Listed(a + b, kind, n) == Listed(a, kind, n) + Listed(b, kind, n)
  {
    hide ExpandList;
    if b == [] {
      assert a + b == a;
    } else {
      assert (a + b)[..|a + b| - 1] == a + b[..|b| - 1];
      ListedConcat(a, b[..|b| - 1], kind, n);
    }
  }

  lemma ListedOfKids(t: Vertex, v: Vertex, kids: seq<Vertex>, kind: Kind, all: set<string>, n: string)
    requires EntriesDiffer(t, kind) && v in Subs(t) && ChildListing(v, kids) && Printable(SortedKeys(all)) && ChildrenNamed(v, kind, all)
    ensures Reads(OneLine(EntriesIn(kids, kind)), set x | x in EntriesIn(kids, kind))
    ensures n in EntriesIn(kids, kind) <==> ChildEntry(v, kind, n)
  {
    hide Subs, Printable, EntriesDiffer, ChildListing, OneLine, ChildEntry, EntriesIn, NoRepeats, ChildrenNamed;
    KidsNamed(t, v, kids, kind);
    EntriesNoRepeats(kids, kind);
    ListedEntries(v, kids, kind);
    NamedKids(v, kids, kind, all);
    ReadsOneLine(all, EntriesIn(kids, kind));
  }

  /** One vertex lists each of its own entries once. */
  lemma ListedByVertex(t: Vertex, v: Vertex, chunk: seq<Line>, kind: Kind, all: set<string>, n: string)
    requires EntriesDiffer(t, kind) && v in Subs(t) && WritesVertex(v, chunk) && Printable(SortedKeys(all)) && ChildrenNamed(v, kind, all)
    ensures Listed(chunk, kind, n) == if v.id != "" && ChildEntry(v, kind, n) then 1 else 0
    ensures forall line :: line in chunk ==> Heads(line, v)
  {
    hide Subs, Printable, EntriesDiffer, ChildListing, OneLine, ChildEntry, EntriesIn, LinesFor, Reads, ChildrenNamed;
    if v.id != "" {
      var kids :| ChildListing(v, kids) && chunk == LinesFor(v, kids);
      ListedOfKids(t, v, kids, kind, all, n);
      ReadsCount(OneLine(EntriesIn(kids, kind)), (set x | x in EntriesIn(kids, kind)), n);
      ListedLines(v, kids, kind, n);
      LineHeads(v, kids);
    } else {
      NoLines(kind, n);
    }
  }

  lemma NamedKids(v: Vertex, kids: seq<Vertex>, kind: Kind, all: set<string>)
    requires ChildListing(v, kids) && ChildrenNamed(v, kind, all)
    ensures forall n :: n in EntriesIn(kids, kind) ==> n in all
  {
    hide ChildEntry, ChildListing;
    ListedEntries(v, kids, kind);
  }

  lemma NoLines(kind: Kind, n: string)
    ensures Listed([], kind, n) == 0
  {}

  lemma LineHeads(v: Vertex, kids: seq<Vertex>)
    ensures forall line :: line in LinesFor(v, kids) ==> Heads(line, v)
  {
    hide OneLine, EntriesIn;
  }

  lemma ReadsCount(text: string, names: set<string>, n: string)
    requires Reads(text, names)
    ensures multiset(ExpandList(text))[n] == if n in names then 1 else 0
  {
    hide ExpandList;
  }

  lemma ListedLines(v: Vertex, kids: seq<Vertex>, kind: Kind, n: string)
    ensures Listed(LinesFor(v, kids), kind, n) == if EntriesIn(kids, kind) == [] then 0 else multiset(ExpandList(OneLine(EntriesIn(kids, kind))))[n]
  {
    hide ExpandList, OneLine, EntriesIn;
    var a := if EntriesIn(kids, SwitchList) == [] then [] else [LineFor(v, SwitchList, EntriesIn(kids, SwitchList))];
    var b := if EntriesIn(kids, NodeList) == [] then [] else [LineFor(v, NodeList, EntriesIn(kids, NodeList))];
    ListedConcat(a, b, kind, n);
  }

  /** `n` is an entry below a vertex with an ID. */
  ghost predicate Shown(t: Vertex, kind: Kind, n: string) {
    exists v :: ShownBelow(t, v, kind, n)
  }

  ghost predicate ShownBelow(t: Vertex, v: Vertex, kind: Kind, n: string) {
    v in Subs(t) && v.id != "" && ChildEntry(v, kind, n)
  }

  ghost predicate AnyShows(t: Vertex, order: seq<Vertex>, kind: Kind, n: string) {
    exists v :: v in order && ShownBelow(t, v, kind, n)
  }

  /** All entries below something. */
  ghost predicate NamesIn(t: Vertex, kind: Kind, all: set<string>) {
    forall v :: v in Subs(t) ==> ChildrenNamed(v, kind, all)
  }

  ghost predicate ChildrenNamed(v: Vertex, kind: Kind, all: set<string>) {
    forall n :: ChildEntry(v, kind, n) ==> n in all
  }

  lemma AnyShowsSnoc(t: Vertex, front: seq<Vertex>, v: Vertex, kind: Kind, n: string)
    requires IsTree(t) && EntriesDiffer(t, kind) && DistinctIds(front + [v])
    ensures AnyShows(t, front + [v], kind, n) <==> AnyShows(t, front, kind, n) || ShownBelow(t, v, kind, n)
    ensures AnyShows(t, front, kind, n) ==> !ShownBelow(t, v, kind, n)
  {
    hide IsTree, EntriesDiffer, Subs, ChildEntry;
    if AnyShows(t, front, kind, n) && ShownBelow(t, v, kind, n) {
      var u :| u in front && ShownBelow(t, u, kind, n);
      SameParent(t, u, v, kind, n);
      var i :| 0 <= i < |front| && front[i] == u;
      DifferentIds(front, v, i);
    }
  }

  lemma DifferentIds(front: seq<Vertex>, v: Vertex, i: nat)
    requires DistinctIds(front + [v]) && i < |front|
    ensures front[i].id != v.id
  {
    var all := front + [v];
    assert all[i].id != all[|front|].id;
  }

  lemma DistinctFront(front: seq<Vertex>, v: Vertex)
    requires DistinctIds(front + [v])
    ensures DistinctIds(front)
  {
    var all := front + [v];
    assert forall i :: 0 <= i < |front| ==> all[i] == front[i];
  }

  lemma {:induction false} ListedUpTo(t: Vertex, order: seq<Vertex>, chunks: seq<seq<Line>>, kind: Kind, all: set<string>, n: string)
    requires IsTree(t) && EntriesDiffer(t, kind) && NamesIn(t, kind, all) && Printable(SortedKeys(all))
    requires DistinctIds(order) && ChunkFor(order, chunks) && forall v :: v in order ==> v in Subs(t)
    ensures Listed(Flatten(chunks), kind, n) == if AnyShows(t, order, kind, n) then 1 else 0
  {
    hide IsTree, EntriesDiffer, ChildrenNamed, Printable, Subs, ChildEntry, WritesVertex, DistinctIds, Listed, AnyShows;
    if order == [] {
      NoneShown(t, kind, n);
    } else {
      var k := |order| - 1;
      var front, v := order[..k], order[k];
      assert order == front + [v];
      DistinctFront(front, v);
      ListedUpTo(t, front, chunks[..k], kind, all, n);
      assert v in order;
      ListedByVertex(t, v, chunks[k], kind, all, n);
      ListedConcat(Flatten(chunks[..k]), chunks[k], kind, n);
      AnyShowsSnoc(t, front, v, kind, n);
    }
  }

  lemma NoneShown(t: Vertex, kind: Kind, n: string)
    ensures !AnyShows(t, [], kind, n) && Listed([], kind, n) == 0
  {}

  /** When the whole output is read back, a node or switch is listed once if it is below a vertex with an ID, and never otherwise. */
  lemma EachEntryListedOnce(t: Vertex, lines: seq<Line>, kind: Kind, all: set<string>, n: string)
    requires IsTree(t) && EntriesDiffer(t, kind) && NamesIn(t, kind, all) && Printable(SortedKeys(all)) && Printed(t, lines)
    ensures Listed(lines, kind, n) == if Shown(t, kind, n) then 1 else 0
  {
    hide IsTree, EntriesDiffer, NamesIn, Printable, Subs, ChildEntry, ChunkFor, DistinctIds, ParentsFirst, Listed;
    var order, chunks :| TopDown(t, order) && ChunkFor(order, chunks) && lines == Flatten(chunks);
    ListedUpTo(t, order, chunks, kind, all, n);
  }

  lemma {:induction false} FlattenHas(chunks: seq<seq<Line>>, line: Line) returns (i: nat)
    requires line in Flatten(chunks)
    ensures i < |chunks| && line in chunks[i]
  {
    if line in chunks[|chunks| - 1] {
      i := |chunks| - 1;
    } else {
      i := FlattenHas(chunks[..|chunks| - 1], line);
    }
  }

  /** A list with an entry in it is headed by the switch the entry is below. */
  lemma ListedUnderItsParent(t: Vertex, lines: seq<Line>, kind: Kind, all: set<string>, line: Line, n: string)
    requires IsTree(t) && EntriesDiffer(t, kind) && NamesIn(t, kind, all) && Printable(SortedKeys(all)) && Printed(t, lines)
    requires line in lines && line.kind == kind && n in ExpandList(line.list)
    ensures exists v :: ShownBelow(t, v, kind, n) && Heads(line, v)
  {
    hide IsTree, EntriesDiffer, ChildrenNamed, Printable, Subs, ChildEntry, WritesVertex, DistinctIds, ParentsFirst, InTurn, ExpandList, Heads;
    var order, chunks :| TopDown(t, order) && ChunkFor(order, chunks) && lines == Flatten(chunks);
    assert ChunkFor(order, chunks);
    var i := FlattenHas(chunks, line);
    var v := order[i];
    assert v in order;
    ListedByVertex(t, v, chunks[i], kind, all, n);
    SomeListHas(chunks[i], kind, line, n);
  }

  lemma {:induction false} SomeListHas(lines: seq<Line>, kind: Kind, line: Line, n: string)
    requires line in lines && line.kind == kind && n in ExpandList(line.list)
    ensures Listed(lines, kind, n) > 0
  {
    hide ExpandList;
    var front, last := lines[..|lines| - 1], lines[|lines| - 1];
    assert lines == front + [last];
    if line == last {
      assert multiset(ExpandList(line.list))[n] > 0;
    } else {
      SomeListHas(front, kind, line, n);
    }
  }
}
