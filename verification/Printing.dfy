/** Lists of names as they are printed on one line, and read back from it. */
module Printing {
  import opened ClusetSpec
  import opened ClusetTheorems
  import opened Ordering
  import opened Text
  import opened Topology
  import opened Trees

  /** The text printed for a list of names. */
  function OneLine(names: seq<string>): string {
    Join(Compact(names), ",")
  }

  /** Names that survive printing. */
  ghost predicate Printable(names: seq<string>) {
    Tame(names) && Clean(names) && Aligned(names) && Listable(names)
  }

  function Elements(s: seq<string>): set<string> {
    set x | x in s
  }

  ghost predicate NoRepeats(xs: seq<string>) {
    forall i, j :: 0 <= i < j < |xs| ==> xs[i] != xs[j]
  }

  /** Distinct names chosen from printable ones are printable. */
  lemma PartPrintable(all: seq<string>, part: seq<string>)
    requires Printable(all) && NoRepeats(part) && forall x :: x in part ==> x in all
    ensures Printable(part)
  {
    hide SamePrefix;
    forall x | x in part && !Numbered(x) ensures multiset(part)[x] == 1 {
      CountOfDistinct(part);
    }
  }

  /** The line lists each of the names once and no other. */
  ghost predicate Reads(text: string, names: set<string>) {
    forall n :: multiset(ExpandList(text))[n] == if n in names then 1 else 0
  }

  lemma ReadsPart(all: seq<string>, part: seq<string>)
    requires Printable(all) && NoRepeats(part) && forall x :: x in part ==> x in all
    ensures Reads(OneLine(part), set x | x in part)
  {
    hide Printable, OneLine, ExpandList;
    PartPrintable(all, part);
    PrintedReadsBack(part);
    CountOfDistinct(part);
  }

  lemma ReadsOneLine(all: set<string>, part: seq<string>)
    requires Printable(SortedKeys(all)) && NoRepeats(part) && forall x :: x in part ==> x in all
    ensures Reads(OneLine(part), set x | x in part)
  {
    hide Printable, NoRepeats, Reads, OneLine;
    ReadsPart(SortedKeys(all), part);
  }

  lemma PrintedReadsBack(names: seq<string>)
    requires Printable(names)
    ensures multiset(ExpandList(OneLine(names))) == multiset(names)
  {
    hide Tame, Clean, Aligned, Listable, Compact, SplitList;
    ListRoundTrip(names);
  }

  // ---------- the children of a vertex ----------

  /** The two lists that are printed for a vertex: its switches and its compute nodes. */
  datatype Kind = SwitchList | NodeList

  predicate OfKind(w: Vertex, kind: Kind) {
    IsNode(w) <==> kind.NodeList?
  }

  function LabelOf(v: Vertex): string {
    if v.name == "" then v.id else v.name
  }

  /** What a vertex is listed as: a node by its name, a switch by its label. */
  function EntryOf(w: Vertex): string {
    if IsNode(w) then w.name else LabelOf(w)
  }

  /** The entries of one kind in a list of vertices. */
  function EntriesIn(kids: seq<Vertex>, kind: Kind): seq<string> {
    if kids == [] then []
    else
      var w := kids[|kids| - 1];
      EntriesIn(kids[..|kids| - 1], kind) + if OfKind(w, kind) then [EntryOf(w)] else []
  }

  function NodesIn(kids: seq<Vertex>): seq<string> {
    EntriesIn(kids, NodeList)
  }

  function Among(names: seq<string>, chosen: set<string>): seq<string> {
    if names == [] then []
    else
      var n := names[|names| - 1];
      Among(names[..|names| - 1], chosen) + if n in chosen then [n] else []
  }

  ghost predicate ChildEntry(v: Vertex, kind: Kind, n: string) {
    exists k :: k in v.vertices && OfKind(v.vertices[k], kind) && EntryOf(v.vertices[k]) == n
  }

  ghost predicate ChildNode(v: Vertex, n: string) {
    ChildEntry(v, NodeList, n)
  }

  lemma {:induction false} EntriesInAre(kids: seq<Vertex>, kind: Kind)
    ensures forall n :: n in EntriesIn(kids, kind) <==> exists w :: w in kids && OfKind(w, kind) && EntryOf(w) == n
  {
    hide OfKind, EntryOf;
    if kids != [] {
      var front, last := kids[..|kids| - 1], kids[|kids| - 1];
      assert kids == front + [last];
      EntriesInAre(front, kind);
    }
  }

  lemma EntriesSnoc(front: seq<Vertex>, w: Vertex, kind: Kind)
    ensures EntriesIn(front + [w], kind) == EntriesIn(front, kind) + if OfKind(w, kind) then [EntryOf(w)] else []
  {
    assert (front + [w])[..|front|] == front;
  }

  lemma {:induction false} AmongAre(names: seq<string>, chosen: set<string>)
    ensures forall n :: n in Among(names, chosen) <==> n in names && n in chosen
  {
    if names != [] {
      var front, last := names[..|names| - 1], names[|names| - 1];
      assert names == front + [last];
      AmongAre(front, chosen);
    }
  }

  lemma {:induction false} AmongCount(names: seq<string>, chosen: set<string>, n: string)
    ensures multiset(Among(names, chosen))[n] == if n in chosen then multiset(names)[n] else 0
  {
    if names != [] {
      var front, last := names[..|names| - 1], names[|names| - 1];
      assert names == front + [last];
      AmongCount(front, chosen, n);
    }
  }

  lemma {:induction false} AmongNoRepeats(names: seq<string>, chosen: set<string>)
    requires NoRepeats(names)
    ensures NoRepeats(Among(names, chosen))
  {
    if names != [] {
      var front, last := names[..|names| - 1], names[|names| - 1];
      assert names == front + [last];
      AmongNoRepeats(front, chosen);
      AmongAre(front, chosen);
      SnocNoRepeats(Among(front, chosen), last);
    }
  }

  lemma SnocNoRepeats(xs: seq<string>, x: string)
    requires NoRepeats(xs)
    ensures x !in xs ==> NoRepeats(xs + [x])
  {}

  lemma ListedEntries(v: Vertex, kids: seq<Vertex>, kind: Kind)
    requires ChildListing(v, kids)
    ensures forall n :: n in EntriesIn(kids, kind) <==> ChildEntry(v, kind, n)
  {
    hide OfKind, EntryOf, DistinctIds;
    EntriesInAre(kids, kind);
    forall n | ChildEntry(v, kind, n) ensures n in EntriesIn(kids, kind) {
      var k :| k in v.vertices && OfKind(v.vertices[k], kind) && EntryOf(v.vertices[k]) == n;
      assert v.vertices[k] in kids;
    }
  }

  /** Vertices of one kind are listed differently. */
  ghost predicate EntriesDiffer(root: Vertex, kind: Kind) {
    forall v, w :: v in Subs(root) && w in Subs(root) && OfKind(v, kind) && OfKind(w, kind) && EntryOf(v) == EntryOf(w) ==> v == w
  }

  lemma NamesAreEntries(root: Vertex)
    ensures EntriesDiffer(root, NodeList) <==> NamesDiffer(root)
  {
    hide Subs;
  }

  ghost predicate EntriesNamed(kids: seq<Vertex>, kind: Kind) {
    && DistinctIds(kids)
    && forall v, w :: v in kids && w in kids && OfKind(v, kind) && OfKind(w, kind) && EntryOf(v) == EntryOf(w) ==> v == w
  }

  lemma {:induction false} EntriesNoRepeats(kids: seq<Vertex>, kind: Kind)
    requires EntriesNamed(kids, kind)
    ensures NoRepeats(EntriesIn(kids, kind))
  {
    hide OfKind, EntryOf;
    if kids != [] {
      var front, last := kids[..|kids| - 1], kids[|kids| - 1];
      assert kids == front + [last];
      EntriesNoRepeats(front, kind);
      EntriesInAre(front, kind);
      if OfKind(last, kind) {
        assert last !in front by {
          assert forall i :: 0 <= i < |front| ==> front[i] == kids[i] && kids[i].id != kids[|kids| - 1].id;
        }
        SnocNoRepeats(EntriesIn(front, kind), EntryOf(last));
      }
    }
  }

  lemma KidsNamed(root: Vertex, v: Vertex, kids: seq<Vertex>, kind: Kind)
    requires EntriesDiffer(root, kind) && v in Subs(root) && ChildListing(v, kids)
    ensures EntriesNamed(kids, kind)
  {
    hide OfKind, EntryOf, Subs, DistinctIds;
    forall w | w in kids ensures w in Subs(root) {
      SubsChild(root, v, w.id);
    }
  }

  lemma SameParent(t: Vertex, u: Vertex, v: Vertex, kind: Kind, n: string)
    requires IsTree(t) && EntriesDiffer(t, kind) && u in Subs(t) && v in Subs(t) && ChildEntry(u, kind, n) && ChildEntry(v, kind, n)
    ensures u == v
  {
    hide Subs, OfKind, EntryOf;
    var k :| k in u.vertices && OfKind(u.vertices[k], kind) && EntryOf(u.vertices[k]) == n;
    var l :| l in v.vertices && OfKind(v.vertices[l], kind) && EntryOf(v.vertices[l]) == n;
    SubsChild(t, u, k);
    SubsChild(t, v, l);
    assert k == l;
  }
}
