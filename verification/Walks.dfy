/**
 Breadth-first loops over lists of IDs that keep no record of what they have seen
 (`pkg/translate/topology.go`, `pkg/translate/tree.go`), and when they end.
 */
module Walks {
  import opened Ordering

  function ListAt(lists: map<string, seq<string>>, id: string): seq<string> {
    if id in lists then lists[id] else []
  }

  /** One round: the first of the queue is left, and what is listed for it is appended, in some order. */
  ghost predicate WalkStep(lists: map<string, seq<string>>, queue: seq<string>, next: seq<string>) {
    queue != [] && exists kids :: multiset(kids) == multiset(ListAt(lists, queue[0])) && next == queue[1..] + kids
  }

  /** A run of the loop, from the queue that holds the root. */
  ghost predicate IsWalk(lists: map<string, seq<string>>, root: string, run: seq<seq<string>>) {
    run != [] && run[0] == [root] && forall i, j :: 0 <= i && j == i + 1 && j < |run| ==> WalkStep(lists, run[i], run[j])
  }

  ghost predicate WalksWithin(lists: map<string, seq<string>>, root: string, n: nat) {
    forall run :: IsWalk(lists, root, run) ==> |run| <= n
  }

  /** A way down, from list to list. */
  ghost predicate IsWay(lists: map<string, seq<string>>, way: seq<string>) {
    way != [] && forall i, j :: 0 <= i && j == i + 1 && j < |way| ==> way[j] in ListAt(lists, way[i])
  }

  ghost predicate Repeating(way: seq<string>) {
    exists i, j :: 0 <= i < j < |way| && way[i] == way[j]
  }

  /** Some way down from the root comes to an ID twice. */
  ghost predicate ComesBack(lists: map<string, seq<string>>, root: string) {
    exists way :: way != [] && way[0] == root && IsWay(lists, way) && Repeating(way)
  }

  lemma WayStep(lists: map<string, seq<string>>, way: seq<string>, i: nat)
    requires IsWay(lists, way) && i + 1 < |way|
    ensures way[i + 1] in ListAt(lists, way[i])
  {
    var next := i + 1;
    assert way[next] in ListAt(lists, way[i]);
  }

  lemma WayDown(lists: map<string, seq<string>>, p: string, way: seq<string>)
    requires IsWay(lists, way) && way[0] in ListAt(lists, p)
    ensures IsWay(lists, [p] + way)
  {
    hide ListAt;
    var more := [p] + way;
    forall i, j | 0 <= i && j == i + 1 && j < |more| ensures more[j] in ListAt(lists, more[i]) {
      if i > 0 { WayStep(lists, way, i - 1); }
    }
  }

  // ---------- a way that comes back is a trap ----------

  /** IDs that can always be left for another one of them; the root is one. */
  ghost predicate Trap(lists: map<string, seq<string>>, root: string, ids: set<string>) {
    root in ids && forall x :: x in ids ==> exists c :: c in ids && c in ListAt(lists, x)
  }

  lemma BackIsTrap(lists: map<string, seq<string>>, root: string) returns (ids: set<string>)
    requires ComesBack(lists, root)
    ensures Trap(lists, root, ids)
  {
    hide ListAt, IsWay;
    var way :| IsWay(lists, way) && way != [] && way[0] == root && Repeating(way);
    var i: nat, j: nat :| i < j < |way| && way[i] == way[j];
    ids := set x | x in way[..j];
    assert way[..j][0] == root;
    forall x | x in ids ensures exists c :: c in ids && c in ListAt(lists, x) {
      var a: nat :| a < j && way[..j][a] == x;
      WayStep(lists, way, a);
      var c := if a + 1 < j then a + 1 else i;
      assert way[..j][c] == way[a + 1];
    }
  }

  lemma WalkFront(lists: map<string, seq<string>>, root: string, run: seq<seq<string>>)
    requires IsWalk(lists, root, run) && |run| > 1
    ensures IsWalk(lists, root, run[..|run| - 1]) && WalkStep(lists, run[|run| - 2], run[|run| - 1])
  {
    hide WalkStep;
    var i, j := |run| - 2, |run| - 1;
    assert j == i + 1;
  }

  lemma WalkOn(lists: map<string, seq<string>>, root: string, run: seq<seq<string>>, next: seq<string>)
    requires IsWalk(lists, root, run) && WalkStep(lists, run[|run| - 1], next)
    ensures IsWalk(lists, root, run + [next])
  {
    hide WalkStep;
  }

  lemma TrapHasRoot(lists: map<string, seq<string>>, root: string, ids: set<string>)
    requires Trap(lists, root, ids)
    ensures root in ids
  {}

  lemma TrappedStep(lists: map<string, seq<string>>, root: string, ids: set<string>, queue: seq<string>, next: seq<string>, x: string)
    requires Trap(lists, root, ids) && WalkStep(lists, queue, next) && x in ids && x in queue
    ensures exists y :: y in ids && y in next
  {
    hide ListAt;
    var kids :| multiset(kids) == multiset(ListAt(lists, queue[0])) && next == queue[1..] + kids;
    if x == queue[0] {
      var c :| c in ids && c in ListAt(lists, x);
      assert multiset(kids)[c] > 0;
      assert c in kids;
    } else {
      assert x in queue[1..];
      assert x in next;
    }
  }

  /** A walk never leaves a trap, so its queue is never empty. */
  lemma {:induction false} StaysTrapped(lists: map<string, seq<string>>, root: string, ids: set<string>, run: seq<seq<string>>)
    requires Trap(lists, root, ids) && IsWalk(lists, root, run)
    ensures exists x :: x in ids && x in run[|run| - 1]
  {
    hide Trap, WalkStep;
    if |run| == 1 {
      assert root in run[0] && root in ids by { TrapHasRoot(lists, root, ids); }
    } else {
      WalkFront(lists, root, run);
      StaysTrapped(lists, root, ids, run[..|run| - 1]);
      var x :| x in ids && x in run[|run| - 2];
      TrappedStep(lists, root, ids, run[|run| - 2], run[|run| - 1], x);
    }
  }

  lemma {:induction false} LongWalk(lists: map<string, seq<string>>, root: string, ids: set<string>, n: nat) returns (run: seq<seq<string>>)
    requires Trap(lists, root, ids)
    ensures IsWalk(lists, root, run) && |run| == n + 1
  {
    hide Trap, ListAt;
    if n == 0 {
      run := [[root]];
    } else {
      run := LongWalk(lists, root, ids, n - 1);
      StaysTrapped(lists, root, ids, run);
      var queue := run[|run| - 1];
      var next := queue[1..] + ListAt(lists, queue[0]);
      assert WalkStep(lists, queue, next);
      WalkOn(lists, root, run, next);
      run := run + [next];
    }
  }

  // ---------- without one, the ways down are short ----------

  /** No way down from the ID has more than `n` steps. */
  ghost predicate Short(lists: map<string, seq<string>>, id: string, n: nat) {
    forall way :: IsWay(lists, way) && way[0] == id ==> |way| <= n + 1
  }

  lemma ShortBelow(lists: map<string, seq<string>>, p: string, c: string, n: nat)
    requires Short(lists, p, n) && c in ListAt(lists, p)
    ensures n > 0 && Short(lists, c, n - 1)
  {
    hide ListAt;
    WayDown(lists, p, [c]);
    assert ([p] + [c])[0] == p;
    forall way | IsWay(lists, way) && way[0] == c ensures |way| <= n {
      WayDown(lists, p, way);
      assert ([p] + way)[0] == p;
    }
  }

  /** All IDs that are listed. */
  function ListedIds(lists: map<string, seq<string>>): set<string> {
    set p, c | p in lists && c in lists[p] :: c
  }

  lemma {:induction false} DistinctFit(a: seq<string>, s: set<string>)
    requires (forall i, j :: 0 <= i < j < |a| ==> a[i] != a[j]) && forall x :: x in a ==> x in s
    ensures |a| <= |s|
  {
    if a != [] {
      DistinctFit(a[1..], s - {a[0]});
    }
  }

  lemma WaysAreShort(lists: map<string, seq<string>>, root: string)
    requires !ComesBack(lists, root)
    ensures Short(lists, root, |ListedIds(lists)|)
  {
    forall way | IsWay(lists, way) && way[0] == root ensures |way| <= |ListedIds(lists)| + 1 {
      assert !Repeating(way);
      forall x | x in way[1..] ensures x in ListedIds(lists) {
        var i: nat :| i + 1 < |way| && way[i + 1] == x;
        WayStep(lists, way, i);
      }
      DistinctFit(way[1..], ListedIds(lists));
    }
  }

  // ---------- and a walk is as long as there are ways ----------

  /** The visits to come from one visit, down to depth `n`. */
  function VisitsFrom(lists: map<string, seq<string>>, id: string, n: nat): nat
    decreases n, 0
  {
    1 + if n == 0 then 0 else VisitsOf(lists, ListAt(lists, id), n - 1)
  }

  function VisitsOf(lists: map<string, seq<string>>, queue: seq<string>, n: nat): nat
    decreases n, |queue|
  {
    if queue == [] then 0 else VisitsFrom(lists, queue[0], n) + VisitsOf(lists, queue[1..], n)
  }

  lemma {:induction false} VisitsConcat(lists: map<string, seq<string>>, a: seq<string>, b: seq<string>, n: nat)
    ensures VisitsOf(lists, a + b, n) == VisitsOf(lists, a, n) + VisitsOf(lists, b, n)
  {
    hide VisitsFrom;
    if a == [] {
      assert a + b == b;
    } else {
      assert (a + b)[1..] == a[1..] + b;
      VisitsConcat(lists, a[1..], b, n);
    }
  }

  lemma {:induction false} VisitsPermute(lists: map<string, seq<string>>, a: seq<string>, b: seq<string>, n: nat)
    requires multiset(a) == multiset(b)
    ensures VisitsOf(lists, a, n) == VisitsOf(lists, b, n)
  {
    hide VisitsFrom, VisitsOf;
    if a == [] {
      assert |multiset(a)| == |multiset(b)|;
    } else {
      var left, right := TakeOut(a, b);
      assert a == [a[0]] + a[1..];
      VisitsPermute(lists, a[1..], left + right, n);
      VisitsConcat(lists, [a[0]], a[1..], n);
      VisitsConcat(lists, left, [a[0]] + right, n);
      VisitsConcat(lists, [a[0]], right, n);
      VisitsConcat(lists, left, right, n);
    }
  }

  lemma {:induction false} DepthEnough(lists: map<string, seq<string>>, id: string, n: nat)
    requires Short(lists, id, n)
    ensures VisitsFrom(lists, id, n + 1) == VisitsFrom(lists, id, n)
    decreases n, 0
  {
    hide Short, ListAt;
    var list := ListAt(lists, id);
    if n == 0 {
      if list != [] { ShortBelow(lists, id, list[0], n); }
    } else {
      forall c | c in list ensures Short(lists, c, n - 1) { ShortBelow(lists, id, c, n); }
      DepthsEnough(lists, list, n - 1);
    }
  }

  lemma {:induction false} DepthsEnough(lists: map<string, seq<string>>, queue: seq<string>, n: nat)
    requires forall c :: c in queue ==> Short(lists, c, n)
    ensures VisitsOf(lists, queue, n + 1) == VisitsOf(lists, queue, n)
    decreases n, |queue| + 1
  {
    hide Short, VisitsFrom;
    if queue != [] {
      DepthEnough(lists, queue[0], n);
      DepthsEnough(lists, queue[1..], n);
    }
  }

  ghost predicate AllShort(lists: map<string, seq<string>>, queue: seq<string>, n: nat) {
    forall x :: x in queue ==> Short(lists, x, n)
  }

  lemma ShortEnough(lists: map<string, seq<string>>, id: string, n: nat, m: nat)
    requires Short(lists, id, n) && n <= m
    ensures Short(lists, id, m)
  {}

  lemma StepCounts(lists: map<string, seq<string>>, queue: seq<string>, next: seq<string>, n: nat)
    requires WalkStep(lists, queue, next) && AllShort(lists, queue, n)
    ensures AllShort(lists, next, n) && VisitsOf(lists, next, n) + 1 == VisitsOf(lists, queue, n)
  {
    hide Short, ListAt;
    var u := queue[0];
    var kids :| multiset(kids) == multiset(ListAt(lists, u)) && next == queue[1..] + kids;
    forall x | x in next ensures Short(lists, x, n) {
      if x in queue[1..] {
        assert x in queue;
      } else {
        assert multiset(kids)[x] > 0;
        ShortBelow(lists, u, x, n);
        ShortEnough(lists, x, n - 1, n);
      }
    }
    DepthEnough(lists, u, n);
    VisitsPermute(lists, kids, ListAt(lists, u), n);
    VisitsConcat(lists, queue[1..], kids, n);
  }

  lemma {:induction false} WalkLength(lists: map<string, seq<string>>, root: string, run: seq<seq<string>>, n: nat)
    requires Short(lists, root, n) && IsWalk(lists, root, run)
    ensures AllShort(lists, run[|run| - 1], n) && |run| + VisitsOf(lists, run[|run| - 1], n) == 1 + VisitsOf(lists, [root], n)
  {
    hide Short, WalkStep, VisitsOf;
    if |run| > 1 {
      WalkFront(lists, root, run);
      WalkLength(lists, root, run[..|run| - 1], n);
      StepCounts(lists, run[|run| - 2], run[|run| - 1], n);
    }
  }

  /** The loop ends, whatever the order of the lists, if and only if no way down from the root comes to an ID twice. */
  lemma WalksEnd(lists: map<string, seq<string>>, root: string)
    ensures !ComesBack(lists, root) <==> exists n: nat :: WalksWithin(lists, root, n)
    ensures ComesBack(lists, root) ==> forall run :: IsWalk(lists, root, run) ==> run[|run| - 1] != []
  {
    hide IsWalk, Trap, ComesBack, VisitsOf, Short;
    if ComesBack(lists, root) {
      var ids := BackIsTrap(lists, root);
      forall run | IsWalk(lists, root, run) ensures run != [] && run[|run| - 1] != [] { WalkNotEmpty(lists, root, run); }
      forall n: nat ensures !WalksWithin(lists, root, n) {
        var run := LongWalk(lists, root, ids, n);
      }
    } else {
      var n := |ListedIds(lists)|;
      WaysAreShort(lists, root);
      forall run | IsWalk(lists, root, run) ensures |run| <= 1 + VisitsOf(lists, [root], n) { WalkBounded(lists, root, run, n); }
      assert WalksWithin(lists, root, 1 + VisitsOf(lists, [root], n));
    }
  }

  lemma WalkNotEmpty(lists: map<string, seq<string>>, root: string, run: seq<seq<string>>)
    requires ComesBack(lists, root) && IsWalk(lists, root, run)
    ensures run != [] && run[|run| - 1] != []
  {
    hide ComesBack;
    var ids := BackIsTrap(lists, root);
    WalkTrapped(lists, root, ids, run);
  }

  lemma WalkTrapped(lists: map<string, seq<string>>, root: string, ids: set<string>, run: seq<seq<string>>)
    requires Trap(lists, root, ids) && IsWalk(lists, root, run)
    ensures run != [] && run[|run| - 1] != []
  {
    hide Trap;
    StaysTrapped(lists, root, ids, run);
  }

  lemma WalkBounded(lists: map<string, seq<string>>, root: string, run: seq<seq<string>>, n: nat)
    requires Short(lists, root, n) && IsWalk(lists, root, run)
    ensures |run| <= 1 + VisitsOf(lists, [root], n)
  {
    hide Short, VisitsOf;
    WalkLength(lists, root, run, n);
  }

  /** Lists that always lead to a lower rank do not come back. */
  lemma {:induction false} RanksDescend(lists: map<string, seq<string>>, rank: string -> nat, way: seq<string>, i: nat, j: nat)
    requires IsWay(lists, way) && i < j < |way| && forall p, c :: c in ListAt(lists, p) ==> rank(c) < rank(p)
    ensures rank(way[j]) < rank(way[i])
    decreases j
  {
    hide ListAt;
    WayStep(lists, way, j - 1);
    if i < j - 1 { RanksDescend(lists, rank, way, i, j - 1); }
  }

  lemma RankedEnds(lists: map<string, seq<string>>, root: string, rank: string -> nat)
    requires forall p, c :: c in ListAt(lists, p) ==> rank(c) < rank(p)
    ensures !ComesBack(lists, root)
  {
    hide ListAt, IsWay;
    forall way: seq<string> | IsWay(lists, way) ensures !Repeating(way) {
      forall i: nat, j: nat | i < j < |way| ensures way[i] != way[j] { RanksDescend(lists, rank, way, i, j); }
    }
  }
}
