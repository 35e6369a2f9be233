/**
 Breadth-first walks that do not look back: a vertex is visited once for every way in which it is reached.
 How often that is, in any graph whose IDs identify vertices, and when it is once.
 */
module Arrivals {
  import opened Ordering
  import opened Topology
  import opened Trees

  /** How many times a visit of `u` appends each of its children to the queue. */
  ghost function Factor(m: map<string, nat>, u: Vertex): nat {
    if u.id in m then m[u.id] else 1
  }

  /** The number of visits to vertices of `s` that one visit of `u` leads to, itself included. */
  ghost function Visits(m: map<string, nat>, u: Vertex, s: set<Vertex>): nat
    decreases u, |u.vertices| + 1
  {
    (if u in s then 1 else 0) + Product(Factor(m, u), VisitsBelow(m, u, SortedKeys(u.vertices.Keys), s))
  }

  function Product(a: nat, b: nat): nat {
    a * b
  }

  ghost function VisitsBelow(m: map<string, nat>, u: Vertex, keys: seq<string>, s: set<Vertex>): nat
    requires forall k :: k in keys ==> k in u.vertices
    decreases u, |keys|
  {
    if keys == [] then 0 else Visits(m, u.vertices[keys[0]], s) + VisitsBelow(m, u, keys[1..], s)
  }

  /** The visits still to come when the queue is as given. */
  ghost function ToCome(m: map<string, nat>, queue: seq<Vertex>, s: set<Vertex>): nat {
    if queue == [] then 0 else Visits(m, queue[0], s) + ToCome(m, queue[1..], s)
  }

  /** Every visit of a vertex appends its children at least once. */
  ghost predicate Positive(m: map<string, nat>) {
    forall id :: id in m ==> m[id] > 0
  }

  // ---------- sums over queues ----------

  lemma {:induction false} ToComeConcat(m: map<string, nat>, a: seq<Vertex>, b: seq<Vertex>, s: set<Vertex>)
    ensures ToCome(m, a + b, s) == ToCome(m, a, s) + ToCome(m, b, s)
  {
    hide Visits;
    if a == [] {
      assert a + b == b;
    } else {
      assert (a + b)[1..] == a[1..] + b;
      ToComeConcat(m, a[1..], b, s);
    }
  }

  lemma ToComeOne(m: map<string, nat>, u: Vertex, s: set<Vertex>)
    ensures ToCome(m, [u], s) == Visits(m, u, s)
  {
    hide Visits;
    assert [u][1..] == [];
  }

  /** The order of the queue does not matter. */
  lemma {:induction false} ToComePermutes(m: map<string, nat>, a: seq<Vertex>, b: seq<Vertex>, s: set<Vertex>)
    requires multiset(a) == multiset(b)
    ensures ToCome(m, a, s) == ToCome(m, b, s)
  {
    hide Visits, ToCome;
    if a == [] {
      assert |multiset(a)| == |multiset(b)|;
    } else {
      var left, right := TakeOut(a, b);
      assert a == [a[0]] + a[1..];
      ToComePermutes(m, a[1..], left + right, s);
      ToComeConcat(m, [a[0]], a[1..], s);
      ToComeConcat(m, left, [a[0]] + right, s);
      ToComeConcat(m, [a[0]], right, s);
      ToComeConcat(m, left, right, s);
    }
  }

  /** The children filed under the given keys. */
  function ChildrenAt(v: Vertex, keys: seq<string>): (kids: seq<Vertex>)
    requires forall k :: k in keys ==> k in v.vertices
    ensures |kids| == |keys| && forall i :: 0 <= i < |keys| ==> kids[i] == v.vertices[keys[i]]
  {
    seq(|keys|, i requires 0 <= i < |keys| => v.vertices[keys[i]])
  }

  lemma {:induction false} ToComeOfKids(m: map<string, nat>, u: Vertex, keys: seq<string>, s: set<Vertex>)
    requires forall k :: k in keys ==> k in u.vertices
    ensures ToCome(m, ChildrenAt(u, keys), s) == VisitsBelow(m, u, keys, s)
  {
    hide Visits;
    if keys != [] {
      ToComeOfKids(m, u, keys[1..], s);
      assert ChildrenAt(u, keys)[1..] == ChildrenAt(u, keys[1..]);
    }
  }

  // ---------- a visit and its children ----------

  function Copies<T>(xs: seq<T>, n: nat): seq<T> {
    if n == 0 then [] else xs + Copies(xs, n - 1)
  }

  lemma {:induction false} CopiesCount<T>(xs: seq<T>, n: nat, x: T)
    ensures multiset(Copies(xs, n))[x] == n * multiset(xs)[x]
  {
    if n > 0 {
      CopiesCount(xs, n - 1, x);
      assert n * multiset(xs)[x] == (n - 1) * multiset(xs)[x] + multiset(xs)[x];
    }
  }

  lemma {:induction false} ToComeOfCopies(m: map<string, nat>, xs: seq<Vertex>, n: nat, s: set<Vertex>)
    ensures ToCome(m, Copies(xs, n), s) == n * ToCome(m, xs, s)
  {
    hide ToCome;
    if n == 0 {
      NothingToCome(m, s);
    } else {
      ToComeOfCopies(m, xs, n - 1, s);
      ToComeConcat(m, xs, Copies(xs, n - 1), s);
      assert n * ToCome(m, xs, s) == (n - 1) * ToCome(m, xs, s) + ToCome(m, xs, s);
    }
  }

  lemma NothingToCome(m: map<string, nat>, s: set<Vertex>)
    ensures ToCome(m, [], s) == 0
  {}

  /** `kids` holds every child of `u` exactly `n` times, and nothing else. */
  ghost predicate KidsTimes(u: Vertex, kids: seq<Vertex>, n: nat) {
    forall w :: multiset(kids)[w] == if w.id in u.vertices && u.vertices[w.id] == w then n else 0
  }

  lemma KidsOnce(u: Vertex, keys: seq<string>)
    requires (forall k :: k in keys <==> k in u.vertices) && StrictlySorted(keys)
    requires forall k :: k in u.vertices ==> u.vertices[k].id == k
    ensures KidsTimes(u, ChildrenAt(u, keys), 1)
  {
    hide Leq;
    var kids := ChildrenAt(u, keys);
    assert forall i :: 0 <= i < |keys| ==> keys[i] in keys && kids[i].id == keys[i];
    forall w ensures multiset(kids)[w] == if w.id in u.vertices && u.vertices[w.id] == w then 1 else 0 {
      CountOfDistinct(kids);
      if w.id in u.vertices && u.vertices[w.id] == w {
        var i :| 0 <= i < |keys| && keys[i] == w.id;
        assert kids[i] == w;
      }
    }
  }

  lemma KidsToCome(m: map<string, nat>, u: Vertex, kids: seq<Vertex>, n: nat, s: set<Vertex>)
    requires KidsTimes(u, kids, n) && forall k :: k in u.vertices ==> u.vertices[k].id == k
    ensures ToCome(m, kids, s) == n * VisitsBelow(m, u, SortedKeys(u.vertices.Keys), s)
  {
    hide ToCome, Copies, VisitsBelow, Visits, SortedKeys, KidsTimes, StrictlySorted;
    var keys := SortedKeys(u.vertices.Keys);
    SortedKeysSorted(u.vertices.Keys);
    KidsOnce(u, keys);
    KidsAreCopies(u, kids, ChildrenAt(u, keys), n);
    ToComePermutes(m, kids, Copies(ChildrenAt(u, keys), n), s);
    ToComeOfCopies(m, ChildrenAt(u, keys), n, s);
    ToComeOfKids(m, u, keys, s);
  }

  lemma KidsAreCopies(u: Vertex, kids: seq<Vertex>, once: seq<Vertex>, n: nat)
    requires KidsTimes(u, kids, n) && KidsTimes(u, once, 1)
    ensures multiset(kids) == multiset(Copies(once, n))
  {
    hide Copies;
    forall w ensures multiset(kids)[w] == multiset(Copies(once, n))[w] { CopiesCount(once, n, w); }
  }

  /** Visiting `u` and appending its children as often as its factor says. */
  lemma VisitAppends(m: map<string, nat>, u: Vertex, kids: seq<Vertex>, s: set<Vertex>)
    requires KidsTimes(u, kids, Factor(m, u)) && forall k :: k in u.vertices ==> u.vertices[k].id == k
    ensures Visits(m, u, s) == (if u in s then 1 else 0) + ToCome(m, kids, s)
  {
    hide Factor, ToCome, VisitsBelow, KidsTimes, SortedKeys;
    KidsToCome(m, u, kids, Factor(m, u), s);
  }

  /** Moving from the queue `[u] + rest` to `rest + kids`: one visit has been made. */
  lemma VisitFront(m: map<string, nat>, queue: seq<Vertex>, kids: seq<Vertex>, s: set<Vertex>)
    requires queue != [] && KidsTimes(queue[0], kids, Factor(m, queue[0]))
    requires forall k :: k in queue[0].vertices ==> queue[0].vertices[k].id == k
    ensures ToCome(m, queue, s) == (if queue[0] in s then 1 else 0) + ToCome(m, queue[1..] + kids, s)
  {
    hide Visits, Factor, KidsTimes;
    VisitAppends(m, queue[0], kids, s);
    ToComeConcat(m, queue[1..], kids, s);
  }

  // ---------- who is visited ----------

  lemma {:induction false} NoVisits(m: map<string, nat>, u: Vertex, s: set<Vertex>)
    requires Subs(u) !! s
    ensures Visits(m, u, s) == 0
    decreases u, |u.vertices| + 1
  {
    SubsSelf(u);
    NoVisitsBelow(m, u, SortedKeys(u.vertices.Keys), s);
  }

  lemma {:induction false} NoVisitsBelow(m: map<string, nat>, u: Vertex, keys: seq<string>, s: set<Vertex>)
    requires Subs(u) !! s && forall k :: k in keys ==> k in u.vertices
    ensures VisitsBelow(m, u, keys, s) == 0
    decreases u, |keys|
  {
    if keys != [] {
      SubsOfChild(u, keys[0]);
      NoVisits(m, u.vertices[keys[0]], s);
      NoVisitsBelow(m, u, keys[1..], s);
    }
  }

  /** One of the terms of a sum. */
  lemma {:induction false} TermOfSum(m: map<string, nat>, u: Vertex, keys: seq<string>, k: string, s: set<Vertex>)
    requires (forall l :: l in keys ==> l in u.vertices) && k in keys
    ensures Visits(m, u.vertices[k], s) <= VisitsBelow(m, u, keys, s)
  {
    hide Visits;
    if k != keys[0] {
      assert k in keys[1..];
      TermOfSum(m, u, keys[1..], k, s);
    }
  }

  lemma VisitsGrow(m: map<string, nat>, u: Vertex, s: set<Vertex>)
    requires Positive(m)
    ensures Visits(m, u, s) >= VisitsBelow(m, u, SortedKeys(u.vertices.Keys), s)
    ensures u in s ==> Visits(m, u, s) > 0
  {
    hide VisitsBelow, SortedKeys;
    PositiveProduct(Factor(m, u), VisitsBelow(m, u, SortedKeys(u.vertices.Keys), s));
  }

  lemma {:induction false} SomeVisit(m: map<string, nat>, u: Vertex, v: Vertex, s: set<Vertex>)
    requires Positive(m) && v in Subs(u) && v in s
    ensures Visits(m, u, s) > 0
    decreases u
  {
    hide Visits, VisitsBelow, SortedKeys;
    VisitsGrow(m, u, s);
    if v != u {
      var k :| k in u.vertices && v in Subs(u.vertices[k]);
      SomeVisit(m, u.vertices[k], v, s);
      TermOfSum(m, u, SortedKeys(u.vertices.Keys), k, s);
    }
  }

  lemma PositiveProduct(a: nat, b: nat)
    ensures a > 0 && b > 0 ==> a * b > 0
    ensures a > 0 ==> a * b >= b
  {}

  /** A vertex is visited if and only if it is at or below the start. */
  lemma VisitedAreBelow(m: map<string, nat>, u: Vertex, v: Vertex)
    requires Positive(m)
    ensures Visits(m, u, {v}) > 0 <==> v in Subs(u)
  {
    hide Visits, Subs;
    if v in Subs(u) { SomeVisit(m, u, v, {v}); } else { NoVisits(m, u, {v}); }
  }

  // ---------- two parents ----------

  /** Nothing is below itself. */
  lemma {:induction false} NotBelowItself(v: Vertex, k: string)
    requires k in v.vertices
    ensures v !in Subs(v.vertices[k])
    decreases v
  {
    var c := v.vertices[k];
    if v in Subs(c) && v != c {
      var l :| l in c.vertices && v in Subs(c.vertices[l]);
      SubsOfChild(v, k);
      SubsSelf(c);
      SubsTransitive(c.vertices[l], v, c);
      NotBelowItself(c, l);
    }
  }

  ghost predicate AreParents(s: set<Vertex>, x: Vertex) {
    forall p :: p in s ==> x.id in p.vertices && p.vertices[x.id] == x
  }

  lemma NoParentBelow(s: set<Vertex>, x: Vertex)
    requires AreParents(s, x)
    ensures Subs(x) !! s
  {
    hide Subs;
    forall p | p in s ensures p !in Subs(x) { NotBelowItself(p, x.id); }
  }

  /** A child is visited at least once for every visit of one of its parents. */
  lemma {:induction false} VisitsOfChild(m: map<string, nat>, u: Vertex, s: set<Vertex>, x: Vertex)
    requires Positive(m) && AreParents(s, x)
    ensures Visits(m, u, {x}) >= Visits(m, u, s)
    decreases u, |u.vertices| + 1
  {
    hide AreParents, SortedKeys, VisitsBelow;
    var keys := SortedKeys(u.vertices.Keys);
    VisitsOfChildBelow(m, u, keys, s, x);
    if u in s { ParentsHave(s, x, u); }
    ScaledMore(Factor(m, u), VisitsBelow(m, u, keys, {x}), VisitsBelow(m, u, keys, s));
  }

  lemma ParentsHave(s: set<Vertex>, x: Vertex, u: Vertex)
    requires AreParents(s, x) && u in s
    ensures x.id in u.vertices && u.vertices[x.id] == x
  {}

  lemma ScaledMore(f: nat, a: nat, b: nat)
    requires f > 0
    ensures a >= b ==> f * a >= f * b
    ensures a > b ==> f * a > f * b
  {}

  lemma {:induction false} VisitsOfChildBelow(m: map<string, nat>, u: Vertex, keys: seq<string>, s: set<Vertex>, x: Vertex)
    requires Positive(m) && AreParents(s, x) && forall k :: k in keys ==> k in u.vertices
    ensures VisitsBelow(m, u, keys, {x}) >= VisitsBelow(m, u, keys, s) + if u in s && x.id in keys then 1 else 0
    decreases u, |keys|
  {
    hide AreParents, Visits;
    if keys != [] {
      var w := u.vertices[keys[0]];
      assert keys == [keys[0]] + keys[1..];
      VisitsOfChild(m, w, s, x);
      VisitsOfChildBelow(m, u, keys[1..], s, x);
      if u in s && x.id == keys[0] {
        ParentsHave(s, x, u);
        NoParentBelow(s, x);
        NoVisits(m, x, s);
        SubsSelf(x);
        SomeVisit(m, x, x, {x});
      }
    }
  }

  lemma {:induction false} VisitsAdd(m: map<string, nat>, u: Vertex, a: set<Vertex>, b: set<Vertex>)
    requires a !! b
    ensures Visits(m, u, a + b) == Visits(m, u, a) + Visits(m, u, b)
    decreases u, |u.vertices| + 1
  {
    hide SortedKeys, VisitsBelow;
    var keys, f := SortedKeys(u.vertices.Keys), Factor(m, u);
    VisitsBelowAdd(m, u, keys, a, b);
    assert f * (VisitsBelow(m, u, keys, a) + VisitsBelow(m, u, keys, b)) == f * VisitsBelow(m, u, keys, a) + f * VisitsBelow(m, u, keys, b);
  }

  lemma {:induction false} VisitsBelowAdd(m: map<string, nat>, u: Vertex, keys: seq<string>, a: set<Vertex>, b: set<Vertex>)
    requires a !! b && forall k :: k in keys ==> k in u.vertices
    ensures VisitsBelow(m, u, keys, a + b) == VisitsBelow(m, u, keys, a) + VisitsBelow(m, u, keys, b)
    decreases u, |keys|
  {
    hide Visits;
    if keys != [] {
      VisitsAdd(m, u.vertices[keys[0]], a, b);
      VisitsBelowAdd(m, u, keys[1..], a, b);
    }
  }

  /** A vertex with two parents is visited more than once. */
  lemma TwoParentsTwoVisits(m: map<string, nat>, t: Vertex, v: Vertex, w: Vertex, x: Vertex)
    requires Positive(m) && v in Subs(t) && w in Subs(t) && v != w && AreParents({v, w}, x)
    ensures Visits(m, t, {x}) >= 2
  {
    hide Visits, Subs, AreParents;
    VisitsOfChild(m, t, {v, w}, x);
    VisitsAdd(m, t, {v}, {w});
    assert {v} + {w} == {v, w};
    VisitedAreBelow(m, t, v);
    VisitedAreBelow(m, t, w);
  }

  // ---------- one parent ----------

  ghost predicate UnitBelow(m: map<string, nat>, t: Vertex) {
    forall v :: v in Subs(t) ==> Factor(m, v) == 1
  }

  /** `q` is the only vertex of the graph that has `x` as a child. */
  ghost predicate OnlyParentIs(t: Vertex, q: Vertex, x: Vertex) {
    forall p :: p in Subs(t) && x.id in p.vertices && p.vertices[x.id] == x ==> p == q
  }

  /** A vertex with one parent is visited at most once for every child that a visit of the parent appends. */
  lemma {:induction false} VisitsByOnlyParent(m: map<string, nat>, t: Vertex, u: Vertex, q: Vertex, x: Vertex)
    requires WellFiled(t) && u in Subs(t) && OnlyParentIs(t, q, x)
    ensures Visits(m, u, {x}) <= Product(Factor(m, q), Visits(m, u, {q})) + if u == x then 1 else 0
    decreases u, |u.vertices| + 1
  {
    hide WellFiled, Subs, SortedKeys, VisitsBelow, StrictlySorted, Product;
    var keys := SortedKeys(u.vertices.Keys);
    SortedKeysSorted(u.vertices.Keys);
    VisitsBelowByOnlyParent(m, t, u, keys, q, x);
    assert x.id in u.vertices && u.vertices[x.id] == x ==> u == q;
    ScaledByParent(Factor(m, u), Factor(m, q), VisitsBelow(m, u, keys, {x}), VisitsBelow(m, u, keys, {q}), u == q);
  }

  /** `f` copies of `a`, against `g` copies of what leads there. */
  lemma ScaledByParent(f: nat, g: nat, a: nat, b: nat, one: bool)
    requires a <= Product(g, b) + (if one then 1 else 0) && (one ==> f == g)
    ensures Product(f, a) <= Product(g, (if one then 1 else 0) + Product(f, b))
  {
    var extra := if one then 1 else 0;
    assert f * a <= f * (g * b + extra) by { assert a <= g * b + extra; TimesGrows(a, g * b + extra, f); }
    assert f * (g * b + extra) == f * (g * b) + f * extra;
    assert g * (extra + f * b) == g * extra + g * (f * b);
    assert f * (g * b) == g * (f * b);
  }

  lemma TimesGrows(a: nat, b: nat, f: nat)
    requires a <= b
    ensures f * a <= f * b
  {}

  lemma {:induction false} VisitsBelowByOnlyParent(m: map<string, nat>, t: Vertex, u: Vertex, keys: seq<string>, q: Vertex, x: Vertex)
    requires WellFiled(t) && u in Subs(t) && OnlyParentIs(t, q, x)
    requires (forall k :: k in keys ==> k in u.vertices) && StrictlySorted(keys)
    ensures VisitsBelow(m, u, keys, {x}) <= Product(Factor(m, q), VisitsBelow(m, u, keys, {q}))
                                            + if x.id in keys && u.vertices[x.id] == x then 1 else 0
    decreases u, |keys|
  {
    hide Visits, OnlyParentIs, Subs, Leq, Factor;
    if keys != [] {
      var w := u.vertices[keys[0]];
      FiledChild(t, u, keys[0]);
      VisitsByOnlyParent(m, t, w, q, x);
      assert keys == [keys[0]] + keys[1..];
      assert keys[0] !in keys[1..];
      VisitsBelowByOnlyParent(m, t, u, keys[1..], q, x);
      ProductAdds(Factor(m, q), Visits(m, w, {q}), VisitsBelow(m, u, keys[1..], {q}));
    }
  }

  lemma ProductAdds(f: nat, a: nat, b: nat)
    ensures Product(f, a + b) == Product(f, a) + Product(f, b)
  {}

  lemma FiledChild(t: Vertex, u: Vertex, k: string)
    requires WellFiled(t) && u in Subs(t) && k in u.vertices
    ensures u.vertices[k].id == k && u.vertices[k] in Subs(t)
  {
    hide Subs;
    SubsChild(t, u, k);
  }

  lemma FiledKids(t: Vertex, u: Vertex)
    requires WellFiled(t) && u in Subs(t)
    ensures forall k :: k in u.vertices ==> u.vertices[k].id == k && u.vertices[k] in Subs(t)
  {
    hide Subs;
    forall k | k in u.vertices ensures u.vertices[k] in Subs(t) { SubsChild(t, u, k); }
  }

  lemma SmallProduct(a: nat, b: nat)
    requires a <= 1 && b <= 1
    ensures Product(a, b) <= 1
  {}

  lemma OnlyParentInTree(t: Vertex, u: Vertex, w: Vertex)
    requires IsTree(t) && u in Subs(t) && w.id in u.vertices && u.vertices[w.id] == w
    ensures OnlyParentIs(t, u, w) && t != w
  {
    hide Subs;
  }

  lemma UnitAt(m: map<string, nat>, t: Vertex, u: Vertex)
    requires UnitBelow(m, t) && u in Subs(t)
    ensures Factor(m, u) == 1
  {
    hide Subs;
  }

  /** Down a tree, what is visited at most once leads to visits at most once. */
  lemma {:induction false} AtMostOnce(m: map<string, nat>, t: Vertex, u: Vertex, x: Vertex)
    requires IsTree(t) && UnitBelow(m, t) && u in Subs(t) && x in Subs(u) && Visits(m, t, {u}) <= 1
    ensures Visits(m, t, {x}) <= 1
    decreases u
  {
    hide Visits, UnitBelow, Product, WellFiled, OneParent;
    if x != u {
      var k :| k in u.vertices && x in Subs(u.vertices[k]);
      var w := u.vertices[k];
      FiledChild(t, u, k);
      SubsSelf(t);
      OnlyParentInTree(t, u, w);
      VisitsByOnlyParent(m, t, t, u, w);
      UnitAt(m, t, u);
      SmallProduct(Factor(m, u), Visits(m, t, {u}));
      AtMostOnce(m, t, w, x);
    }
  }

  lemma {:induction false} RootOnce(m: map<string, nat>, t: Vertex)
    ensures Visits(m, t, {t}) == 1
  {
    hide SortedKeys, VisitsBelow;
    var keys := SortedKeys(t.vertices.Keys);
    RootNotBelow(m, t, keys);
    assert Factor(m, t) * 0 == 0;
  }

  lemma {:induction false} RootNotBelow(m: map<string, nat>, t: Vertex, keys: seq<string>)
    requires forall k :: k in keys ==> k in t.vertices
    ensures VisitsBelow(m, t, keys, {t}) == 0
  {
    hide Visits, Subs;
    if keys != [] {
      NotBelowItself(t, keys[0]);
      NoVisits(m, t.vertices[keys[0]], {t});
      RootNotBelow(m, t, keys[1..]);
    }
  }

  /** Every vertex is visited exactly once. */
  ghost predicate AllOnce(m: map<string, nat>, t: Vertex) {
    forall v :: v in Subs(t) ==> Visits(m, t, {v}) == 1
  }

  lemma TreeOnce(m: map<string, nat>, t: Vertex)
    requires IsTree(t) && UnitBelow(m, t) && Positive(m)
    ensures AllOnce(m, t)
  {
    hide Visits, Subs, WellFiled, OneParent;
    RootOnce(m, t);
    SubsSelf(t);
    forall v | v in Subs(t) ensures Visits(m, t, {v}) == 1 {
      AtMostOnce(m, t, t, v);
      VisitedAreBelow(m, t, v);
    }
  }

  lemma OnceIsTree(m: map<string, nat>, t: Vertex)
    requires WellFiled(t) && Positive(m) && AllOnce(m, t)
    ensures OneParent(t)
  {
    hide Visits, Subs;
    forall v, w, k | v in Subs(t) && w in Subs(t) && k in v.vertices && k in w.vertices ensures v == w {
      FiledChild(t, v, k);
      FiledChild(t, w, k);
      if v != w { TwoParentsTwoVisits(m, t, v, w, v.vertices[k]); }
    }
    forall v | v in Subs(t) ensures t.id !in v.vertices {
      SubsSelf(t);
      if t.id in v.vertices {
        FiledChild(t, v, t.id);
        NotBelowItself(v, t.id);
      }
    }
  }

  // ---------- loading and printing ----------

  /** The number of paths from the root: how often loading visits a vertex. */
  ghost function Paths(t: Vertex, v: Vertex): nat {
    Visits(map[], t, {v})
  }

  ghost function WithId(t: Vertex, id: string): set<Vertex> {
    set v | v in Subs(t) && v.id == id
  }

  /** How often every child of a vertex is listed once the graph has been loaded. */
  ghost function Listings(t: Vertex): map<string, nat> {
    map id | id in (set v | v in Subs(t) :: v.id) :: Visits(map[], t, WithId(t, id))
  }

  /** How often a vertex is written when the loaded lists are followed. */
  ghost function Writings(t: Vertex, v: Vertex): nat {
    Visits(Listings(t), t, {v})
  }

  lemma ListingsAre(t: Vertex, v: Vertex)
    requires WellFiled(t) && v in Subs(t)
    ensures Factor(Listings(t), v) == Paths(t, v)
  {
    hide Subs, Visits;
    assert WithId(t, v.id) == {v};
  }

  lemma ListingsPositive(t: Vertex)
    ensures Positive(Listings(t))
  {
    hide Subs, Visits;
    forall id | id in Listings(t) ensures Listings(t)[id] > 0 {
      var v :| v in Subs(t) && v.id == id;
      SomeVisit(map[], t, v, WithId(t, id));
    }
  }

  /** Loading visits every vertex once exactly if no vertex has two parents. */
  lemma LoadedOnce(t: Vertex)
    requires WellFiled(t)
    ensures (forall v :: v in Subs(t) ==> Paths(t, v) == 1) <==> OneParent(t)
  {
    hide Subs, Visits, WellFiled, OneParent;
    if OneParent(t) { TreeOnce(map[], t); }
    if forall v :: v in Subs(t) ==> Paths(t, v) == 1 { OnceIsTree(map[], t); }
  }

  /** Every vertex is written exactly once if and only if no vertex has two parents. */
  lemma WrittenOnce(t: Vertex)
    requires WellFiled(t)
    ensures (forall v :: v in Subs(t) ==> Writings(t, v) == 1) <==> OneParent(t)
  {
    hide Subs, Visits, WellFiled, OneParent, Factor, Listings;
    ListingsPositive(t);
    if OneParent(t) {
      LoadedOnce(t);
      forall v | v in Subs(t) ensures Factor(Listings(t), v) == 1 { ListingsAre(t, v); }
      TreeOnce(Listings(t), t);
    }
    if forall v :: v in Subs(t) ==> Writings(t, v) == 1 { OnceIsTree(Listings(t), t); }
  }

  /** A vertex with two parents is written more than once. */
  lemma SharedIsRepeated(t: Vertex, v: Vertex, w: Vertex, x: Vertex)
    requires v in Subs(t) && w in Subs(t) && v != w && AreParents({v, w}, x)
    ensures Paths(t, x) >= 2 && Writings(t, x) >= 2
  {
    hide Subs, Visits, Listings;
    ListingsPositive(t);
    TwoParentsTwoVisits(map[], t, v, w, x);
    TwoParentsTwoVisits(Listings(t), t, v, w, x);
  }
}
