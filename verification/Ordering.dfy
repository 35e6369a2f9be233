/**
 Sorting as the program uses it: `sort.Strings` on the keys of a map, and `sort.Slice` with a comparison.
 Both are library calls; here they are functions whose results are determined by what a sort promises.
 */
module Ordering {

  /** The order of Go strings: lexicographic, a proper prefix first. */
  predicate Leq(a: string, b: string) {
    a == "" || (b != "" && (a[0] < b[0] || (a[0] == b[0] && Leq(a[1..], b[1..]))))
  }

  /** The first position at which `a` and `b` differ has the smaller character in `a`. */
  ghost predicate SmallerAt(a: string, b: string, i: nat) {
    i < |a| && i < |b| && a[..i] == b[..i] && a[i] < b[i]
  }

  lemma SmallerAtCons(c: char, x: string, d: char, y: string, i: nat)
    ensures SmallerAt([c] + x, [d] + y, i) <==> if i == 0 then c < d else c == d && SmallerAt(x, y, i - 1)
  {
    var a, b := [c] + x, [d] + y;
    if 0 < i < |a| && i < |b| {
      assert a[..i] == [c] + x[..i - 1] && b[..i] == [d] + y[..i - 1];
      assert a[..i][0] == c && b[..i][0] == d && a[..i][1..] == x[..i - 1] && b[..i][1..] == y[..i - 1];
    }
  }

  lemma PrefixCons(c: char, x: string, d: char, y: string)
    ensures [c] + x <= [d] + y <==> c == d && x <= y
  {
    var a, b := [c] + x, [d] + y;
    if a <= b {
      assert a == b[..|a|] && a[0] == b[0] && a[1..] == b[..|a|][1..];
      assert b[..|a|][1..] == y[..|x|] && a[1..] == x;
    }
    if c == d && x <= y {
      assert b[..|a|] == [d] + y[..|x|] && y[..|x|] == x;
    }
  }

  /** The order is that of a dictionary: prefixes first, otherwise the first difference decides. */
  lemma {:induction false} LeqIsLexicographic(a: string, b: string)
    ensures Leq(a, b) <==> a <= b || exists i: nat :: SmallerAt(a, b, i)
  {
    hide SmallerAt;
    if a != "" && b != "" {
      var x, y := a[1..], b[1..];
      assert a == [a[0]] + x && b == [b[0]] + y;
      PrefixCons(a[0], x, b[0], y);
      LeqIsLexicographic(x, y);
      SmallerAtCons(a[0], x, b[0], y, 0);
      if i: nat :| SmallerAt(a, b, i) { SmallerAtCons(a[0], x, b[0], y, i); }
      if i: nat :| SmallerAt(x, y, i) { SmallerAtCons(a[0], x, b[0], y, i + 1); }
    } else {
      NoDifference(a, b);
    }
  }

  lemma NoDifference(a: string, b: string)
    requires a == "" || b == ""
    ensures forall i: nat :: !SmallerAt(a, b, i)
    ensures a <= b <==> a == ""
  {}

  lemma LeqTotal(a: string, b: string)
    ensures Leq(a, b) || Leq(b, a)
  {}

  lemma LeqReflexive(a: string)
    ensures Leq(a, a)
  {}

  lemma LeqAntisymmetric(a: string, b: string)
    requires Leq(a, b) && Leq(b, a)
    ensures a == b
  {
    if a != "" {
      LeqAntisymmetric(a[1..], b[1..]);
      assert a == [a[0]] + a[1..] && b == [b[0]] + b[1..];
    }
  }

  lemma LeqTransitive(a: string, b: string, c: string)
    requires Leq(a, b) && Leq(b, c)
    ensures Leq(a, c)
  {}

  // ---------- sorted keys of a map ----------

  ghost predicate StrictlySorted(s: seq<string>) {
    forall i, j :: 0 <= i < j < |s| ==> Leq(s[i], s[j]) && s[i] != s[j]
  }

  lemma {:induction false} MinExists(s: set<string>)
    requires s != {}
    ensures exists m :: m in s && forall x :: x in s ==> Leq(m, x)
  {
    var y :| y in s;
    var rest := s - {y};
    LeqReflexive(y);
    if rest != {} {
      MinExists(rest);
      var m :| m in rest && forall x :: x in rest ==> Leq(m, x);
      LeqTotal(y, m);
      var least := if Leq(y, m) then y else m;
      forall x | x in s ensures Leq(least, x) {
        if x != y && least == y { LeqTransitive(y, m, x); }
      }
      assert least in s;
    } else {
      assert s == {y};
    }
  }

  function Min(s: set<string>): (m: string)
    requires s != {}
    ensures m in s && forall x :: x in s ==> Leq(m, x)
  {
    MinExists(s);
    assert forall a, b :: a in s && b in s && Leq(a, b) && Leq(b, a) ==> a == b by {
      forall a, b | a in s && b in s && Leq(a, b) && Leq(b, a) ensures a == b { LeqAntisymmetric(a, b); }
    }
    var m :| m in s && forall x :: x in s ==> Leq(m, x);
    m
  }

  /** The keys in increasing order (see SortedKeysSorted). */
  function SortedKeys(s: set<string>): (r: seq<string>)
    ensures forall x :: x in r <==> x in s
    ensures |r| == |s|
    decreases |s|
  {
    if s == {} then []
    else
      var m := Min(s);
      [m] + SortedKeys(s - {m})
  }

  lemma {:induction false} SortedKeysSorted(s: set<string>)
    ensures StrictlySorted(SortedKeys(s))
    decreases |s|
  {
    hide Leq;
    if s != {} {
      var m := Min(s);
      var r := SortedKeys(s - {m});
      SortedKeysSorted(s - {m});
      assert SortedKeys(s) == [m] + r;
      StrictlySortedCons(m, r);
    }
  }

  /** The members up to `y` in the order. */
  function KeysUpTo(s: set<string>, y: string): set<string> {
    set x | x in s && Leq(x, y)
  }

  lemma KeysUpToMin(s: set<string>, y: string)
    requires s != {} && y in s
    ensures y == Min(s) ==> KeysUpTo(s, y) == {y}
    ensures y != Min(s) ==> KeysUpTo(s, y) == {Min(s)} + KeysUpTo(s - {Min(s)}, y) && Min(s) !in KeysUpTo(s - {Min(s)}, y)
  {
    hide Leq;
    LeqReflexive(y);
    if y == Min(s) {
      forall x | x in KeysUpTo(s, y) ensures x == y { LeqAntisymmetric(x, y); }
    }
  }

  /** The i-th key has i keys before it. */
  lemma {:induction false} RankOfKey(s: set<string>, i: nat)
    requires i < |SortedKeys(s)|
    ensures |KeysUpTo(s, SortedKeys(s)[i])| == i + 1
    decreases |s|
  {
    hide Leq, KeysUpTo, SortedKeys, Min;
    var m, y := Min(s), SortedKeys(s)[i];
    var rest := s - {m};
    SortedKeysStep(s, i);
    KeysUpToMin(s, y);
    if i > 0 {
      RankOfKey(rest, i - 1);
    }
  }

  lemma SortedKeysStep(s: set<string>, i: nat)
    requires i < |SortedKeys(s)|
    ensures s != {} && SortedKeys(s)[i] in s
    ensures if i == 0 then SortedKeys(s)[i] == Min(s)
            else i - 1 < |SortedKeys(s - {Min(s)})| && SortedKeys(s)[i] == SortedKeys(s - {Min(s)})[i - 1] && SortedKeys(s)[i] != Min(s)
  {
    hide Leq;
    assert SortedKeys(s)[i] in SortedKeys(s);
    if i > 0 { assert SortedKeys(s - {Min(s)})[i - 1] in SortedKeys(s - {Min(s)}); }
  }

  /** Nothing is before the least. */
  lemma LeastAlone(s: set<string>, y: string)
    requires y in s && forall x :: x in s ==> Leq(y, x)
    ensures KeysUpTo(s, y) == {y}
  {
    hide Leq;
    forall x | x in KeysUpTo(s, y) ensures x == y { LeqAntisymmetric(x, y); }
    LeqReflexive(y);
  }

  lemma StrictlySortedCons(m: string, r: seq<string>)
    requires StrictlySorted(r) && forall x :: x in r ==> Leq(m, x) && x != m
    ensures StrictlySorted([m] + r)
  {
    hide Leq;
    forall i, j | 0 <= i < j < |[m] + r| ensures Leq(([m] + r)[i], ([m] + r)[j]) && ([m] + r)[i] != ([m] + r)[j] {
      assert r[j - 1] in r;
    }
  }

  /** A sorted listing of a set is unique, so the order in which a map yields its keys is forgotten. */
  lemma {:induction false} SortedListingUnique(a: seq<string>, b: seq<string>)
    requires StrictlySorted(a) && StrictlySorted(b)
    requires forall x :: x in a <==> x in b
    ensures a == b
  {
    if a != [] { assert a[0] in b; }
    if b != [] { assert b[0] in a; }
    if a != [] {
      var i :| 0 <= i < |b| && b[i] == a[0];
      var j :| 0 <= j < |a| && a[j] == b[0];
      if i > 0 && j > 0 { LeqAntisymmetric(a[0], b[0]); }
      assert a[0] == b[0];
      forall x ensures x in a[1..] <==> x in b[1..] {
        if x in a[1..] { assert x in a && x != a[0]; }
        if x in b[1..] { assert x in b && x != b[0]; }
      }
      SortedListingUnique(a[1..], b[1..]);
    }
  }

  lemma {:induction false} CountOfDistinct<T>(a: seq<T>)
    requires forall i, j :: 0 <= i < j < |a| ==> a[i] != a[j]
    ensures forall x :: multiset(a)[x] == if x in a then 1 else 0
  {
    if a != [] {
      CountOfDistinct(a[1..]);
      assert a == [a[0]] + a[1..];
    }
  }

  /** No repetition means no count above one. */
  lemma {:induction false} CountOnce<T>(a: seq<T>)
    ensures (forall i, j :: 0 <= i < j < |a| ==> a[i] != a[j]) <==> (forall x :: multiset(a)[x] <= 1)
  {
    if a != [] {
      var front, x := a[..|a| - 1], a[|a| - 1];
      assert a == front + [x];
      CountOnce(front);
      if forall i, j :: 0 <= i < j < |a| ==> a[i] != a[j] {
        assert forall i :: 0 <= i < |front| ==> front[i] == a[i] && a[i] != a[|a| - 1];
        assert x !in front;
      }
      if forall y :: multiset(a)[y] <= 1 {
        assert forall y :: multiset(front)[y] <= multiset(a)[y];
        assert multiset(front)[x] == 0;
        assert x !in front;
      }
    }
  }

  // ---------- sort.Slice ----------

  ghost predicate SortedBy<T(!new)>(s: seq<T>, le: (T, T) -> bool) {
    forall i, j :: 0 <= i < j < |s| ==> le(s[i], s[j])
  }

  ghost predicate TotalPreorder<T(!new)>(le: (T, T) -> bool) {
    && (forall x, y :: le(x, y) || le(y, x))
    && (forall x, y, z :: le(x, y) && le(y, z) ==> le(x, z))
  }

  function Insert<T>(x: T, ys: seq<T>, le: (T, T) -> bool): seq<T> {
    if ys == [] then [x]
    else if le(x, ys[0]) then [x] + ys
    else [ys[0]] + Insert(x, ys[1..], le)
  }

  function SortBy<T>(xs: seq<T>, le: (T, T) -> bool): seq<T> {
    if xs == [] then [] else Insert(xs[0], SortBy(xs[1..], le), le)
  }

  lemma {:induction false} InsertPermutes<T>(x: T, ys: seq<T>, le: (T, T) -> bool)
    ensures multiset(Insert(x, ys, le)) == multiset{x} + multiset(ys)
  {
    if ys != [] {
      assert ys == [ys[0]] + ys[1..];
      if !le(x, ys[0]) { InsertPermutes(x, ys[1..], le); }
    }
  }

  lemma {:induction false} SortByPermutes<T>(xs: seq<T>, le: (T, T) -> bool)
    ensures multiset(SortBy(xs, le)) == multiset(xs)
    ensures |SortBy(xs, le)| == |xs|
  {
    if xs != [] {
      SortByPermutes(xs[1..], le);
      InsertPermutes(xs[0], SortBy(xs[1..], le), le);
      assert xs == [xs[0]] + xs[1..];
    }
    assert |multiset(SortBy(xs, le))| == |multiset(xs)|;
  }

  lemma {:induction false} InsertSorted<T(!new)>(x: T, ys: seq<T>, le: (T, T) -> bool)
    requires TotalPreorder(le) && SortedBy(ys, le)
    ensures SortedBy(Insert(x, ys, le), le)
  {
    if ys != [] && !le(x, ys[0]) {
      InsertSorted(x, ys[1..], le);
      var r := Insert(x, ys[1..], le);
      forall y | y in r ensures le(ys[0], y) {
        InsertPermutes(x, ys[1..], le);
        assert y in multiset(r);
        assert y == x || y in multiset(ys[1..]);
      }
    }
  }

  lemma {:induction false} SortBySorted<T(!new)>(xs: seq<T>, le: (T, T) -> bool)
    requires TotalPreorder(le)
    ensures SortedBy(SortBy(xs, le), le)
  {
    if xs != [] {
      SortBySorted(xs[1..], le);
      InsertSorted(xs[0], SortBy(xs[1..], le), le);
    }
  }

  lemma HeadsAgree<T(!new)>(a: seq<T>, b: seq<T>, le: (T, T) -> bool)
    requires SortedBy(a, le) && SortedBy(b, le) && a != [] && b != []
    requires forall x :: x in a <==> x in b
    requires forall x, y :: x in a && y in a && le(x, y) && le(y, x) ==> x == y
    ensures a[0] == b[0]
  {
    assert a[0] in b && b[0] in a;
  }

  lemma TailMultiset<T>(a: seq<T>)
    requires a != []
    ensures multiset(a[1..]) == multiset(a) - multiset{a[0]}
  {
    assert a == [a[0]] + a[1..];
  }

  lemma SameMembers<T>(a: seq<T>, b: seq<T>)
    requires multiset(a) == multiset(b)
    ensures |a| == |b| && forall x :: x in a <==> x in b
  {
    assert |multiset(a)| == |multiset(b)|;
    assert forall x :: x in a <==> x in multiset(a);
    assert forall x :: x in b <==> x in multiset(b);
  }

  /** The first element of a permutation, taken out of the other list. */
  lemma TakeOut<T>(a: seq<T>, b: seq<T>) returns (left: seq<T>, right: seq<T>)
    requires a != [] && multiset(a) == multiset(b)
    ensures b == left + ([a[0]] + right) && multiset(a[1..]) == multiset(left + right)
  {
    SameMembers(a, b);
    assert a[0] in b;
    var i :| 0 <= i < |b| && b[i] == a[0];
    left, right := b[..i], b[i + 1..];
    assert b == left + ([a[0]] + right);
    WithoutOne(left, a[0], right);
    TailMultiset(a);
  }

  lemma WithoutOne<T>(left: seq<T>, x: T, right: seq<T>)
    ensures multiset(left + right) == multiset(left + ([x] + right)) - multiset{x}
  {
    assert multiset(left + ([x] + right)) == multiset(left) + multiset{x} + multiset(right);
  }

  /** If elements that compare equal are equal, every sorting procedure gives the same answer. */
  lemma {:induction false} SortUnique<T(!new)>(a: seq<T>, b: seq<T>, le: (T, T) -> bool)
    requires SortedBy(a, le) && SortedBy(b, le)
    requires multiset(a) == multiset(b)
    requires forall x, y :: x in a && y in a && le(x, y) && le(y, x) ==> x == y
    ensures a == b
  {
    SameMembers(a, b);
    if a != [] {
      HeadsAgree(a, b, le);
      TailMultiset(a);
      TailMultiset(b);
      SortUnique(a[1..], b[1..], le);
      assert a == [a[0]] + a[1..] && b == [b[0]] + b[1..];
    }
  }
}
