/**
 First occurrences in a list whose elements are classified by a key. Several passes keep the first element
 of every class and drop the rest: deduplicated tiers and merged switches.
 */
module FirstSeen {

  ghost predicate Has<T, K>(xs: seq<T>, key: T -> K, k: K) {
    exists x :: x in xs && key(x) == k
  }

  /** Keeps the first element of every class. */
  ghost function Distinct<T, K>(xs: seq<T>, key: T -> K): seq<T> {
    if xs == [] then [] else Extend(Distinct(xs[..|xs| - 1], key), key, xs[|xs| - 1])
  }

  ghost function Extend<T, K>(kept: seq<T>, key: T -> K, x: T): seq<T> {
    if Has(kept, key, key(x)) then kept else kept + [x]
  }

  /** The first element of the class of `x`. */
  ghost function First<T, K>(xs: seq<T>, key: T -> K, x: T): (y: T)
    requires x in xs
    ensures y in xs && key(y) == key(x)
  {
    if key(xs[0]) == key(x) then xs[0] else First(xs[1..], key, x)
  }

  lemma {:induction false} FirstIsEarliest<T, K>(xs: seq<T>, key: T -> K, x: T)
    requires x in xs
    ensures exists i :: 0 <= i < |xs| && xs[i] == First(xs, key, x) && forall j :: 0 <= j < i ==> key(xs[j]) != key(x)
  {
    if key(xs[0]) == key(x) {
      assert xs[0] == First(xs, key, x);
    } else {
      FirstIsEarliest(xs[1..], key, x);
      var i :| 0 <= i < |xs[1..]| && xs[1..][i] == First(xs[1..], key, x)
               && forall j :: 0 <= j < i ==> key(xs[1..][j]) != key(x);
      assert xs[i + 1] == First(xs, key, x);
      assert forall j :: 0 < j < i + 1 ==> xs[j] == xs[1..][j - 1];
    }
  }

  lemma {:induction false} FirstOfClass<T, K>(xs: seq<T>, key: T -> K, x: T, y: T)
    requires x in xs && y in xs
    ensures First(xs, key, x) == First(xs, key, y) <==> key(x) == key(y)
  {
    if key(x) == key(y) && key(xs[0]) != key(x) { FirstOfClass(xs[1..], key, x, y); }
  }

  lemma {:induction false} FirstInPrefix<T, K>(front: seq<T>, rest: seq<T>, key: T -> K, x: T)
    requires x in front
    ensures First(front + rest, key, x) == First(front, key, x)
  {
    if key(front[0]) != key(x) {
      assert (front + rest)[1..] == front[1..] + rest;
      FirstInPrefix(front[1..], rest, key, x);
    }
  }

  lemma {:induction false} FirstOfNewClass<T, K>(front: seq<T>, x: T, rest: seq<T>, key: T -> K)
    requires forall y :: y in front ==> key(y) != key(x)
    ensures First(front + [x] + rest, key, x) == x
  {
    var xs := front + [x] + rest;
    if front != [] {
      assert front[0] in front && xs[0] == front[0];
      assert xs[1..] == front[1..] + [x] + rest;
      FirstOfNewClass(front[1..], x, rest, key);
    }
  }

  lemma DistinctStep<T, K>(front: seq<T>, x: T, key: T -> K)
    ensures Distinct(front + [x], key) == Extend(Distinct(front, key), key, x)
  {
    assert (front + [x])[..|front|] == front;
  }

  lemma {:induction false} DistinctSubset<T, K>(xs: seq<T>, key: T -> K)
    ensures forall x :: x in Distinct(xs, key) ==> x in xs
    ensures forall x :: x in xs ==> Has(Distinct(xs, key), key, key(x))
  {
    if xs != [] {
      var front, x := xs[..|xs| - 1], xs[|xs| - 1];
      assert xs == front + [x];
      DistinctSubset(front, key);
      var kept := Distinct(front, key);
      assert x in kept + [x];
      assert forall y :: y in kept ==> y in kept + [x];
      forall y | y in front ensures Has(Distinct(xs, key), key, key(y)) {
        var z :| z in kept && key(z) == key(y);
        assert z in Distinct(xs, key);
      }
    }
  }

  lemma {:induction false} DistinctDiffer<T, K>(xs: seq<T>, key: T -> K)
    ensures forall a, b :: 0 <= a < b < |Distinct(xs, key)| ==> key(Distinct(xs, key)[a]) != key(Distinct(xs, key)[b])
  {
    if xs != [] {
      DistinctDiffer(xs[..|xs| - 1], key);
      var kept := Distinct(xs[..|xs| - 1], key);
      assert forall a :: 0 <= a < |kept| ==> kept[a] in kept;
    }
  }

  /** The element after `front` starts a new class. */
  lemma NewClass<T, K>(front: seq<T>, x: T, rest: seq<T>, key: T -> K)
    requires !Has(Distinct(front, key), key, key(x))
    ensures Distinct(front + [x], key) == Distinct(front, key) + [x]
    ensures First(front + [x] + rest, key, x) == x && forall y :: y in front ==> key(y) != key(x)
  {
    DistinctStep(front, x, key);
    DistinctSubset(front, key);
    FirstOfNewClass(front, x, rest, key);
  }

  /** The element after `front` belongs to the class of a kept `w`. */
  lemma OldClass<T, K>(front: seq<T>, x: T, rest: seq<T>, w: T, key: T -> K)
    requires w in Distinct(front, key) && key(w) == key(x)
    ensures Distinct(front + [x], key) == Distinct(front, key)
    ensures First(front + [x] + rest, key, x) == w
  {
    DistinctStep(front, x, key);
    KeptIsFirst(front, key, w);
    FirstInPrefix(front, [x] + rest, key, w);
    assert front + ([x] + rest) == front + [x] + rest;
    FirstOfClass(front + [x] + rest, key, x, w);
  }

  lemma {:induction false} KeptIsFirst<T, K>(xs: seq<T>, key: T -> K, x: T)
    requires x in Distinct(xs, key)
    ensures x in xs && First(xs, key, x) == x
  {
    var front, last := xs[..|xs| - 1], xs[|xs| - 1];
    assert xs == front + [last];
    DistinctSubset(xs, key);
    if x in Distinct(front, key) {
      KeptIsFirst(front, key, x);
      FirstInPrefix(front, [last], key, x);
    } else {
      NewClass(front, last, [], key);
      assert front + [last] + [] == xs;
    }
  }

  /** What is kept is exactly the first element of every class. */
  lemma DistinctAreFirst<T, K>(xs: seq<T>, key: T -> K)
    ensures forall x :: x in Distinct(xs, key) <==> x in xs && First(xs, key, x) == x
  {
    forall x | x in Distinct(xs, key) ensures x in xs && First(xs, key, x) == x {
      KeptIsFirst(xs, key, x);
    }
    forall x | x in xs && First(xs, key, x) == x ensures x in Distinct(xs, key) {
      DistinctSubset(xs, key);
      var w :| w in Distinct(xs, key) && key(w) == key(x);
      KeptIsFirst(xs, key, w);
      FirstOfClass(xs, key, x, w);
    }
  }

  /** Elements of pairwise different classes are all kept. */
  lemma {:induction false} DistinctOfDistinct<T, K>(xs: seq<T>, key: T -> K)
    requires forall a, b :: 0 <= a < b < |xs| ==> key(xs[a]) != key(xs[b])
    ensures Distinct(xs, key) == xs
  {
    if xs != [] {
      var front, x := xs[..|xs| - 1], xs[|xs| - 1];
      DistinctOfDistinct(front, key);
      assert xs == front + [x];
      DistinctStep(front, x, key);
    }
  }

  /** Keeping first elements keeps the order of a sorted list. */
  lemma {:induction false} DistinctSorted<T(!new), K>(xs: seq<T>, key: T -> K, le: (T, T) -> bool)
    requires forall i, j :: 0 <= i < j < |xs| ==> le(xs[i], xs[j])
    ensures forall i, j :: 0 <= i < j < |Distinct(xs, key)| ==> le(Distinct(xs, key)[i], Distinct(xs, key)[j])
  {
    if xs != [] {
      var front, x := xs[..|xs| - 1], xs[|xs| - 1];
      DistinctSorted(front, key, le);
      DistinctSubset(front, key);
      var kept := Distinct(front, key);
      forall i | 0 <= i < |kept| ensures le(kept[i], x) {
        assert kept[i] in front;
      }
    }
  }
}
