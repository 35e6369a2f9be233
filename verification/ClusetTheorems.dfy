/** Expanding a compacted list: exactly when the names come back, and why the compact form is canonical and minimal. */
module ClusetTheorems {
  import opened ClusetEntries
  import opened ClusetRuns
  import opened ClusetSpec
  import opened Numerals
  import opened Ordering
  import opened Text

  // ---------- the inputs in question ----------

  /** No opening brackets, numerals fit in an int, and under one prefix no value is written in two ways. */
  ghost predicate Tame(xs: seq<string>) {
    && (forall x :: x in xs ==> '[' !in x && (Numbered(x) ==> Val(Numeral(x)) < MAX_INT))
    && (forall x, y :: x in xs && y in xs && SamePrefix(x, y) && Val(Numeral(x)) == Val(Numeral(y)) ==> x == y)
  }

  ghost predicate SamePrefix(x: string, y: string) {
    Numbered(x) && Numbered(y) && Prefix(x) == Prefix(y)
  }

  /** A name without a numeral occurs once and is not the prefix of a name with one. */
  ghost predicate Clean(xs: seq<string>) {
    forall y :: y in xs && !Numbered(y) ==> multiset(xs)[y] == 1 && forall x :: x in xs && Numbered(x) ==> Prefix(x) != y
  }

  /** Under one prefix, a numeral one above another is padded like it. */
  ghost predicate Aligned(xs: seq<string>) {
    forall x, y :: x in xs && y in xs && SamePrefix(x, y) && Continues(Numeral(x), Numeral(y))
      ==> Numeral(y) == Pad(|Numeral(x)|, Val(Numeral(y)))
  }

  // ---------- names, prefixes and groups ----------

  lemma NameParts(x: string)
    requires Numbered(x)
    ensures x == Prefix(x) + Numeral(x) && IsPrefix(Prefix(x)) && AllDigits(Numeral(x)) && Numeral(x) != ""
  {}

  ghost predicate IsPrefix(p: string) {
    '\n' !in p && (p == "" || !IsDigit(p[|p| - 1]))
  }

  lemma {:induction false} DigitsFromEnd(p: string, d: string)
    requires AllDigits(d) && (p == "" || !IsDigit(p[|p| - 1]))
    ensures DigitsFrom(p + d) == |p|
    decreases |d|
  {
    if d != "" {
      assert (p + d)[..|p + d| - 1] == p + d[..|d| - 1];
      DigitsFromEnd(p, d[..|d| - 1]);
    } else {
      assert p + d == p;
    }
  }

  lemma PartsOfName(p: string, d: string)
    requires IsPrefix(p) && AllDigits(d) && d != ""
    ensures Numbered(p + d) && Prefix(p + d) == p && Numeral(p + d) == d
  {
    DigitsFromEnd(p, d);
    assert (p + d)[..|p|] == p && (p + d)[|p|..] == d;
  }

  lemma PrefixIsNoNumber(p: string)
    requires IsPrefix(p)
    ensures !Numbered(p)
  {}

  /** Where the groups and their numerals come from. */
  lemma {:induction false} GroupOrigin(xs: seq<string>)
    ensures forall x :: x in xs ==> Prefix(x) in Groups(xs)
    ensures forall p :: p in Groups(xs) ==> exists x :: x in xs && Prefix(x) == p
    ensures forall p, m :: p in Groups(xs) && m in Groups(xs)[p] ==> exists x :: x in xs && Numbered(x) && Prefix(x) == p && Numeral(x) == m
    ensures forall p :: p in Groups(xs) && Groups(xs)[p] == [] ==> p in xs && !Numbered(p)
    ensures forall p :: p in Groups(xs) && Groups(xs)[p] != [] ==> exists x :: x in xs && Numbered(x) && Prefix(x) == p
  {
    hide Numbered, Prefix, Numeral;
    if xs != [] {
      var front, x := xs[..|xs| - 1], xs[|xs| - 1];
      assert xs == front + [x];
      GroupOrigin(front);
      PlainPrefix(x);
    }
  }

  lemma PlainPrefix(x: string)
    ensures !Numbered(x) ==> Prefix(x) == x
  {}

  /** A group that no plain name has emptied counts every numbered name as often as the input does. */
  lemma {:induction false} GroupCounts(xs: seq<string>, p: string, x: string)
    requires p !in xs && Numbered(x) && Prefix(x) == p
    ensures multiset(xs)[x] == if p in Groups(xs) then multiset(Groups(xs)[p])[Numeral(x)] else 0
  {
    hide Numbered, Prefix, Numeral;
    if xs != [] {
      var front, y := xs[..|xs| - 1], xs[|xs| - 1];
      assert xs == front + [y];
      GroupCounts(front, p, x);
      if y != x && Numbered(y) && Prefix(y) == p && Numeral(y) == Numeral(x) {
        NameParts(x);
        NameParts(y);
      }
    }
  }

  // ---------- how often a name is read back ----------

  ghost predicate GoodGroup(p: string, ns: seq<string>) {
    && '[' !in p && AllFit(ns)
    && (ns != [] ==> IsPrefix(p))
    && (ns == [] ==> !Numbered(p))
  }

  lemma SortedMembers(ns: seq<string>)
    ensures multiset(Sorted(ns)) == multiset(ns) && |Sorted(ns)| == |ns| && forall m :: m in Sorted(ns) <==> m in ns
  {
    SortByPermutes(ns, ByValue);
    SameMembers(Sorted(ns), ns);
  }

  lemma NamesOfGroup(p: string, ns: seq<string>)
    requires GoodGroup(p, ns)
    ensures forall z :: z in GroupNames(p, ns) ==> Prefix(z) == p && (Numbered(z) <==> ns != [])
  {
    hide Numbered, Prefix, Val, IsPrefix, ReadBack;
    if ns == [] {
      PlainPrefix(p);
    } else {
      ReadBackValues(ns);
      forall z | z in GroupNames(p, ns) ensures Prefix(z) == p && Numbered(z) {
        var i :| 0 <= i < |ReadBack(ns)| && z == p + ReadBack(ns)[i];
        PartsOfName(p, ReadBack(ns)[i]);
      }
    }
  }

  lemma {:induction false} PrefixedCount(p: string, ms: seq<string>, d: string)
    ensures multiset(Prefixed(p, ms))[p + d] == multiset(ms)[d]
  {
    if ms != [] {
      var front, m := ms[..|ms| - 1], ms[|ms| - 1];
      PrefixedCount(p, front, d);
      assert ms == front + [m] && Prefixed(p, ms) == Prefixed(p, front) + [p + m];
      if p + m == p + d {
        assert m == (p + m)[|p|..] && d == (p + d)[|p|..];
      }
    }
  }

  ghost predicate AllGood(groups: map<string, seq<string>>) {
    forall p :: p in groups ==> GoodGroup(p, groups[p])
  }

  lemma {:induction false} ExpandCounts(groups: map<string, seq<string>>, ps: seq<string>, y: string)
    requires AllGood(groups) && forall p :: p in ps ==> p in groups
    requires forall i, j :: 0 <= i < j < |ps| ==> ps[i] != ps[j]
    ensures multiset(Expand(Entries(groups, ps)))[y]
         == if Prefix(y) in ps then multiset(GroupNames(Prefix(y), Sorted(groups[Prefix(y)])))[y] else 0
  {
    hide Prefix, GroupNames, Sorted, Compressed, ExpandEntry, GoodGroup;
    if ps != [] {
      var front, p := ps[..|ps| - 1], ps[|ps| - 1];
      assert ps == front + [p];
      ExpandCounts(groups, front, y);
      assert Entries(groups, ps)[..|ps| - 1] == Entries(groups, front);
      assert p in ps;
      GroupReadsBack(groups, p);
      assert multiset(Expand(Entries(groups, ps))) ==
             multiset(Expand(Entries(groups, front))) + multiset(GroupNames(p, Sorted(groups[p])));
      if Prefix(y) != p { assert y !in GroupNames(p, Sorted(groups[p])); }
    }
  }

  lemma GroupReadsBack(groups: map<string, seq<string>>, p: string)
    requires AllGood(groups) && p in groups
    ensures ExpandEntry(p + Compressed(Sorted(groups[p]))) == GroupNames(p, Sorted(groups[p]))
    ensures forall z :: z in GroupNames(p, Sorted(groups[p])) ==> Prefix(z) == p
  {
    hide Prefix, GroupNames, Sorted, Compressed, ExpandEntry, Numbered, Val;
    assert GoodGroup(p, groups[p]);
    SortedMembers(groups[p]);
    ExpandOfEntry(p, Sorted(groups[p]));
    NamesOfGroup(p, Sorted(groups[p]));
  }

  lemma TameGroups(xs: seq<string>)
    requires Tame(xs)
    ensures AllGood(Groups(xs))
  {
    hide Numbered, Prefix, Numeral, Val, Groups, IsPrefix;
    GroupOrigin(xs);
    forall p | p in Groups(xs) ensures GoodGroup(p, Groups(xs)[p]) {
      var x :| x in xs && Prefix(x) == p;
      PrefixChars(x);
      forall m | m in Groups(xs)[p] ensures Fits(m) && IsPrefix(p) {
        var z :| z in xs && Numbered(z) && Prefix(z) == p && Numeral(z) == m;
        NameParts(z);
      }
      assert Groups(xs)[p] != [] ==> Groups(xs)[p][0] in Groups(xs)[p];
    }
  }

  lemma PrefixChars(x: string)
    ensures forall c :: c in Prefix(x) ==> c in x
  {}

  lemma DistinctKeys(s: set<string>)
    ensures forall i, j :: 0 <= i < j < |SortedKeys(s)| ==> SortedKeys(s)[i] != SortedKeys(s)[j]
  {
    SortedKeysSorted(s);
  }

  /** How often a name comes back from printing and reading. */
  lemma RoundTripCounts(xs: seq<string>, y: string)
    requires Tame(xs)
    ensures multiset(Expand(Compact(xs)))[y] ==
            if Prefix(y) !in Groups(xs) then 0
            else multiset(GroupNames(Prefix(y), Sorted(Groups(xs)[Prefix(y)])))[y]
  {
    hide Prefix, GroupNames, Sorted, Entries, Groups, SortedKeys, Tame, AllGood, Expand;
    TameGroups(xs);
    DistinctKeys(Groups(xs).Keys);
    ExpandCounts(Groups(xs), SortedKeys(Groups(xs).Keys), y);
  }

  lemma PlainCount(xs: seq<string>, y: string)
    requires Tame(xs) && !Numbered(y)
    ensures multiset(Expand(Compact(xs)))[y] == if y in Groups(xs) && Groups(xs)[y] == [] then 1 else 0
  {
    hide Prefix, Numbered, Expand, Compact, Groups, ReadBack, Tame;
    PlainPrefix(y);
    RoundTripCounts(xs, y);
    TameGroups(xs);
    if y in Groups(xs) {
      var ns := Sorted(Groups(xs)[y]);
      assert GoodGroup(y, Groups(xs)[y]);
      SortedMembers(Groups(xs)[y]);
      if ns != [] {
        NamesOfGroup(y, ns);
        assert y !in GroupNames(y, ns);
      }
    }
  }

  lemma NumberedCount(xs: seq<string>, y: string)
    requires Tame(xs) && Numbered(y)
    ensures multiset(Expand(Compact(xs)))[y] ==
            if Prefix(y) in Groups(xs) && Groups(xs)[Prefix(y)] != []
            then multiset(ReadBack(Sorted(Groups(xs)[Prefix(y)])))[Numeral(y)] else 0
  {
    hide Prefix, Numbered, Numeral, Expand, Compact, Groups, ReadBack, Tame;
    RoundTripCounts(xs, y);
    NameParts(y);
    var p := Prefix(y);
    if p in Groups(xs) {
      SortedMembers(Groups(xs)[p]);
      PrefixedCount(p, ReadBack(Sorted(Groups(xs)[p])), Numeral(y));
      PrefixIsNoNumber(p);
    }
  }

  // ---------- sorted groups ----------

  ghost predicate Untied(ns: seq<string>) {
    forall m, n :: m in ns && n in ns && Val(m) == Val(n) ==> m == n
  }

  ghost predicate PairwiseAligned(ns: seq<string>) {
    forall m, n :: m in ns && n in ns && Continues(m, n) ==> n == Pad(|m|, Val(n))
  }

  lemma ByValuePreorder()
    ensures TotalPreorder(ByValue)
  {}

  lemma SortedByVal(ns: seq<string>)
    requires AllFit(ns)
    ensures forall i, j :: 0 <= i < j < |Sorted(ns)| ==> Val(Sorted(ns)[i]) <= Val(Sorted(ns)[j])
    ensures SortedBy(Sorted(ns), ByValue)
  {
    hide Val, Atoi, Fits;
    ByValuePreorder();
    SortBySorted(ns, ByValue);
    SortedMembers(ns);
    var s := Sorted(ns);
    forall i, j | 0 <= i < j < |s| ensures Val(s[i]) <= Val(s[j]) {
      assert s[i] in s && s[j] in s;
      FitsAtoi(s[i]);
      FitsAtoi(s[j]);
      assert ByValue(s[i], s[j]);
    }
  }

  /** In a sorted list without ties, numerals of consecutive values meet at some position. */
  lemma ConsecutiveMeet(s: seq<string>, i: nat, j: nat)
    requires i < j < |s| && Continues(s[i], s[j]) && Untied(s)
    requires forall a, b :: 0 <= a < b < |s| ==> Val(s[a]) <= Val(s[b])
    ensures exists k :: i <= k < j && s[k] == s[i] && s[k + 1] == s[j]
    decreases j - i
  {
    hide Val;
    if j > i + 1 {
      assert s[i] in s && s[i + 1] in s && s[j] in s;
      if Val(s[i + 1]) == Val(s[i]) {
        assert s[i + 1] == s[i];
        ConsecutiveMeet(s, i + 1, j);
      } else {
        assert Val(s[i + 1]) <= Val(s[j]);
        assert s[i + 1] == s[j];
      }
    }
  }

  lemma EvenPair(s: seq<string>, i: nat, j: nat)
    requires Untied(s) && forall a, b :: 0 <= a < b < |s| ==> Val(s[a]) <= Val(s[b])
    requires EvenlyPadded(s) && i < |s| && j < |s| && Continues(s[i], s[j])
    ensures s[j] == Pad(|s[i]|, Val(s[j]))
  {
    hide Val, Pad, Untied;
    assert i < j;
    ConsecutiveMeet(s, i, j);
    var k :| i <= k < j && s[k] == s[i] && s[k + 1] == s[j];
    var l := k + 1;
    assert Continues(s[k], s[l]);
  }

  lemma EvenIsAligned(s: seq<string>)
    requires Untied(s) && forall a, b :: 0 <= a < b < |s| ==> Val(s[a]) <= Val(s[b])
    ensures EvenlyPadded(s) <==> PairwiseAligned(s)
  {
    hide Val, Pad, Untied, Continues;
    if PairwiseAligned(s) {
      assert forall i :: 0 <= i < |s| ==> s[i] in s;
      assert EvenlyPadded(s);
    } else if EvenlyPadded(s) {
      var m, n :| m in s && n in s && Continues(m, n) && n != Pad(|m|, Val(n));
      var i :| 0 <= i < |s| && s[i] == m;
      var j :| 0 <= j < |s| && s[j] == n;
      EvenPair(s, i, j);
      assert false;
    }
  }

  /** A group is read back as a permutation of itself exactly when it is pairwise aligned. */
  lemma GroupReadBack(ns: seq<string>)
    requires AllFit(ns) && Untied(ns)
    ensures multiset(ReadBack(Sorted(ns))) == multiset(ns) <==> PairwiseAligned(ns)
  {
    hide Val, Pad, Fits, ReadBack, Sorted, EvenlyPadded, Atoi;
    var s := Sorted(ns);
    SortedMembers(ns);
    SortedByVal(ns);
    EvenIsAligned(s);
    ReadBackExactly(s);
    assert PairwiseAligned(s) <==> PairwiseAligned(ns);
    ReadBackValues(s);
    if multiset(ReadBack(s)) == multiset(ns) {
      var r := ReadBack(s);
      SameMembers(r, s);
      forall i, j | 0 <= i < j < |r| ensures ByValue(r[i], r[j]) {
        FitsAtoi(r[i]);
        FitsAtoi(r[j]);
        assert Val(s[i]) <= Val(s[j]);
      }
      forall m, n | m in r && n in r && ByValue(m, n) && ByValue(n, m) ensures m == n {
        FitsAtoi(m);
        FitsAtoi(n);
        assert m in s && n in s;
      }
      SortUnique(r, s, ByValue);
    }
  }

  // ---------- the round trip ----------

  lemma GroupUntied(xs: seq<string>, p: string)
    requires Tame(xs) && p in Groups(xs)
    ensures AllFit(Groups(xs)[p]) && Untied(Groups(xs)[p])
  {
    hide Numbered, Prefix, Numeral, Val, Groups, IsPrefix;
    TameGroups(xs);
    assert GoodGroup(p, Groups(xs)[p]);
    GroupOrigin(xs);
    forall m, n | m in Groups(xs)[p] && n in Groups(xs)[p] && Val(m) == Val(n) ensures m == n {
      var x :| x in xs && Numbered(x) && Prefix(x) == p && Numeral(x) == m;
      var y :| y in xs && Numbered(y) && Prefix(y) == p && Numeral(y) == n;
      assert SamePrefix(x, y);
    }
  }

  lemma AlignedGroup(xs: seq<string>, p: string)
    requires Aligned(xs) && p in Groups(xs)
    ensures PairwiseAligned(Groups(xs)[p])
  {
    hide Numbered, Prefix, Numeral, Val, Pad, Groups;
    GroupOrigin(xs);
    forall m, n | m in Groups(xs)[p] && n in Groups(xs)[p] && Continues(m, n) ensures n == Pad(|m|, Val(n)) {
      var x :| x in xs && Numbered(x) && Prefix(x) == p && Numeral(x) == m;
      var y :| y in xs && Numbered(y) && Prefix(y) == p && Numeral(y) == n;
      assert SamePrefix(x, y);
    }
  }

  /** In a clean list, the group of a numbered name has not been emptied. */
  lemma CleanGroup(xs: seq<string>, x: string)
    requires Clean(xs) && x in xs && Numbered(x)
    ensures Prefix(x) !in xs && Prefix(x) in Groups(xs) && Numeral(x) in Groups(xs)[Prefix(x)]
  {
    hide Numbered, Prefix, Numeral, Groups;
    GroupOrigin(xs);
    NameParts(x);
    PrefixIsNoNumber(Prefix(x));
    assert Prefix(x) !in xs;
    GroupCounts(xs, Prefix(x), x);
    assert x in multiset(xs);
  }

  lemma CleanCount(xs: seq<string>, y: string)
    requires Tame(xs) && Clean(xs) && Aligned(xs)
    ensures multiset(Expand(Compact(xs)))[y] == multiset(xs)[y]
  {
    hide Numbered, Prefix, Numeral, Groups, Expand, Compact, ReadBack, Sorted, Tame, Aligned, PairwiseAligned, Untied;
    GroupOrigin(xs);
    if Numbered(y) {
      NumberedCount(xs, y);
      var p := Prefix(y);
      if x :| x in xs && Numbered(x) && Prefix(x) == p {
        CleanGroup(xs, x);
        GroupUntied(xs, p);
        AlignedGroup(xs, p);
        GroupReadBack(Groups(xs)[p]);
        GroupCounts(xs, p, y);
      } else {
        assert y !in multiset(xs);
      }
    } else {
      PlainCount(xs, y);
      PlainPrefix(y);
      assert y in xs <==> y in multiset(xs);
    }
  }

  lemma RoundTripForces(xs: seq<string>)
    requires Tame(xs) && multiset(Expand(Compact(xs))) == multiset(xs)
    ensures Clean(xs)
  {
    hide Numbered, Prefix, Numeral, Groups, Expand, Compact, ReadBack, Sorted, Tame;
    forall y | y in xs && !Numbered(y)
      ensures multiset(xs)[y] == 1 && forall x :: x in xs && Numbered(x) ==> Prefix(x) != y
    {
      PlainCount(xs, y);
      assert y in multiset(xs);
      forall x | x in xs && Numbered(x) ensures Prefix(x) != y {
        NumberedCount(xs, x);
        assert x in multiset(xs);
      }
    }
  }

  lemma RoundTripAligns(xs: seq<string>)
    requires Tame(xs) && Clean(xs) && multiset(Expand(Compact(xs))) == multiset(xs)
    ensures Aligned(xs)
  {
    hide Numbered, Prefix, Numeral, Groups, Expand, Compact, Tame, Clean, Val, Pad, Continues;
    forall x, y | x in xs && y in xs && SamePrefix(x, y) && Continues(Numeral(x), Numeral(y))
      ensures Numeral(y) == Pad(|Numeral(x)|, Val(Numeral(y)))
    {
      GroupComesBack(xs, x);
      CleanGroup(xs, x);
      CleanGroup(xs, y);
    }
  }

  lemma GroupComesBack(xs: seq<string>, x: string)
    requires Tame(xs) && Clean(xs) && x in xs && Numbered(x) && multiset(Expand(Compact(xs))) == multiset(xs)
    ensures Prefix(x) in Groups(xs) && PairwiseAligned(Groups(xs)[Prefix(x)])
  {
    hide Numbered, Prefix, Numeral, Groups, Expand, Compact, Tame, Clean, Val, Pad, Continues, ReadBack, PairwiseAligned, Untied, IsPrefix;
    CleanGroup(xs, x);
    var p := Prefix(x);
    var ns := Groups(xs)[p];
    GroupUntied(xs, p);
    SortedMembers(ns);
    var r := ReadBack(Sorted(ns));
    ReadBackValues(Sorted(ns));
    forall d ensures multiset(r)[d] == multiset(ns)[d] {
      if d in r || d in ns {
        assert Fits(d);
        NameParts(x);
        PartsOfName(p, d);
        NumberedCount(xs, p + d);
        GroupCounts(xs, p, p + d);
      }
    }
    assert multiset(r) == multiset(ns);
    GroupReadBack(ns);
  }

  /** Expanding the compacted list gives back the names, up to order, exactly when the list is clean and aligned. */
  lemma RoundTrip(xs: seq<string>)
    requires Tame(xs)
    ensures multiset(Expand(Compact(xs))) == multiset(xs) <==> Clean(xs) && Aligned(xs)
  {
    hide Tame, Clean, Aligned, Expand, Compact;
    if Clean(xs) && Aligned(xs) {
      forall y ensures multiset(Expand(Compact(xs)))[y] == multiset(xs)[y] {
        CleanCount(xs, y);
      }
    }
    if multiset(Expand(Compact(xs))) == multiset(xs) {
      RoundTripForces(xs);
      RoundTripAligns(xs);
    }
  }

  // ---------- the compact form is canonical ----------

  lemma SameGroup(xs: seq<string>, ys: seq<string>, p: string)
    requires Tame(xs) && Clean(xs) && Tame(ys) && Clean(ys) && multiset(xs) == multiset(ys) && p in Groups(xs)
    ensures p in Groups(ys) && Sorted(Groups(xs)[p]) == Sorted(Groups(ys)[p])
  {
    hide Numbered, Prefix, Numeral, Groups, Tame, Val, Pad, Sorted, IsPrefix, Untied;
    SameMembers(xs, ys);
    GroupOrigin(xs);
    GroupOrigin(ys);
    var ns, ms := Groups(xs)[p], Groups(ys)[p];
    if ns != [] && ms != [] {
      var x :| x in xs && Numbered(x) && Prefix(x) == p;
      CleanGroup(xs, x);
      CleanGroup(ys, x);
      NameParts(x);
      GroupUntied(xs, p);
      GroupUntied(ys, p);
      assert AllFit(ns) && AllFit(ms);
      forall d ensures multiset(ns)[d] == multiset(ms)[d] {
        if d in ns || d in ms { SameCount(xs, ys, p, d); }
      }
      assert multiset(ns) == multiset(ms);
      SortedIsCanonical(ns, ms);
    }
  }

  lemma SameCount(xs: seq<string>, ys: seq<string>, p: string, d: string)
    requires Tame(xs) && Clean(xs) && Tame(ys) && Clean(ys) && multiset(xs) == multiset(ys) && Fits(d) && IsPrefix(p) && p !in xs && p !in ys
    requires p in Groups(xs) && p in Groups(ys) && (d in Groups(xs)[p] || d in Groups(ys)[p])
    ensures multiset(Groups(xs)[p])[d] == multiset(Groups(ys)[p])[d]
  {
    hide Numbered, Prefix, Numeral, Groups, Tame, Val, IsPrefix;
    PartsOfName(p, d);
    GroupCounts(xs, p, p + d);
    GroupCounts(ys, p, p + d);
  }

  lemma SortedIsCanonical(ns: seq<string>, ms: seq<string>)
    requires AllFit(ns) && AllFit(ms) && Untied(ns) && multiset(ns) == multiset(ms)
    ensures Sorted(ns) == Sorted(ms)
  {
    hide Val, Atoi, Fits, Sorted;
    SortedMembers(ns);
    SortedMembers(ms);
    SortedByVal(ns);
    SortedByVal(ms);
    forall m, n | m in Sorted(ns) && n in Sorted(ns) && ByValue(m, n) && ByValue(n, m) ensures m == n {
      FitsAtoi(m);
      FitsAtoi(n);
    }
    SortUnique(Sorted(ns), Sorted(ms), ByValue);
  }

  /** Permuting the names does not change the compact form. */
  lemma CompactCanonical(xs: seq<string>, ys: seq<string>)
    requires Tame(xs) && Clean(xs) && multiset(xs) == multiset(ys)
    ensures Compact(xs) == Compact(ys)
  {
    hide Numbered, Prefix, Numeral, Groups, Val, Sorted, Compressed, SortedKeys;
    SameMembers(xs, ys);
    assert Tame(ys) && Clean(ys);
    GroupOrigin(xs);
    GroupOrigin(ys);
    assert Groups(xs).Keys == Groups(ys).Keys;
    forall p | p in Groups(xs) ensures Sorted(Groups(xs)[p]) == Sorted(Groups(ys)[p]) {
      SameGroup(xs, ys, p);
    }
    var ps := SortedKeys(Groups(xs).Keys);
    assert forall i :: 0 <= i < |ps| ==> ps[i] in ps;
  }

  /** Compacting what was expanded gives the same compact form. */
  lemma CompactStable(xs: seq<string>)
    requires Tame(xs) && Clean(xs) && Aligned(xs)
    ensures Compact(Expand(Compact(xs))) == Compact(xs)
  {
    hide Tame, Clean, Aligned, Compact, Expand;
    RoundTrip(xs);
    CompactCanonical(xs, Expand(Compact(xs)));
  }

  // ---------- the compact form is minimal ----------

  /** The numerals that no other numeral of the list precedes by one. */
  ghost function Starts(ns: seq<string>): set<string> {
    set m | m in ns && forall n :: n in ns ==> !Continues(n, m)
  }

  ghost predicate Increasing(ns: seq<string>) {
    forall i, j :: 0 <= i < j < |ns| ==> Val(ns[i]) < Val(ns[j])
  }

  lemma IncreasingSnoc(front: seq<string>, x: string)
    requires Increasing(front + [x])
    ensures Increasing(front) && forall m :: m in front ==> Val(m) < Val(x)
    ensures forall m :: m in front && m != front[|front| - 1] ==> Val(m) < Val(front[|front| - 1])
  {
    hide Val;
    var ns := front + [x];
    forall i, j | 0 <= i < j < |front| ensures Val(front[i]) < Val(front[j]) {
      assert ns[i] == front[i] && ns[j] == front[j];
    }
    forall m | m in front ensures Val(m) < Val(x) {
      var i :| 0 <= i < |front| && front[i] == m;
      assert ns[i] == m && ns[|front|] == x;
    }
  }

  lemma StartsSnoc(front: seq<string>, x: string)
    requires Increasing(front + [x])
    ensures |Starts(front + [x])| == |Starts(front)| + if front != [] && Continues(front[|front| - 1], x) then 0 else 1
  {
    IncreasingSnoc(front, x);
    hide Val, Increasing;
    var ns := front + [x];
    assert forall m :: m in ns <==> m in front || m == x;
    assert x !in Starts(front);
    if front != [] && Continues(front[|front| - 1], x) {
      assert Starts(ns) == Starts(front);
    } else {
      assert Starts(ns) == Starts(front) + {x};
    }
  }

  /** A sorted list of distinct values is printed with one range per maximal run of consecutive values. */
  lemma {:induction false} OneRangePerRun(ns: seq<string>)
    requires AllFit(ns) && Increasing(ns)
    ensures |FormatRanges(Runs(ns))| == |Starts(ns)|
  {
    hide Val, AllFit, Starts, Continues, FormatRange, Increasing, Runs;
    if ns == [] {
      NoStarts();
    } else {
      var front, x := ns[..|ns| - 1], ns[|ns| - 1];
      assert ns == front + [x];
      AllFitSnoc(front, x);
      IncreasingSnoc(front, x);
      OneRangePerRun(front);
      RunsSnoc(front, x);
      RunsEnd(front);
      StartsSnoc(front, x);
    }
  }

  /** A group holds a numeral no more often than the input holds the name. */
  lemma {:induction false} GroupNoMore(xs: seq<string>, p: string, m: string)
    requires p in Groups(xs)
    ensures multiset(Groups(xs)[p])[m] <= multiset(xs)[p + m]
  {
    hide Numbered, Prefix, Numeral;
    if xs != [] {
      var front, y := xs[..|xs| - 1], xs[|xs| - 1];
      assert xs == front + [y];
      if p in Groups(front) { GroupNoMore(front, p, m); }
      if Numbered(y) { NameParts(y); }
    }
  }

  lemma GroupIncreasing(xs: seq<string>, p: string)
    requires Tame(xs) && p in Groups(xs) && forall x :: multiset(xs)[x] <= 1
    ensures AllFit(Sorted(Groups(xs)[p])) && Increasing(Sorted(Groups(xs)[p]))
  {
    hide Tame, Groups, Val, Sorted, Fits;
    var ns := Groups(xs)[p];
    var s := Sorted(ns);
    GroupUntied(xs, p);
    SortedByVal(ns);
    SortedMembers(ns);
    forall m ensures multiset(s)[m] <= 1 { GroupNoMore(xs, p, m); }
    CountOnce(s);
    forall i, j | 0 <= i < j < |s| ensures Val(s[i]) < Val(s[j]) {
      assert s[i] in s && s[j] in s && s[i] != s[j];
    }
  }

  lemma SameStarts(ns: seq<string>, ms: seq<string>)
    requires forall m :: m in ns <==> m in ms
    ensures Starts(ns) == Starts(ms)
  {
    hide Continues;
  }

  /** The printed entry of a group of different names has one range per maximal run of consecutive numerals, and no more. */
  lemma CompactMinimal(xs: seq<string>, p: string)
    requires Tame(xs) && p in Groups(xs) && |Groups(xs)[p]| > 1 && forall x :: multiset(xs)[x] <= 1
    ensures var entry := p + Compressed(Sorted(Groups(xs)[p]));
            && entry in Compact(xs) && Bracketed(entry)
            && |Split(entry[IndexOf(entry, '[') + 1..|entry| - 1], ',')| == |Starts(Groups(xs)[p])|
  {
    hide Tame, Groups, Sorted, Compressed, Bracketed, IndexOf, Split, AllFit, Increasing, Runs, Starts, SortedKeys, IsPrefix;
    var ns := Groups(xs)[p];
    GroupIncreasing(xs, p);
    SortedMembers(ns);
    OneRangePerRun(Sorted(ns));
    SameStarts(Sorted(ns), ns);
    TameGroups(xs);
    assert GoodGroup(p, ns);
    PrefixNoNewline(p);
    BracketsParse(p, Sorted(ns));
    assert p in Groups(xs).Keys;
    var i :| 0 <= i < |SortedKeys(Groups(xs).Keys)| && SortedKeys(Groups(xs).Keys)[i] == p;
    assert Compact(xs)[i] == p + Compressed(Sorted(ns));
  }

  lemma PrefixNoNewline(p: string)
    requires IsPrefix(p)
    ensures '\n' !in p
  {}

  lemma AllFitSnoc(front: seq<string>, x: string)
    requires AllFit(front + [x])
    ensures AllFit(front) && Fits(x)
  {
    assert x in front + [x] && forall m :: m in front ==> m in front + [x];
  }

  lemma RunsEnd(ns: seq<string>)
    ensures ns == [] <==> Runs(ns) == []
    ensures ns != [] ==> Runs(ns)[|Runs(ns)| - 1].end == ns[|ns| - 1]
  {}

  lemma NoStarts()
    ensures Starts([]) == {} && Runs([]) == []
  {}

  // ---------- lists written on one line ----------

  /** Fit for a comma-separated list. */
  ghost predicate Listable(xs: seq<string>) {
    forall x :: x in xs ==> ',' !in x && x != "" && TrimSpace(x) == x
  }

  /** No comma of `s` lies outside brackets. */
  ghost predicate NoCut(s: string, d: nat) {
    s == "" || (!(s[0] == ',' && d == 0) && NoCut(s[1..], Depth([s[0]], d)))
  }

  /** One item of a list: balanced, with commas inside brackets only, trimmed and not empty. */
  ghost predicate Item(s: string) {
    NoCut(s, 0) && Depth(s, 0) == 0 && s != "" && TrimSpace(s) == s
  }

  lemma {:induction false} DepthStep(s: string, d: nat)
    requires s != ""
    ensures Depth(s, d) == Depth(s[1..], Depth([s[0]], d))
  {}

  lemma {:induction false} SplitSkips(s: string, rest: string, d: nat, current: string)
    requires NoCut(s, d)
    ensures SplitFrom(s + rest, d, current) == SplitFrom(rest, Depth(s, d), current + s)
    decreases |s|
  {
    if s == "" {
      assert s + rest == rest && current + s == current;
    } else {
      DepthStep(s, d);
      assert (s + rest)[0] == s[0] && (s + rest)[1..] == s[1..] + rest;
      SplitSkips(s[1..], rest, Depth([s[0]], d), current + [s[0]]);
      assert current + [s[0]] + s[1..] == current + s;
    }
  }

  /** Splitting undoes joining when commas occur only inside balanced brackets. */
  lemma {:induction false} SplitListOfJoin(items: seq<string>)
    requires forall s :: s in items ==> Item(s)
    ensures SplitList(Join(items, ",")) == items
  {
    hide NoCut, Depth, TrimSpace;
    if items != [] {
      var s := items[0];
      assert Item(s) && "" + s == s;
      if |items| == 1 {
        SplitSkips(s, "", 0, "");
        assert s + "" == s;
        NoRest(s);
      } else {
        var rest := Join(items[1..], ",");
        SplitListOfJoin(items[1..]);
        SplitSkips(s, "," + rest, 0, "");
        assert s + ("," + rest) == s + "," + rest;
        assert ("," + rest)[1..] == rest;
      }
    } else {
      NoRest("");
    }
  }

  lemma NoRest(s: string)
    ensures SplitFrom("", 0, s) == Emit(s) && TrimSpace("") == ""
  {}

  lemma {:induction false} PlainNoCut(s: string, d: nat)
    requires '[' !in s && ',' !in s
    ensures NoCut(s, d) && Depth(s, 0) == 0
    decreases |s|
  {
    if s != "" {
      assert s[0] in s;
      DepthStep(s, 0);
      PlainNoCut(s[1..], Depth([s[0]], d));
    }
  }

  lemma {:induction false} NoCutConcat(a: string, b: string, d: nat)
    requires NoCut(a, d) && NoCut(b, Depth(a, d))
    ensures NoCut(a + b, d) && Depth(a + b, d) == Depth(b, Depth(a, d))
    decreases |a|
  {
    if a == "" {
      assert a + b == b;
    } else {
      DepthStep(a, d);
      DepthStep(a + b, d);
      assert (a + b)[0] == a[0] && (a + b)[1..] == a[1..] + b;
      NoCutConcat(a[1..], b, Depth([a[0]], d));
    }
  }

  lemma {:induction false} InsideNoCut(s: string)
    requires '[' !in s && ']' !in s
    ensures NoCut(s, 1) && Depth(s, 1) == 1
  {
    if s != "" {
      assert s[0] in s;
      DepthStep(s, 1);
      InsideNoCut(s[1..]);
    }
  }

  lemma BracketsItem(prefix: string, body: string)
    requires '[' !in prefix && ',' !in prefix && '[' !in body && ']' !in body
    requires prefix == "" || !IsSpace(prefix[0])
    ensures Item(prefix + ("[" + body + "]"))
  {
    PlainNoCut(prefix, 0);
    InsideNoCut(body);
    assert Depth("[", 0) == 1 && Depth("]", 1) == 0 && NoCut("[", 0) && NoCut("]", 1);
    NoCutConcat("[", body, 0);
    NoCutConcat("[" + body, "]", 0);
    NoCutConcat(prefix, "[" + body + "]", 0);
    TrimmedEnds(prefix + ("[" + body + "]"));
  }

  lemma PlainItem(s: string)
    requires '[' !in s && ',' !in s && s != "" && TrimSpace(s) == s
    ensures Item(s)
  {
    PlainNoCut(s, 0);
  }

  lemma EntryIsItem(xs: seq<string>, p: string)
    requires Tame(xs) && Listable(xs) && p in Groups(xs)
    ensures Item(p + Compressed(Sorted(Groups(xs)[p])))
  {
    hide Numbered, Prefix, Numeral, Groups, Val, Sorted, TrimSpace, IsSpace, Item, IsPrefix, Fits, Tame;
    GroupOrigin(xs);
    TameGroups(xs);
    var ns := Groups(xs)[p];
    SortedMembers(ns);
    assert GoodGroup(p, ns);
    if |ns| > 1 {
      var x :| x in xs && Numbered(x) && Prefix(x) == p;
      PrefixStart(x);
      GroupItem(p, Sorted(ns));
    } else if |ns| == 1 {
      assert ns[0] in ns;
      var x :| x in xs && Numbered(x) && Prefix(x) == p && Numeral(x) == ns[0];
      NameParts(x);
      assert Sorted(ns)[0] in ns;
      TamePlain(xs, x);
      PlainItem(x);
    } else {
      assert p + "" == p;
      PlainItem(p);
    }
  }

  lemma TamePlain(xs: seq<string>, x: string)
    requires Tame(xs) && x in xs
    ensures '[' !in x
  {
    hide Numbered, SamePrefix;
  }

  lemma GroupItem(p: string, ns: seq<string>)
    requires AllFit(ns) && |ns| > 1 && '[' !in p && ',' !in p && (p == "" || !IsSpace(p[0]))
    ensures Item(p + Compressed(ns))
  {
    hide RunOk, Val, Fits, Item, IsSpace, Runs, FormatRanges, Join;
    RunsOk(ns);
    BodyPlain(Runs(ns), '[');
    BodyPlain(Runs(ns), ']');
    BracketsItem(p, Join(FormatRanges(Runs(ns)), ","));
  }

  lemma PrefixStart(x: string)
    requires Numbered(x) && TrimSpace(x) == x && ',' !in x
    ensures ',' !in Prefix(x) && (Prefix(x) == "" || !IsSpace(Prefix(x)[0]))
  {
    TrimmedEnds(x);
  }

  lemma CompactItems(xs: seq<string>)
    requires Tame(xs) && Listable(xs)
    ensures forall e :: e in Compact(xs) ==> Item(e)
  {
    hide Tame, Listable, Item, Groups, Sorted, Compressed, SortedKeys;
    forall e | e in Compact(xs) ensures Item(e) {
      var ps := SortedKeys(Groups(xs).Keys);
      var i :| 0 <= i < |ps| && e == ps[i] + Compressed(Sorted(Groups(xs)[ps[i]]));
      assert ps[i] in ps;
      EntryIsItem(xs, ps[i]);
    }
  }

  /** The names come back from the comma-separated compact form. */
  lemma ListRoundTrip(xs: seq<string>)
    requires Tame(xs) && Clean(xs) && Aligned(xs) && Listable(xs)
    ensures SplitList(Join(Compact(xs), ",")) == Compact(xs)
    ensures multiset(ExpandList(Join(Compact(xs), ","))) == multiset(xs)
  {
    hide Tame, Clean, Aligned, Listable, Item, SplitList, Compact, Expand;
    RoundTrip(xs);
    CompactItems(xs);
    SplitListOfJoin(Compact(xs));
  }

  /** What Compact prints can be counted out again. */
  lemma CompactEnds(xs: seq<string>)
    requires Tame(xs)
    ensures forall e :: e in Compact(xs) ==> EntryEnds(e)
  {
    hide Tame, Groups, Sorted, Compressed, SortedKeys, EntryEnds, IsPrefix, Numbered;
    TameGroups(xs);
    forall e | e in Compact(xs) ensures EntryEnds(e) {
      var ps := SortedKeys(Groups(xs).Keys);
      var i :| 0 <= i < |ps| && e == ps[i] + Compressed(Sorted(Groups(xs)[ps[i]]));
      assert ps[i] in ps;
      assert GoodGroup(ps[i], Groups(xs)[ps[i]]);
      SortedMembers(Groups(xs)[ps[i]]);
      PrefixPlain(ps[i]);
      EntryEndsOf(ps[i], Sorted(Groups(xs)[ps[i]]));
    }
  }

  lemma PrefixPlain(p: string)
    ensures IsPrefix(p) ==> '\n' !in p
  {}

  // ---------- names that do not come back ----------

  lemma SmallNumerals()
    ensures Val("1") == 1 && Val("02") == 2 && Pad(1, 2) == "2"
  {
    assert "02"[..1] == "0" && "0"[..0] == "" && "1"[..0] == "";
    assert Val("0") == 0 && Val("1") == 1;
    assert Dec(2) == "2";
  }

  /** The names `p` followed by each of two numerals of different values. */
  lemma TwoNumbered(p: string, a: string, b: string)
    requires IsPrefix(p) && AllDigits(a) && AllDigits(b) && a != "" && b != "" && '[' !in p
    requires Val(a) < Val(b) < MAX_INT
    ensures Tame([p + a, p + b]) && (Continues(a, b) && b != Pad(|a|, Val(b)) ==> !Aligned([p + a, p + b]))
  {
    hide Numbered, Prefix, Numeral, Val, Pad, Continues, IsPrefix;
    var xs := [p + a, p + b];
    PartsOfName(p, a);
    PartsOfName(p, b);
    DigitsPlain(a, '[');
    DigitsPlain(b, '[');
    if Continues(a, b) && b != Pad(|a|, Val(b)) {
      assert xs[0] in xs && xs[1] in xs && SamePrefix(p + a, p + b);
    }
  }

  /** Two widths under one prefix: a1 and a02 are printed as a[1-02] and read back as a1 and a2. */
  lemma MixedWidths()
    ensures Tame(["a1", "a02"]) && multiset(Expand(Compact(["a1", "a02"]))) != multiset(["a1", "a02"])
  {
    hide Expand, Compact, Val, Pad, Tame, Aligned, Clean;
    SmallNumerals();
    TwoNumbered("a", "1", "02");
    assert "a" + "1" == "a1" && "a" + "02" == "a02";
    RoundTrip(["a1", "a02"]);
  }

  /** A name that is the prefix of another: a is lost when a1 follows it. */
  lemma PrefixCollision()
    ensures Tame(["a", "a1"]) && multiset(Expand(Compact(["a", "a1"]))) != multiset(["a", "a1"])
  {
    hide Expand, Compact, Val, Pad, Numbered, Prefix, Numeral;
    PartsOfName("a", "1");
    PrefixIsNoNumber("a");
    SmallNumerals();
    assert "a" + "1" == "a1";
    var xs := ["a", "a1"];
    assert xs[0] in xs && xs[1] in xs;
    RoundTrip(xs);
  }
}
