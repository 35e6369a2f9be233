/** The order of what the host-list printer writes, and of what comes back. */
module ClusetOrder {
  import opened ClusetEntries
  import opened ClusetRuns
  import opened ClusetSpec
  import opened ClusetTheorems
  import opened Numerals
  import opened Ordering
  import opened Text
  import opened Trees

  /** The entries begin with the prefixes of the names, each once, and these ascend. */
  ghost predicate StartInOrder(xs: seq<string>, entries: seq<string>, prefixes: seq<string>) {
    && |prefixes| == |entries| && (forall i :: 0 <= i < |prefixes| ==> prefixes[i] <= entries[i])
    && (forall p :: p in prefixes <==> exists x :: x in xs && Prefix(x) == p)
    && forall i, j :: 0 <= i < j < |prefixes| ==> Leq(prefixes[i], prefixes[j]) && prefixes[i] != prefixes[j]
  }

  lemma KeysArePrefixes(xs: seq<string>, p: string)
    ensures p in Groups(xs) <==> exists x :: x in xs && Prefix(x) == p
  {
    hide Prefix, Groups, Numbered, Numeral;
    GroupOrigin(xs);
  }

  lemma CompactAscends(xs: seq<string>)
    ensures exists prefixes :: StartInOrder(xs, Compact(xs), prefixes)
  {
    hide Prefix, Groups, SortedKeys, Compressed, Sorted, Leq;
    var ps := SortedKeys(Groups(xs).Keys);
    SortedKeysSorted(Groups(xs).Keys);
    forall p ensures p in ps <==> exists x :: x in xs && Prefix(x) == p { KeysArePrefixes(xs, p); }
    assert StartInOrder(xs, Compact(xs), ps);
  }

  /** `x` does not stand after `y`: smaller prefixes come first, and under one prefix smaller numbers. */
  ghost predicate NotAfter(x: string, y: string) {
    Leq(Prefix(x), Prefix(y)) && (Prefix(x) == Prefix(y) ==> Val(Numeral(x)) <= Val(Numeral(y)))
  }

  ghost predicate NamesAscend(names: seq<string>) {
    forall i, j :: 0 <= i < j < |names| ==> NotAfter(names[i], names[j])
  }

  lemma GroupAscends(groups: map<string, seq<string>>, p: string)
    requires AllGood(groups) && p in groups
    ensures NamesAscend(GroupNames(p, Sorted(groups[p])))
  {
    hide Numbered, Prefix, Numeral, Val, IsPrefix, ReadBack, Sorted, Fits;
    var ns := groups[p];
    assert GoodGroup(p, ns);
    var s := Sorted(ns);
    SortedMembers(ns);
    if ns != [] {
      SortedByVal(ns);
      ReadBackValues(s);
      var names := GroupNames(p, s);
      LeqReflexive(p);
      forall i | 0 <= i < |names| ensures Prefix(names[i]) == p && Val(Numeral(names[i])) == Val(s[i]) {
        FitsDigits(ReadBack(s)[i]);
        PartsOfName(p, ReadBack(s)[i]);
      }
    }
  }

  lemma FitsDigits(m: string)
    requires Fits(m)
    ensures AllDigits(m) && m != ""
  {}

  lemma AscendConcat(a: seq<string>, b: seq<string>)
    requires NamesAscend(a) && NamesAscend(b)
    requires forall x, y :: x in a && y in b ==> NotAfter(x, y)
    ensures NamesAscend(a + b)
  {
    hide NotAfter;
    var c := a + b;
    forall i, j | 0 <= i < j < |c| ensures NotAfter(c[i], c[j]) {
      if j < |a| {
        assert c[i] == a[i] && c[j] == a[j];
      } else if i < |a| {
        assert c[i] in a && c[j] in b;
      } else {
        assert c[i] == b[i - |a|] && c[j] == b[j - |a|];
      }
    }
  }

  lemma FrontSorted(front: seq<string>, p: string)
    requires StrictlySorted(front + [p])
    ensures StrictlySorted(front)
  {
    hide Leq;
    var ps := front + [p];
    assert forall i :: 0 <= i < |front| ==> ps[i] == front[i];
  }

  lemma FrontBefore(front: seq<string>, p: string, q: string)
    requires StrictlySorted(front + [p]) && q in front
    ensures Leq(q, p) && q != p
  {
    hide Leq;
    var ps := front + [p];
    var i :| 0 <= i < |front| && front[i] == q;
    assert ps[i] == q && ps[|front|] == p;
  }

  lemma {:induction false} ExpandAscends(groups: map<string, seq<string>>, ps: seq<string>)
    requires AllGood(groups) && (forall p :: p in ps ==> p in groups) && StrictlySorted(ps)
    ensures NamesAscend(Expand(Entries(groups, ps)))
    ensures forall z :: z in Expand(Entries(groups, ps)) ==> Prefix(z) in ps
  {
    hide Prefix, Numeral, GroupNames, Sorted, Compressed, ExpandEntry, AllGood, NamesAscend, Leq, StrictlySorted;
    if ps == [] {
      NothingAscends();
    } else {
      var front, p := ps[..|ps| - 1], ps[|ps| - 1];
      assert ps == front + [p] && p in ps;
      FrontSorted(front, p);
      ExpandAscends(groups, front);
      assert Entries(groups, ps)[..|ps| - 1] == Entries(groups, front);
      GroupReadsBack(groups, p);
      GroupAscends(groups, p);
      forall x, y | x in Expand(Entries(groups, front)) && y in GroupNames(p, Sorted(groups[p])) ensures NotAfter(x, y) {
        FrontBefore(front, p, Prefix(x));
      }
      AscendConcat(Expand(Entries(groups, front)), GroupNames(p, Sorted(groups[p])));
    }
  }

  lemma NothingAscends()
    ensures NamesAscend([])
  {}

  /** The names come back sorted by prefix, and under one prefix by number; with the round trip this determines them. */
  lemma ReadBackAscends(xs: seq<string>, i: nat, j: nat)
    requires Tame(xs) && i < j < |Expand(Compact(xs))|
    ensures var x, y := Expand(Compact(xs))[i], Expand(Compact(xs))[j];
            Leq(Prefix(x), Prefix(y)) && (Prefix(x) == Prefix(y) ==> Val(Numeral(x)) <= Val(Numeral(y)))
  {
    hide Prefix, Numeral, Entries, Groups, SortedKeys, Tame, AllGood, Expand, Leq, Val;
    TameGroups(xs);
    SortedKeysSorted(Groups(xs).Keys);
    ExpandAscends(Groups(xs), SortedKeys(Groups(xs).Keys));
  }

  // ---------- the text of an entry ----------

  /** Numerals of consecutive values, written as the only one or as the first and the last. */
  ghost predicate IsRunText(chunk: seq<string>, text: string) {
    && chunk != [] && (forall i, j :: 0 <= i < j < |chunk| && j == i + 1 ==> Atoi(chunk[j]) == Atoi(chunk[i]) + 1)
    && text == if |chunk| == 1 then chunk[0] else chunk[0] + "-" + chunk[|chunk| - 1]
  }

  /** The numerals cut into runs that cannot be longer, and the texts of these. */
  ghost predicate CutIntoRuns(numbers: seq<string>, chunks: seq<seq<string>>, texts: seq<string>) {
    Flatten(chunks) == numbers && AreRunTexts(chunks, texts) && NoneContinued(chunks)
  }

  ghost predicate AreRunTexts(chunks: seq<seq<string>>, texts: seq<string>) {
    |chunks| == |texts| && forall i :: 0 <= i < |chunks| ==> IsRunText(chunks[i], texts[i])
  }

  ghost predicate NoneContinued(chunks: seq<seq<string>>) {
    forall i, j :: 0 <= i < j < |chunks| && j == i + 1 ==> !Continued(chunks[i], chunks[j])
  }

  ghost predicate Continued(a: seq<string>, b: seq<string>) {
    a != [] && b != [] && Atoi(b[0]) == Atoi(a[|a| - 1]) + 1
  }

  /** The last run is written from its first to its last numeral. */
  ghost predicate EndsWith(chunk: seq<string>, run: Run) {
    chunk != [] && run.start == chunk[0] && run.end == chunk[|chunk| - 1]
  }

  lemma TextsSnoc(chunks: seq<seq<string>>, texts: seq<string>, chunk: seq<string>, text: string)
    requires |chunks| == |texts|
    ensures AreRunTexts(chunks + [chunk], texts + [text]) <==> AreRunTexts(chunks, texts) && IsRunText(chunk, text)
  {
    hide IsRunText;
    var cs, ts := chunks + [chunk], texts + [text];
    assert cs[|chunks|] == chunk && ts[|chunks|] == text;
    assert forall i :: 0 <= i < |chunks| ==> cs[i] == chunks[i] && ts[i] == texts[i];
  }

  lemma ContinuedSnoc(chunks: seq<seq<string>>, chunk: seq<string>)
    ensures NoneContinued(chunks + [chunk]) <==> NoneContinued(chunks) && (chunks != [] ==> !Continued(chunks[|chunks| - 1], chunk))
  {
    hide Continued;
    var cs, n := chunks + [chunk], |chunks|;
    assert cs[n] == chunk && forall i :: 0 <= i < n ==> cs[i] == chunks[i];
    if NoneContinued(cs) {
      if n > 0 { assert !Continued(cs[n - 1], cs[n]); }
      forall i, j | 0 <= i < j < n && j == i + 1 ensures !Continued(chunks[i], chunks[j]) { assert !Continued(cs[i], cs[j]); }
    }
  }

  lemma RangesSnoc(runs: seq<Run>, run: Run)
    ensures FormatRanges(runs + [run]) == FormatRanges(runs) + [FormatRange(run)]
  {}

  lemma RunLonger(chunk: seq<string>, text: string, x: string)
    requires IsRunText(chunk, text) && Atoi(x) == Atoi(chunk[|chunk| - 1]) + 1
    ensures IsRunText(chunk + [x], chunk[0] + "-" + x) && chunk[0] != x
  {
    hide Atoi;
    assert forall i :: 0 <= i < |chunk| ==> (chunk + [x])[i] == chunk[i];
    RunClimbs(chunk, text);
  }

  lemma {:induction false} RunClimbs(chunk: seq<string>, text: string)
    requires IsRunText(chunk, text)
    ensures Atoi(chunk[0]) <= Atoi(chunk[|chunk| - 1])
  {
    hide Atoi;
    var n := 0;
    while n < |chunk| - 1
      invariant 0 <= n < |chunk| && Atoi(chunk[0]) <= Atoi(chunk[n])
    {
      var next := n + 1;
      assert Atoi(chunk[next]) == Atoi(chunk[n]) + 1;
      n := next;
    }
  }

  lemma FlattenLast(front: seq<seq<string>>, last: seq<string>)
    ensures Flatten(front + [last]) == Flatten(front) + last
  {
    assert (front + [last])[..|front|] == front;
  }

  /** The last run takes up the numeral that continues it. */
  lemma CutLonger(numbers: seq<string>, chunks: seq<seq<string>>, last: seq<string>, runs: seq<Run>, run: Run, x: string)
    requires CutIntoRuns(numbers, chunks + [last], FormatRanges(runs + [run])) && EndsWith(last, run) && |chunks| == |runs|
    requires Atoi(x) == Atoi(run.end) + 1
    ensures CutIntoRuns(numbers + [x], chunks + [last + [x]], FormatRanges(runs + [Run(run.start, x)]))
    ensures EndsWith(last + [x], Run(run.start, x))
  {
    hide Atoi, IsRunText, Continued, AreRunTexts, NoneContinued, FormatRanges;
    RangesSnoc(runs, run);
    RangesSnoc(runs, Run(run.start, x));
    FlattenLast(chunks, last);
    FlattenLast(chunks, last + [x]);
    TextsSnoc(chunks, FormatRanges(runs), last, FormatRange(run));
    TextsSnoc(chunks, FormatRanges(runs), last + [x], FormatRange(Run(run.start, x)));
    ContinuedSnoc(chunks, last);
    ContinuedSnoc(chunks, last + [x]);
    RunLonger(last, FormatRange(run), x);
    if chunks != [] { SameFirst(chunks[|chunks| - 1], last, x); }
    assert numbers + [x] == Flatten(chunks) + (last + [x]);
  }

  lemma SameFirst(a: seq<string>, b: seq<string>, x: string)
    requires b != []
    ensures Continued(a, b + [x]) <==> Continued(a, b)
  {}

  /** A numeral that does not continue the last run begins another one. */
  lemma CutAnew(numbers: seq<string>, chunks: seq<seq<string>>, runs: seq<Run>, x: string)
    requires CutIntoRuns(numbers, chunks, FormatRanges(runs)) && |chunks| == |runs|
    requires runs != [] ==> EndsWith(chunks[|chunks| - 1], runs[|runs| - 1]) && Atoi(x) != Atoi(runs[|runs| - 1].end) + 1
    ensures CutIntoRuns(numbers + [x], chunks + [[x]], FormatRanges(runs + [Run(x, x)]))
  {
    hide Atoi, IsRunText, AreRunTexts, NoneContinued, FormatRanges;
    RangesSnoc(runs, Run(x, x));
    FlattenLast(chunks, [x]);
    TextsSnoc(chunks, FormatRanges(runs), [x], x);
    ContinuedSnoc(chunks, [x]);
    RunOfOne(x);
  }

  lemma RunOfOne(x: string)
    ensures IsRunText([x], x)
  {}

  /** The runs after one more numeral. */
  function NextRuns(runs: seq<Run>, x: string): seq<Run> {
    var n := |runs| - 1;
    if runs != [] && Atoi(x) == Atoi(runs[n].end) + 1 then runs[..n] + [Run(runs[n].start, x)] else runs + [Run(x, x)]
  }

  ghost predicate LastEnds(chunks: seq<seq<string>>, runs: seq<Run>) {
    |chunks| == |runs| && (runs != [] ==> EndsWith(chunks[|chunks| - 1], runs[|runs| - 1]))
  }

  lemma CutStep(front: seq<string>, before: seq<seq<string>>, runs: seq<Run>, x: string) returns (chunks: seq<seq<string>>)
    requires CutIntoRuns(front, before, FormatRanges(runs)) && LastEnds(before, runs)
    ensures CutIntoRuns(front + [x], chunks, FormatRanges(NextRuns(runs, x))) && LastEnds(chunks, NextRuns(runs, x))
  {
    hide Atoi, CutIntoRuns, EndsWith, FormatRanges;
    var n := |before| - 1;
    if runs != [] && Atoi(x) == Atoi(runs[n].end) + 1 {
      assert before == before[..n] + [before[n]] && runs == runs[..n] + [runs[n]];
      CutLonger(front, before[..n], before[n], runs[..n], runs[n], x);
      chunks := before[..n] + [before[n] + [x]];
    } else {
      CutAnew(front, before, runs, x);
      chunks := before + [[x]];
      OneEnds(x);
    }
  }

  lemma {:induction false} RunsAreMaximal(numbers: seq<string>) returns (chunks: seq<seq<string>>)
    ensures CutIntoRuns(numbers, chunks, FormatRanges(Runs(numbers))) && LastEnds(chunks, Runs(numbers))
  {
    hide CutIntoRuns, LastEnds, Runs, FormatRanges, NextRuns;
    if numbers == [] {
      chunks := [];
      NothingCut();
    } else {
      var front, x := numbers[..|numbers| - 1], numbers[|numbers| - 1];
      assert numbers == front + [x];
      var before := RunsAreMaximal(front);
      RunsLast(front, x);
      chunks := CutStep(front, before, Runs(front), x);
    }
  }

  lemma RunsLast(front: seq<string>, x: string)
    ensures Runs(front + [x]) == NextRuns(Runs(front), x)
  {
    hide Atoi;
    assert (front + [x])[..|front|] == front;
  }

  lemma OneEnds(x: string)
    ensures EndsWith([x], Run(x, x))
  {}

  lemma NothingCut()
    ensures CutIntoRuns([], [], FormatRanges(Runs([]))) && LastEnds([], Runs([]))
  {}

  /** A prefix alone, or with its one numeral, or with the texts of its maximal runs in brackets. */
  ghost predicate EntryText(entry: string, prefix: string, numbers: seq<string>) {
    exists chunks, texts :: CutIntoRuns(numbers, chunks, texts)
      && entry == prefix + if numbers == [] then "" else if |numbers| == 1 then numbers[0] else "[" + Join(texts, ",") + "]"
  }

  /** Every printed entry is spelled from the numerals of its group, in the order of their values. */
  lemma CompactSpelled(xs: seq<string>, entry: string) returns (prefix: string, numbers: seq<string>)
    requires entry in Compact(xs)
    ensures prefix in Groups(xs) && multiset(numbers) == multiset(Groups(xs)[prefix])
    ensures (forall i, j :: 0 <= i < j < |numbers| ==> Atoi(numbers[i]) <= Atoi(numbers[j])) && EntryText(entry, prefix, numbers)
  {
    hide Groups, SortedKeys, Runs, Atoi, CutIntoRuns, LastEnds, SortBy;
    var ps := SortedKeys(Groups(xs).Keys);
    var i :| 0 <= i < |Compact(xs)| && Compact(xs)[i] == entry;
    assert ps[i] in ps;
    prefix, numbers := ps[i], Sorted(Groups(xs)[ps[i]]);
    SortByPermutes(Groups(xs)[prefix], ByValue);
    ByValuePreorder();
    SortBySorted(Groups(xs)[prefix], ByValue);
    forall a, b | 0 <= a < b < |numbers| ensures Atoi(numbers[a]) <= Atoi(numbers[b]) { assert ByValue(numbers[a], numbers[b]); }
    var chunks := RunsAreMaximal(numbers);
    assert entry == prefix + Compressed(numbers);
  }
}
