/** Printing a sorted list of numerals as ranges and counting the ranges out again. */
module ClusetRuns {
  import opened ClusetSpec
  import opened Numerals

  /** Numerals that fit in an int, below the largest one. */
  ghost predicate Fits(m: string) {
    m != "" && AllDigits(m) && Val(m) < MAX_INT
  }

  ghost predicate AllFit(ns: seq<string>) {
    forall m :: m in ns ==> Fits(m)
  }

  /** The numerals a printed range stands for. */
  ghost function Spell(run: Run): seq<string> {
    if run.start == run.end then [run.start] else Count("", |run.start|, Atoi(run.start), Atoi(run.end))
  }

  ghost function SpellAll(runs: seq<Run>): seq<string> {
    if runs == [] then [] else SpellAll(runs[..|runs| - 1]) + Spell(runs[|runs| - 1])
  }

  /** What is read back when `ns` is printed. */
  ghost function ReadBack(ns: seq<string>): seq<string> {
    SpellAll(Runs(ns))
  }

  lemma FitsAtoi(m: string)
    requires Fits(m)
    ensures Atoi(m) == Val(m)
  {}

  ghost predicate RunOk(run: Run) {
    && Fits(run.start) && Fits(run.end) && Val(run.start) <= Val(run.end)
    && (Val(run.start) == Val(run.end) ==> run.start == run.end)
  }

  lemma {:induction false} CountSnoc(prefix: string, width: nat, lo: nat, hi: nat)
    requires lo <= hi + 1
    ensures Count(prefix, width, lo, hi + 1) == Count(prefix, width, lo, hi) + [prefix + Pad(width, hi + 1)]
    decreases hi + 1 - lo
  {
    hide Pad;
    if lo <= hi {
      CountSnoc(prefix, width, lo + 1, hi);
      var rest := Count(prefix, width, lo + 1, hi);
      assert Count(prefix, width, lo, hi) == [prefix + Pad(width, lo)] + rest;
    }
  }

  lemma SpellIsCount(run: Run)
    requires RunOk(run)
    ensures Spell(run) == Count("", |run.start|, Val(run.start), Val(run.end))
  {
    FitsAtoi(run.start);
    FitsAtoi(run.end);
    if run.start == run.end {
      PadOfOwnValue(run.start);
      assert "" + run.start == run.start;
    }
  }

  ghost predicate Continues(m: string, n: string) {
    Val(n) == Val(m) + 1
  }

  /** The runs after one more numeral. */
  ghost function AddNumeral(runs: seq<Run>, x: string): seq<Run> {
    if runs != [] && Continues(runs[|runs| - 1].end, x) then
      runs[..|runs| - 1] + [Run(runs[|runs| - 1].start, x)]
    else runs + [Run(x, x)]
  }

  lemma RunsSnoc(ns: seq<string>, x: string)
    requires AllFit(ns) && Fits(x)
    ensures Runs(ns + [x]) == AddNumeral(Runs(ns), x)
  {
    hide Val, Fits;
    assert (ns + [x])[..|ns|] == ns;
    FitsAtoi(x);
    if ns != [] {
      assert ns[|ns| - 1] in ns;
      FitsAtoi(ns[|ns| - 1]);
    }
  }

  lemma AddNumeralOk(runs: seq<Run>, x: string)
    requires (forall r :: r in runs ==> RunOk(r)) && Fits(x)
    ensures forall r :: r in AddNumeral(runs, x) ==> RunOk(r)
  {
    hide Val, Fits;
    if runs != [] {
      assert runs[|runs| - 1] in runs;
      assert forall r :: r in runs[..|runs| - 1] ==> r in runs;
    }
  }

  lemma {:induction false} RunsOk(ns: seq<string>)
    requires AllFit(ns)
    ensures forall r :: r in Runs(ns) ==> RunOk(r)
  {
    hide Val, Fits, RunOk, AddNumeral;
    if ns != [] {
      var front, x := ns[..|ns| - 1], ns[|ns| - 1];
      assert ns == front + [x] && x in ns;
      RunsOk(front);
      RunsSnoc(front, x);
      AddNumeralOk(Runs(front), x);
    }
  }

  /** The numeral read back for `x` when it is printed after `ns`. */
  ghost function ReadNext(ns: seq<string>, x: string): string {
    var runs := Runs(ns);
    if runs != [] && Continues(runs[|runs| - 1].end, x) then Pad(|runs[|runs| - 1].start|, Val(x)) else x
  }

  lemma ReadBackSnoc(ns: seq<string>, x: string)
    requires AllFit(ns) && Fits(x)
    ensures ReadBack(ns + [x]) == ReadBack(ns) + [ReadNext(ns, x)]
  {
    hide Val, Fits, Runs, Spell, Pad;
    var runs := Runs(ns);
    RunsSnoc(ns, x);
    RunsOk(ns);
    SpellAddNumeral(runs, x);
  }

  lemma SpellAddNumeral(runs: seq<Run>, x: string)
    requires (forall r :: r in runs ==> RunOk(r)) && Fits(x)
    ensures SpellAll(AddNumeral(runs, x)) == SpellAll(runs) +
              [if runs != [] && Continues(runs[|runs| - 1].end, x) then Pad(|runs[|runs| - 1].start|, Val(x)) else x]
  {
    hide Val, Fits, Spell, Pad;
    var all := AddNumeral(runs, x);
    if runs != [] && Continues(runs[|runs| - 1].end, x) {
      var last := runs[|runs| - 1];
      assert last in runs;
      assert all[..|all| - 1] == runs[..|runs| - 1];
      SpellLonger(last, x);
    } else {
      assert all[..|all| - 1] == runs;
      SpellSingle(x);
    }
  }

  lemma SpellSingle(x: string)
    ensures Spell(Run(x, x)) == [x]
  {}

  lemma SpellLonger(run: Run, x: string)
    requires RunOk(run) && Fits(x) && Continues(run.end, x)
    ensures Spell(Run(run.start, x)) == Spell(run) + [Pad(|run.start|, Val(x))]
  {
    hide Val, Fits, Spell, Pad;
    SpellIsCount(run);
    SpellIsCount(Run(run.start, x));
    CountSnoc("", |run.start|, Val(run.start), Val(run.end));
    assert "" + Pad(|run.start|, Val(x)) == Pad(|run.start|, Val(x));
  }

  /** The last numeral read back is padded to the width of the start of its run. */
  lemma ReadBackLast(ns: seq<string>)
    requires AllFit(ns) && ns != []
    ensures ReadBack(ns) != []
    ensures ReadBack(ns)[|ReadBack(ns)| - 1] == Pad(|Runs(ns)[|Runs(ns)| - 1].start|, Val(ns[|ns| - 1]))
  {
    hide Val, Fits, Runs, Spell, Pad;
    var runs := Runs(ns);
    RunsOk(ns);
    var last := runs[|runs| - 1];
    assert last in runs;
    SpellIsCount(last);
    var s := Spell(last);
    assert s[|s| - 1] == "" + Pad(|last.start|, Val(last.end));
    assert "" + Pad(|last.start|, Val(last.end)) == Pad(|last.start|, Val(last.end));
    assert SpellAll(runs) == SpellAll(runs[..|runs| - 1]) + s;
  }

  /** Same length and same values, position by position. */
  lemma {:induction false} ReadBackValues(ns: seq<string>)
    requires AllFit(ns)
    ensures |ReadBack(ns)| == |ns|
    ensures forall i :: 0 <= i < |ns| ==> Val(ReadBack(ns)[i]) == Val(ns[i]) && Fits(ReadBack(ns)[i])
  {
    hide Val, Pad, Continues, Runs, Fits, SpellAll, ReadBack, ReadNext;
    if ns == [] {
      ReadBackNothing();
    } else {
      var front, x := ns[..|ns| - 1], ns[|ns| - 1];
      assert ns == front + [x] && x in ns;
      assert AllFit(front) by { assert forall n :: n in front ==> n in ns; }
      ReadBackValues(front);
      ReadBackSnoc(front, x);
      ReadNextValue(front, x);
    }
  }

  lemma ReadNextValue(ns: seq<string>, x: string)
    requires Fits(x)
    ensures Val(ReadNext(ns, x)) == Val(x) && Fits(ReadNext(ns, x))
  {
    hide Val, Pad, Continues, Runs;
    var runs := Runs(ns);
    if runs != [] { ValOfPad(|runs[|runs| - 1].start|, Val(x)); }
  }

  /** A numeral that continues the one before it is padded like it. */
  ghost predicate EvenlyPadded(ns: seq<string>) {
    forall i, j :: 0 <= i < j < |ns| && j == i + 1 && Continues(ns[i], ns[j]) ==> ns[j] == Pad(|ns[i]|, Val(ns[j]))
  }

  /** What is read back is what was printed exactly when consecutive numerals are evenly padded. */
  lemma {:induction false} ReadBackExactly(ns: seq<string>)
    requires AllFit(ns)
    ensures ReadBack(ns) == ns <==> EvenlyPadded(ns)
  {
    hide Val, Pad, Fits, Continues, EvenlyPadded, ReadBack, Runs;
    if ns == [] {
      ReadBackNothing();
    } else {
      var front, x := ns[..|ns| - 1], ns[|ns| - 1];
      assert ns == front + [x] && x in ns;
      ReadBackValues(front);
      ReadBackExactly(front);
      ReadBackSnoc(front, x);
      EvenlyPaddedSnoc(front, x);
      NextExactly(front, x);
    }
  }

  lemma ReadBackNothing()
    ensures ReadBack([]) == [] && EvenlyPadded([])
  {}

  lemma NextExactly(front: seq<string>, x: string)
    requires AllFit(front) && Fits(x)
    ensures ReadBack(front) == front ==>
              (ReadNext(front, x) == x <==>
               (front != [] && Continues(front[|front| - 1], x) ==> x == Pad(|front[|front| - 1]|, Val(x))))
  {
    hide Val, Pad, Fits, ReadBack, Runs;
    if front != [] {
      ReadBackLast(front);
      var w := |Runs(front)[|Runs(front)| - 1].start|;
      var e := front[|front| - 1];
      if Continues(e, x) { PadChain(w, Val(e), Val(x)); }
    }
  }

  lemma EvenlyPaddedSnoc(front: seq<string>, x: string)
    ensures EvenlyPadded(front + [x]) <==>
            && EvenlyPadded(front)
            && (front != [] && Continues(front[|front| - 1], x) ==> x == Pad(|front[|front| - 1]|, Val(x)))
  {
    hide Val, Pad, Continues;
    var ns := front + [x];
    if EvenlyPadded(ns) {
      assert forall i :: 0 <= i < |front| ==> ns[i] == front[i];
      if front != [] { assert ns[|front| - 1] == front[|front| - 1] && ns[|front|] == x; }
    }
  }
}
