/** Reading one printed group back. */
module ClusetEntries {
  import opened ClusetRuns
  import opened ClusetSpec
  import opened Numerals
  import opened Text

  function Prefixed(prefix: string, ms: seq<string>): (names: seq<string>)
    ensures |names| == |ms| && forall i :: 0 <= i < |ms| ==> names[i] == prefix + ms[i]
  {
    seq(|ms|, i requires 0 <= i < |ms| => prefix + ms[i])
  }

  /** The names a printed group stands for. */
  ghost function GroupNames(prefix: string, ns: seq<string>): seq<string> {
    if ns == [] then [prefix] else Prefixed(prefix, ReadBack(ns))
  }

  lemma DigitsPlain(s: string, c: char)
    requires AllDigits(s) && !IsDigit(c)
    ensures c !in s
  {}

  /** Printed ranges hold digits and dashes only. */
  lemma RangePlain(run: Run, c: char)
    requires RunOk(run) && !IsDigit(c) && c != '-'
    ensures c !in FormatRange(run)
  {
    DigitsPlain(run.start, c);
    DigitsPlain(run.end, c);
  }

  lemma CountPrefixed(prefix: string, width: nat, lo: nat, hi: nat)
    ensures Count(prefix, width, lo, hi) == Prefixed(prefix, Count("", width, lo, hi))
  {
    hide Pad;
    var names := Count("", width, lo, hi);
    forall i | 0 <= i < |names| ensures prefix + names[i] == prefix + Pad(width, lo + i) {
      assert "" + Pad(width, lo + i) == Pad(width, lo + i);
    }
  }

  lemma ExpandOfDash(prefix: string, a: string, b: string)
    requires '-' !in a && '-' !in b
    ensures ExpandPart(prefix, a + "-" + b) == Count(prefix, |a|, Atoi(a), Atoi(b))
  {
    hide Atoi, Count;
    var part := a + "-" + b;
    assert part[|a|] == '-';
    SplitAtFirst(a, '-', b);
    SplitNone(b, '-');
  }

  lemma ExpandOfRange(prefix: string, run: Run)
    requires RunOk(run)
    ensures ExpandPart(prefix, FormatRange(run)) == Prefixed(prefix, Spell(run))
  {
    hide RunOk, Val, Pad, Atoi, Count;
    RunDigits(run);
    DigitsPlain(run.start, '-');
    DigitsPlain(run.end, '-');
    if run.start != run.end {
      ExpandOfDash(prefix, run.start, run.end);
      CountPrefixed(prefix, |run.start|, Atoi(run.start), Atoi(run.end));
    }
  }

  lemma RunDigits(run: Run)
    requires RunOk(run)
    ensures AllDigits(run.start) && AllDigits(run.end) && run.start != "" && run.end != ""
  {}

  lemma {:induction false} ExpandOfRanges(prefix: string, runs: seq<Run>)
    requires forall r :: r in runs ==> RunOk(r)
    ensures ExpandParts(prefix, FormatRanges(runs)) == Prefixed(prefix, SpellAll(runs))
  {
    hide RunOk, FormatRange, ExpandPart, Spell;
    if runs != [] {
      var front, last := runs[..|runs| - 1], runs[|runs| - 1];
      assert last in runs;
      ExpandOfRanges(prefix, front);
      ExpandOfRange(prefix, last);
      assert FormatRanges(runs)[..|runs| - 1] == FormatRanges(front);
      assert Prefixed(prefix, SpellAll(front) + Spell(last)) == Prefixed(prefix, SpellAll(front)) + Prefixed(prefix, Spell(last));
    }
  }

  lemma BodyPlain(runs: seq<Run>, c: char)
    requires (forall r :: r in runs ==> RunOk(r)) && !IsDigit(c) && c != '-' && c != ','
    ensures c !in Join(FormatRanges(runs), ",")
  {
    hide RunOk, FormatRange;
    if c in Join(FormatRanges(runs), ",") {
      JoinChars(FormatRanges(runs), ",", c);
      var p :| p in FormatRanges(runs) && c in p;
      var i :| 0 <= i < |runs| && p == FormatRange(runs[i]);
      RangePlain(runs[i], c);
    }
  }

  lemma BracketsShape(prefix: string, body: string)
    requires '[' !in prefix && '\n' !in prefix && '\n' !in body
    ensures var entry := prefix + ("[" + body + "]");
            && Bracketed(entry) && IndexOf(entry, '[') == |prefix| && entry[..|prefix|] == prefix
            && entry[|prefix| + 1..|entry| - 1] == body
  {
    var entry := prefix + ("[" + body + "]");
    assert entry == prefix + ['['] + (body + "]");
    IndexOfFirst(prefix, '[', body + "]");
  }

  /** A printed bracket group is taken apart into its prefix and its ranges. */
  lemma BracketsParse(prefix: string, ns: seq<string>)
    requires AllFit(ns) && |ns| > 1 && '[' !in prefix && '\n' !in prefix
    ensures var entry := prefix + Compressed(ns);
            && Bracketed(entry) && IndexOf(entry, '[') == |prefix| && entry[..|prefix|] == prefix
            && Split(entry[|prefix| + 1..|entry| - 1], ',') == FormatRanges(Runs(ns))
  {
    hide Val, Fits, RunOk, FormatRange, Runs, Bracketed, IndexOf, Split;
    var runs := Runs(ns);
    RunsOk(ns);
    var body := Join(FormatRanges(runs), ",");
    BodyPlain(runs, '\n');
    BracketsShape(prefix, body);
    forall p | p in FormatRanges(runs) ensures ',' !in p {
      var i :| 0 <= i < |runs| && p == FormatRange(runs[i]);
      RangePlain(runs[i], ',');
    }
    SplitOfJoin(FormatRanges(runs), ',');
  }

  lemma ExpandOfBrackets(prefix: string, ns: seq<string>)
    requires AllFit(ns) && |ns| > 1 && '[' !in prefix && '\n' !in prefix
    ensures ExpandEntry(prefix + Compressed(ns)) == GroupNames(prefix, ns)
  {
    hide Val, Fits, RunOk, FormatRange, Runs, Compressed, Bracketed;
    BracketsParse(prefix, ns);
    RunsOk(ns);
    ExpandOfRanges(prefix, Runs(ns));
  }

  /** Counting out a printed group ends. */
  lemma EntryEndsOf(prefix: string, ns: seq<string>)
    requires AllFit(ns) && '[' !in prefix && (ns != [] ==> '\n' !in prefix)
    ensures EntryEnds(prefix + Compressed(ns))
  {
    hide Val, Fits, RunOk, FormatRange, Runs, PartEnds;
    if |ns| > 1 {
      BracketsParse(prefix, ns);
      RunsOk(ns);
      forall part | part in FormatRanges(Runs(ns)) ensures PartEnds(part) {
        var i :| 0 <= i < |Runs(ns)| && part == FormatRange(Runs(ns)[i]);
        RangeEnds(Runs(ns)[i]);
      }
    } else if |ns| == 1 {
      FitsPlain(ns[0]);
      assert ns[0] in ns;
      assert '[' !in prefix + Compressed(ns);
    } else {
      assert prefix + Compressed(ns) == prefix;
    }
  }

  lemma FitsPlain(m: string)
    ensures Fits(m) ==> '[' !in m
  {}

  lemma RangeEnds(run: Run)
    requires RunOk(run)
    ensures PartEnds(FormatRange(run))
  {
    FitsAtoi(run.end);
    DigitsPlain(run.start, '-');
    DigitsPlain(run.end, '-');
    SplitAtFirst(run.start, '-', run.end);
    SplitNone(run.end, '-');
  }

  /** Reading a printed group back gives the names of the group. */
  lemma ExpandOfEntry(prefix: string, ns: seq<string>)
    requires AllFit(ns) && '[' !in prefix && (ns != [] ==> '\n' !in prefix)
    ensures ExpandEntry(prefix + Compressed(ns)) == GroupNames(prefix, ns)
  {
    hide Val, ReadBack, Runs, ReadNext, Pad;
    if |ns| > 1 {
      ExpandOfBrackets(prefix, ns);
    } else if |ns| == 1 {
      var m := ns[0];
      assert Fits(m);
      DigitsPlain(m, '[');
      ReadBackOne(m);
      assert ns == [m];
      assert '[' !in prefix + m;
    } else {
      assert prefix + Compressed(ns) == prefix;
    }
  }

  lemma ReadBackOne(m: string)
    requires Fits(m)
    ensures ReadBack([m]) == [m]
  {
    ReadBackSnoc([], m);
    ReadBackNothing();
    assert [] + [m] == [m];
  }
}
