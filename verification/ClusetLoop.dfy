/** When the counting loop of `internal/cluset/cluset.go` ends: its counter is an int that wraps around. */
module ClusetLoop {
  import opened ClusetEntries
  import opened ClusetSpec
  import opened Numerals
  import opened Text

  /** The counter after `k` rounds. */
  function After(lo: int, k: nat): int {
    if k == 0 then lo else Increment(After(lo, k - 1))
  }

  /** At some point the counter is above the upper bound. */
  ghost predicate Passes(lo: int, hi: int) {
    exists k: nat :: After(lo, k) > hi
  }

  lemma {:induction false} AfterIsInt(lo: int, k: nat)
    requires lo <= MAX_INT
    ensures After(lo, k) <= MAX_INT
  {
    if k > 0 { AfterIsInt(lo, k - 1); }
  }

  lemma {:induction false} AfterSteps(lo: int, k: nat)
    requires lo + k <= MAX_INT
    ensures After(lo, k) == lo + k
  {
    if k > 0 { AfterSteps(lo, k - 1); }
  }

  /** The counter passes its bound if and only if the bound is below the largest int. */
  lemma PassesExactly(lo: int, hi: int)
    requires lo <= MAX_INT && hi <= MAX_INT
    ensures Passes(lo, hi) <==> hi < MAX_INT
  {
    if k: nat :| After(lo, k) > hi { AfterIsInt(lo, k); }
    if hi < MAX_INT {
      var k := if lo > hi then 0 else hi + 1 - lo;
      AfterSteps(lo, k);
      assert After(lo, k) > hi;
    }
  }

  /** When it does, one name has been written for every value of the counter on the way. */
  lemma LoopWrites(prefix: string, width: nat, lo: nat, hi: nat)
    requires lo <= MAX_INT && hi < MAX_INT
    ensures var names := Count(prefix, width, lo, hi);
            && After(lo, |names|) > hi
            && forall k :: 0 <= k < |names| ==> After(lo, k) == lo + k <= hi && names[k] == prefix + Pad(width, lo + k)
  {
    hide Count, Pad, After;
    var names := Count(prefix, width, lo, hi);
    AfterSteps(lo, |names|);
    forall k | 0 <= k < |names| ensures After(lo, k) == lo + k <= hi { AfterSteps(lo, k); }
  }

  lemma AtoiIsInt(s: string)
    ensures Atoi(s) <= MAX_INT
  {}

  /** Expanding a part ends if and only if its counter passes its bound. */
  lemma PartEndsExactly(part: string)
    ensures PartEnds(part) <==> '-' in part ==> Passes(Atoi(Split(part, '-')[0]), if |Split(part, '-')| > 1 then Atoi(Split(part, '-')[1]) else 0)
  {
    hide Atoi, Split, Passes;
    if '-' in part {
      SplitHasTwo(part, '-');
      var bounds := Split(part, '-');
      AtoiIsInt(bounds[0]);
      AtoiIsInt(bounds[1]);
      PassesExactly(Atoi(bounds[0]), Atoi(bounds[1]));
    }
  }

  function RangeEntry(prefix: string, a: string, b: string): string {
    prefix + ("[" + (a + "-" + b) + "]")
  }

  /** An entry with one range can be expanded if and only if the upper bound, as written, is below the largest int. */
  lemma RangeEntryEnds(prefix: string, a: string, b: string)
    requires '[' !in prefix && '\n' !in prefix && AllDigits(a) && AllDigits(b) && b != ""
    ensures EntryEnds(RangeEntry(prefix, a, b)) <==> Val(b) < MAX_INT
  {
    hide AllDigits, Val, Bracketed, IndexOf, Split;
    var body := a + "-" + b;
    DigitsPlain(a, '\n');
    DigitsPlain(b, '\n');
    DigitsPlain(a, ',');
    DigitsPlain(b, ',');
    DigitsPlain(a, '-');
    DigitsPlain(b, '-');
    BracketsShape(prefix, body);
    SplitNone(body, ',');
    SplitAtFirst(a, '-', b);
    SplitNone(b, '-');
    assert body[|a|] == '-';
    AtoiOfDigits(b);
    assert PartEnds(body) <==> Val(b) < MAX_INT;
    assert [body][0] == body;
  }

  lemma AtoiOfDigits(b: string)
    requires AllDigits(b) && b != ""
    ensures Atoi(b) == if Val(b) > MAX_INT then MAX_INT else Val(b)
  {}

  /** An entry for one name that is never expanded. */
  lemma LargestNeverEnds()
    ensures !EntryEnds(RangeEntry("a", Dec(MAX_INT), Dec(MAX_INT)))
  {
    hide Dec, EntryEnds;
    ValOfDec(MAX_INT);
    RangeEntryEnds("a", Dec(MAX_INT), Dec(MAX_INT));
  }
}
