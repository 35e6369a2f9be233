/** The host-list printer and parser of `internal/cluset/cluset.go`, as the loops that run. */
module Cluset {
  import opened ClusetSpec
  import opened Numerals
  import opened Ordering
  import opened Text
  import Theorems = ClusetTheorems

  method Compact(nodes: seq<string>) returns (result: seq<string>)
    ensures result == ClusetSpec.Compact(nodes)
  {
    hide Groups, Entries, SortedKeys;
    var groups := GroupNodes(nodes);
    result := FormatGroups(groups, SortedKeys(groups.Keys));
  }

  method FormatGroups(groups: map<string, seq<string>>, prefixes: seq<string>) returns (result: seq<string>)
    requires forall p :: p in prefixes ==> p in groups
    ensures result == Entries(groups, prefixes)
  {
    hide Compressed, Sorted;
    result := [];
    for i := 0 to |prefixes|
      invariant |result| == i && forall j :: 0 <= j < i ==> result[j] == prefixes[j] + Compressed(Sorted(groups[prefixes[j]]))
    {
      assert prefixes[i] in prefixes;
      var compressed := CompressRange(Sorted(groups[prefixes[i]]));
      result := result + [prefixes[i] + compressed];
    }
  }

  method GroupNodes(nodes: seq<string>) returns (groups: map<string, seq<string>>)
    ensures groups == Groups(nodes)
  {
    hide Numbered, Prefix, Numeral;
    groups := map[];
    for i := 0 to |nodes|
      invariant groups == Groups(nodes[..i])
    {
      assert nodes[..i + 1][..i] == nodes[..i];
      var node := nodes[i];
      if Numbered(node) {
        var prefix, numStr := Prefix(node), Numeral(node);
        groups := groups[prefix := (if prefix in groups then groups[prefix] else []) + [numStr]];
      } else {
        groups := groups[node := []];
      }
    }
    assert nodes[..|nodes|] == nodes;
  }

  /** Turns sorted numerals into ranges. */
  method CompressRange(numbers: seq<string>) returns (s: string)
    ensures s == Compressed(numbers)
  {
    if |numbers| == 0 { return ""; }
    if |numbers| == 1 { return numbers[0]; }
    var parts: seq<string> := [];
    var start, end := numbers[0], numbers[0];
    assert numbers[..1][..0] == [];
    for i := 1 to |numbers|
      invariant RunsSoFar(numbers[..i], parts, start, end)
    {
      RunsStep(numbers, i, parts, start, end);
      if Atoi(numbers[i]) == Atoi(end) + 1 {
        end := numbers[i];
      } else {
        parts := parts + [if start == end then start else start + "-" + end];
        start, end := numbers[i], numbers[i];
      }
    }
    assert numbers[..|numbers|] == numbers;
    RunsDone(numbers, parts, start, end);
    parts := parts + [if start == end then start else start + "-" + end];
    s := "[" + Join(parts, ",") + "]";
  }

  /** All runs but the last are written out, the last runs from `start` to `end`. */
  ghost predicate RunsSoFar(numbers: seq<string>, parts: seq<string>, start: string, end: string) {
    var runs := Runs(numbers);
    runs != [] && runs[|runs| - 1] == Run(start, end) && parts == FormatRanges(runs[..|runs| - 1])
  }

  lemma RunsStep(numbers: seq<string>, i: nat, parts: seq<string>, start: string, end: string)
    requires 0 < i < |numbers| && RunsSoFar(numbers[..i], parts, start, end)
    ensures if Atoi(numbers[i]) == Atoi(end) + 1 then RunsSoFar(numbers[..i + 1], parts, start, numbers[i])
            else RunsSoFar(numbers[..i + 1], parts + [FormatRange(Run(start, end))], numbers[i], numbers[i])
  {
    hide Atoi, FormatRange;
    assert numbers[..i + 1][..i] == numbers[..i] && numbers[..i] != [];
    var runs, all := Runs(numbers[..i]), Runs(numbers[..i + 1]);
    if Atoi(numbers[i]) == Atoi(end) + 1 {
      assert all[..|all| - 1] == runs[..|runs| - 1];
    } else {
      assert all[..|all| - 1] == runs;
      assert FormatRanges(runs) == parts + [FormatRange(Run(start, end))];
    }
  }

  lemma RunsDone(numbers: seq<string>, parts: seq<string>, start: string, end: string)
    requires RunsSoFar(numbers, parts, start, end)
    ensures FormatRanges(Runs(numbers)) == parts + [FormatRange(Run(start, end))]
  {
    hide FormatRange, Runs;
  }

  // ---------- parsing ----------

  method Expand(compressed: seq<string>) returns (result: seq<string>)
    requires forall entry :: entry in compressed ==> EntryEnds(entry)
    ensures result == ClusetSpec.Expand(compressed)
  {
    hide EntryEnds, ExpandEntry;
    result := [];
    for i := 0 to |compressed|
      invariant result == ClusetSpec.Expand(compressed[..i])
    {
      assert compressed[..i + 1][..i] == compressed[..i];
      assert compressed[i] in compressed;
      var names := ExpandOne(compressed[i]);
      result := result + names;
    }
    assert compressed[..|compressed|] == compressed;
  }

  method ExpandOne(entry: string) returns (names: seq<string>)
    requires EntryEnds(entry)
    ensures names == ExpandEntry(entry)
  {
    hide PartEnds, Split, ExpandParts;
    if Bracketed(entry) {
      var at := IndexOf(entry, '[');
      names := ExpandRanges(entry[..at], Split(entry[at + 1..|entry| - 1], ','));
    } else {
      names := [entry];
    }
  }

  method ExpandRanges(prefix: string, parts: seq<string>) returns (names: seq<string>)
    requires forall part :: part in parts ==> PartEnds(part)
    ensures names == ExpandParts(prefix, parts)
  {
    names := [];
    for j := 0 to |parts|
      invariant names == ExpandParts(prefix, parts[..j])
    {
      assert parts[..j + 1][..j] == parts[..j];
      var part := parts[j];
      assert part in parts;
      if '-' in part {
        var bounds := Split(part, '-');
        var counted := CountUp(prefix, |bounds[0]|, Atoi(bounds[0]), Atoi(bounds[1]));
        names := names + counted;
      } else {
        names := names + [prefix + part];
      }
    }
    assert parts[..|parts|] == parts;
  }

  method CountUp(prefix: string, width: nat, lo: nat, hi: nat) returns (names: seq<string>)
    requires hi < MAX_INT
    ensures names == Count(prefix, width, lo, hi)
  {
    hide Pad;
    names := [];
    var i: int := lo;
    while i <= hi
      invariant lo <= i && (lo <= hi ==> i <= hi + 1)
      invariant names + Count(prefix, width, i, hi) == Count(prefix, width, lo, hi)
      decreases hi + 1 - i
    {
      names := names + [prefix + Pad(width, i)];
      i := Increment(i);
    }
  }

  method SplitList(list: string) returns (result: seq<string>)
    ensures result == ClusetSpec.SplitList(list)
  {
    result := [];
    var current := "";
    var bracketDepth := 0;
    for i := 0 to |list|
      invariant bracketDepth >= 0
      invariant result + SplitFrom(list[i..], bracketDepth, current) == ClusetSpec.SplitList(list)
    {
      var ch := list[i];
      assert list[i..][0] == ch && list[i..][1..] == list[i + 1..];
      assert Depth([ch], bracketDepth) == if ch == '[' then bracketDepth + 1
                                          else if ch == ']' && bracketDepth > 0 then bracketDepth - 1 else bracketDepth;
      if ch == '[' {
        bracketDepth := bracketDepth + 1;
        current := current + [ch];
      } else if ch == ']' {
        if bracketDepth > 0 { bracketDepth := bracketDepth - 1; }
        current := current + [ch];
      } else if ch == ',' {
        if bracketDepth == 0 {
          var part := TrimSpace(current);
          if part != "" { result := result + [part]; }
          current := "";
        } else {
          current := current + [ch];
        }
      } else {
        current := current + [ch];
      }
    }
    if |current| > 0 {
      var part := TrimSpace(current);
      if part != "" { result := result + [part]; }
    }
  }

  /** ExpandList, on what Compact printed, gives the names back. */
  method PrintAndRead(xs: seq<string>) returns (names: seq<string>)
    requires Theorems.Tame(xs) && Theorems.Clean(xs) && Theorems.Aligned(xs) && Theorems.Listable(xs)
    ensures multiset(names) == multiset(xs)
  {
    hide Theorems.Tame, Theorems.Clean, Theorems.Aligned, Theorems.Listable, ClusetSpec.Compact, ClusetSpec.SplitList, EntryEnds;
    var printed := Compact(xs);
    var items := SplitList(Join(printed, ","));
    Theorems.ListRoundTrip(xs);
    Theorems.CompactEnds(xs);
    names := Expand(items);
  }
}
