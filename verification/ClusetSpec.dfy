/** What the host-list printer and parser of `internal/cluset/cluset.go` compute. */
module ClusetSpec {
  import opened Numerals
  import opened Ordering
  import opened Text

  // ---------- the printing direction ----------

  /** Where the longest run of digits at the end of a name starts. */
  function DigitsFrom(s: string): (i: nat)
    ensures i <= |s| && AllDigits(s[i..])
    ensures i > 0 ==> !IsDigit(s[i - 1])
  {
    if s == "" || !IsDigit(s[|s| - 1]) then |s| else DigitsFrom(s[..|s| - 1])
  }

  /** The first pattern matches: the name ends in digits, and no newline precedes them. */
  predicate Numbered(s: string) {
    DigitsFrom(s) < |s| && '\n' !in s[..DigitsFrom(s)]
  }

  function Prefix(s: string): string {
    if Numbered(s) then s[..DigitsFrom(s)] else s
  }

  function Numeral(s: string): string {
    if Numbered(s) then s[DigitsFrom(s)..] else ""
  }

  /** The group map after the given names: numerals are appended, a name without a numeral empties its group. */
  function Groups(nodes: seq<string>): map<string, seq<string>> {
    if nodes == [] then map[] else AddName(Groups(nodes[..|nodes| - 1]), nodes[|nodes| - 1])
  }

  function AddName(groups: map<string, seq<string>>, node: string): map<string, seq<string>> {
    if Numbered(node) then
      groups[Prefix(node) := (if Prefix(node) in groups then groups[Prefix(node)] else []) + [Numeral(node)]]
    else groups[node := []]
  }

  predicate ByValue(a: string, b: string) {
    Atoi(a) <= Atoi(b)
  }

  /** A run of numerals, from its first to its last. */
  datatype Run = Run(start: string, end: string)

  function Runs(numbers: seq<string>): (runs: seq<Run>)
    ensures numbers == [] <==> runs == []
    ensures numbers != [] ==> runs[|runs| - 1].end == numbers[|numbers| - 1]
  {
    if numbers == [] then []
    else
      var last := numbers[|numbers| - 1];
      var runs := Runs(numbers[..|numbers| - 1]);
      if runs != [] && Atoi(last) == Atoi(runs[|runs| - 1].end) + 1 then
        runs[..|runs| - 1] + [Run(runs[|runs| - 1].start, last)]
      else runs + [Run(last, last)]
  }

  function FormatRange(run: Run): string {
    if run.start == run.end then run.start else run.start + "-" + run.end
  }

  function FormatRanges(runs: seq<Run>): (parts: seq<string>)
    ensures |parts| == |runs| && forall i :: 0 <= i < |runs| ==> parts[i] == FormatRange(runs[i])
  {
    seq(|runs|, i requires 0 <= i < |runs| => FormatRange(runs[i]))
  }

  function Compressed(numbers: seq<string>): string {
    if numbers == [] then ""
    else if |numbers| == 1 then numbers[0]
    else "[" + Join(FormatRanges(Runs(numbers)), ",") + "]"
  }

  function Sorted(numbers: seq<string>): seq<string> {
    SortBy(numbers, ByValue)
  }

  /** One entry per group, in order of the prefixes. */
  function Entries(groups: map<string, seq<string>>, prefixes: seq<string>): (entries: seq<string>)
    requires forall p :: p in prefixes ==> p in groups
    ensures |entries| == |prefixes|
    ensures forall i :: 0 <= i < |prefixes| ==> entries[i] == prefixes[i] + Compressed(Sorted(groups[prefixes[i]]))
  {
    seq(|prefixes|, i requires 0 <= i < |prefixes| => prefixes[i] + Compressed(Sorted(groups[prefixes[i]])))
  }

  function Compact(nodes: seq<string>): seq<string> {
    Entries(Groups(nodes), SortedKeys(Groups(nodes).Keys))
  }

  // ---------- the parsing direction ----------

  /** The second pattern matches: a bracket opens somewhere and the last character closes it. */
  predicate Bracketed(entry: string) {
    && '\n' !in entry && entry != "" && entry[|entry| - 1] == ']' && IndexOf(entry, '[') < |entry| - 1
  }

  /** The names `prefix` followed by `lo` to `hi`. */
  function Count(prefix: string, width: nat, lo: nat, hi: nat): (names: seq<string>)
    ensures |names| == if lo <= hi then hi - lo + 1 else 0
    ensures forall i :: 0 <= i < |names| ==> names[i] == prefix + Pad(width, lo + i)
    decreases hi + 1 - lo
  {
    if lo > hi then [] else [prefix + Pad(width, lo)] + Count(prefix, width, lo + 1, hi)
  }

  function ExpandPart(prefix: string, part: string): seq<string> {
    if '-' in part then
      var bounds := Split(part, '-');
      assert |bounds| >= 2 by { SplitHasTwo(part, '-'); }
      Count(prefix, |bounds[0]|, Atoi(bounds[0]), Atoi(bounds[1]))
    else [prefix + part]
  }

  lemma SplitHasTwo(s: string, c: char)
    requires c in s
    ensures |Split(s, c)| >= 2
  {
    var i := IndexOf(s, c);
    assert s == s[..i] + [c] + s[i + 1..];
    assert c !in s[..i];
    SplitAtFirst(s[..i], c, s[i + 1..]);
  }

  function ExpandParts(prefix: string, parts: seq<string>): seq<string> {
    if parts == [] then [] else ExpandParts(prefix, parts[..|parts| - 1]) + ExpandPart(prefix, parts[|parts| - 1])
  }

  function ExpandEntry(entry: string): seq<string> {
    if Bracketed(entry) then
      var i := IndexOf(entry, '[');
      ExpandParts(entry[..i], Split(entry[i + 1..|entry| - 1], ','))
    else [entry]
  }

  function Expand(entries: seq<string>): seq<string> {
    if entries == [] then [] else Expand(entries[..|entries| - 1]) + ExpandEntry(entries[|entries| - 1])
  }

  /** The counting loop ends: its upper bound is below the largest int, so the counter can pass it. */
  ghost predicate PartEnds(part: string) {
    '-' in part ==> |Split(part, '-')| >= 2 && Atoi(Split(part, '-')[1]) < MAX_INT
  }

  ghost predicate EntryEnds(entry: string) {
    Bracketed(entry) ==> forall part :: part in Split(entry[IndexOf(entry, '[') + 1..|entry| - 1], ',') ==> PartEnds(part)
  }

  // ---------- lists written on one line ----------

  function Emit(current: string): seq<string> {
    if TrimSpace(current) != "" then [TrimSpace(current)] else []
  }

  /** The bracket depth after `s`. A closing bracket at depth 0 is ignored. */
  function Depth(s: string, d: nat): nat {
    if s == "" then d
    else Depth(s[1..], if s[0] == '[' then d + 1 else if s[0] == ']' && d > 0 then d - 1 else d)
  }

  /** Cuts at the commas outside brackets, with `current` already collected at depth `d`. */
  function SplitFrom(s: string, d: nat, current: string): seq<string> {
    if s == "" then Emit(current)
    else if s[0] == ',' && d == 0 then Emit(current) + SplitFrom(s[1..], 0, "")
    else SplitFrom(s[1..], Depth([s[0]], d), current + [s[0]])
  }

  function SplitList(list: string): seq<string> {
    SplitFrom(list, 0, "")
  }

  function ExpandList(list: string): seq<string> {
    Expand(SplitList(list))
  }
}
