/** Expanding entries however they were written: what one entry of a host list stands for. */
module WrittenEntries {
  import opened ClusetEntries
  import opened ClusetRuns
  import opened ClusetSpec
  import opened Numerals
  import opened Text
  import opened Trees

  /** What stands between two commas of a bracket: a text, or a range given by its ends. */
  datatype Part = Single(text: string) | Range(lo: string, hi: string)

  function Spelled(part: Part): string {
    match part
    case Single(text) => text
    case Range(lo, hi) => lo + "-" + hi
  }

  function SpelledAll(parts: seq<Part>): (texts: seq<string>)
    ensures |texts| == |parts| && forall i :: 0 <= i < |parts| ==> texts[i] == Spelled(parts[i])
  {
    seq(|parts|, i requires 0 <= i < |parts| => Spelled(parts[i]))
  }

  /** A text without separators; ends that are numerals below the largest int. */
  ghost predicate CanStand(part: Part) {
    match part
    case Single(text) => '-' !in text && ',' !in text && '\n' !in text
    case Range(lo, hi) => Fits(lo) && Fits(hi)
  }

  /** A part stands for its text, or for the numbers from one end to the other, padded like the lower end; for none if
      the lower end is above the upper one. */
  ghost predicate StandsFor(prefix: string, part: Part, names: seq<string>) {
    match part
    case Single(text) => names == [prefix + text]
    case Range(lo, hi) =>
      && |names| == (if Val(lo) <= Val(hi) then Val(hi) - Val(lo) + 1 else 0)
      && forall i :: 0 <= i < |names| ==> names[i] == prefix + Pad(|lo|, Val(lo) + i)
  }

  lemma PartRead(prefix: string, part: Part)
    requires CanStand(part)
    ensures StandsFor(prefix, part, ExpandPart(prefix, Spelled(part)))
    ensures ',' !in Spelled(part) && '\n' !in Spelled(part)
  {
    hide Val, Atoi, Pad;
    if part.Range? {
      FitsAtoi(part.lo);
      FitsAtoi(part.hi);
      FitsPlainDigits(part.lo);
      FitsPlainDigits(part.hi);
      ExpandOfDash(prefix, part.lo, part.hi);
    }
  }

  lemma FitsPlainDigits(m: string)
    requires Fits(m)
    ensures '-' !in m && ',' !in m && '\n' !in m
  {
    hide Val;
  }

  ghost predicate StandFor(prefix: string, parts: seq<Part>, chunks: seq<seq<string>>) {
    |chunks| == |parts| && forall i :: 0 <= i < |parts| ==> StandsFor(prefix, parts[i], chunks[i])
  }

  lemma {:induction false} PartsRead(prefix: string, parts: seq<Part>) returns (chunks: seq<seq<string>>)
    requires forall p :: p in parts ==> CanStand(p)
    ensures StandFor(prefix, parts, chunks) && ExpandParts(prefix, SpelledAll(parts)) == Flatten(chunks)
  {
    hide CanStand, StandsFor, ExpandPart, Spelled;
    if parts == [] {
      chunks := [];
    } else {
      var front, last := parts[..|parts| - 1], parts[|parts| - 1];
      assert last in parts && forall p :: p in front ==> p in parts;
      var more := PartsRead(prefix, front);
      PartRead(prefix, last);
      chunks := more + [ExpandPart(prefix, Spelled(last))];
      assert SpelledAll(parts)[..|parts| - 1] == SpelledAll(front);
      assert chunks[..|more|] == more;
    }
  }

  lemma BodyHasNo(parts: seq<Part>)
    requires forall p :: p in parts ==> CanStand(p)
    ensures '\n' !in Join(SpelledAll(parts), ",") && forall t :: t in SpelledAll(parts) ==> ',' !in t
  {
    hide CanStand, Spelled, Join;
    forall t | t in SpelledAll(parts) ensures ',' !in t && '\n' !in t {
      var i :| 0 <= i < |parts| && t == Spelled(parts[i]);
      assert parts[i] in parts;
      PartRead("", parts[i]);
    }
    if '\n' in Join(SpelledAll(parts), ",") { JoinChars(SpelledAll(parts), ",", '\n'); }
  }

  /** A prefix followed by parts in brackets stands for what its parts stand for, in order, each behind the prefix. */
  lemma ExpandOfParts(prefix: string, parts: seq<Part>) returns (chunks: seq<seq<string>>)
    requires parts != [] && '[' !in prefix && '\n' !in prefix && forall p :: p in parts ==> CanStand(p)
    ensures StandFor(prefix, parts, chunks)
    ensures ExpandEntry(prefix + ("[" + Join(SpelledAll(parts), ",") + "]")) == Flatten(chunks)
  {
    hide CanStand, StandFor, Spelled, ExpandParts, Join, Bracketed, IndexOf, Split;
    var body := Join(SpelledAll(parts), ",");
    chunks := PartsRead(prefix, parts);
    BodyHasNo(parts);
    BracketsShape(prefix, body);
    SplitOfJoin(SpelledAll(parts), ',');
    assert SpelledAll(parts) != [];
  }

  /** Any entry that does not end with a bracket, or has none that opens, stands for itself. */
  lemma ExpandOfPlain(entry: string)
    requires entry == "" || entry[|entry| - 1] != ']' || '[' !in entry
    ensures ExpandEntry(entry) == [entry]
  {
    hide ExpandParts, Split;
    if IndexOf(entry, '[') < |entry| { assert entry[IndexOf(entry, '[')] in entry; }
  }
}
