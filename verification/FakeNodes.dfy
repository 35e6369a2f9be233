/** Padding small blocks with fake nodes: `pkg/translate/fake.go` and `pkg/translate/block.go`. */
module FakeNodes {
  import opened ClusetSpec
  import opened ClusetTheorems
  import opened Options
  import opened Ordering
  import opened Printing
  import opened Text
  import opened TranslateSpec

  import Cluset

  /** The pool of fake nodes, handed out from the front. */
  class FakeNodeConfig {
    var baseBlockSize: int
    var index: nat
    const nodes: seq<string>

    ghost predicate Valid()
      reads this
    {
      index <= |nodes|
    }

    constructor (fakeNodeData: string)
      requires EntryEnds(fakeNodeData)
      ensures Valid() && nodes == Expand([fakeNodeData]) && index == 0
    {
      var names := Cluset.Expand([fakeNodeData]);
      nodes := names;
      index := 0;
    }

    /** The next `count` fake nodes, or nothing if not enough are left. */
    method GetFreeFakeNodes(count: nat) returns (text: Option<string>)
      requires Valid()
      modifies this`index
      ensures Valid()
      ensures if old(index) + count > |nodes| then text == None && index == old(index)
              else text == Some(OneLine(nodes[old(index)..old(index) + count])) && index == old(index) + count
    {
      hide Compact, Join;
      var start := index;
      var end := index + count;
      if end > |nodes| { return None; }
      index := end;
      var parts := Cluset.Compact(nodes[start..end]);
      text := Some(Join(parts, ","));
    }
  }

  // ---------- what is handed out ----------

  /** The number of fake nodes a block needs. */
  function Deficit(b: BlockInfo, base: int): nat {
    if |b.nodes| < base then base - |b.nodes| else 0
  }

  function TotalDeficit(blocks: seq<BlockInfo>, base: int): nat {
    if blocks == [] then 0 else TotalDeficit(blocks[..|blocks| - 1], base) + Deficit(blocks[|blocks| - 1], base)
  }

  lemma {:induction false} DeficitGrows(blocks: seq<BlockInfo>, base: int, i: nat)
    requires i <= |blocks|
    ensures TotalDeficit(blocks[..i], base) <= TotalDeficit(blocks, base)
  {
    if i < |blocks| {
      var front := blocks[..|blocks| - 1];
      assert front[..i] == blocks[..i];
      DeficitGrows(front, base, i);
    } else {
      assert blocks[..i] == blocks;
    }
  }

  lemma DeficitStep(blocks: seq<BlockInfo>, base: int, i: nat)
    requires i < |blocks|
    ensures TotalDeficit(blocks[..i + 1], base) == TotalDeficit(blocks[..i], base) + Deficit(blocks[i], base)
    ensures TotalDeficit(blocks[..i + 1], base) <= TotalDeficit(blocks, base)
  {
    assert blocks[..i + 1][..i] == blocks[..i];
    DeficitGrows(blocks, base, i + 1);
  }

  /** The fake nodes of block `i`: those after the ones of the blocks before it. */
  function FakesOf(blocks: seq<BlockInfo>, base: int, pool: seq<string>, i: nat): (fakes: seq<string>)
    requires i < |blocks| && TotalDeficit(blocks[..i + 1], base) <= |pool|
    ensures |fakes| == Deficit(blocks[i], base)
  {
    DeficitStep(blocks, base, i);
    pool[TotalDeficit(blocks[..i], base)..TotalDeficit(blocks[..i + 1], base)]
  }

  function Handed(blocks: seq<BlockInfo>, base: int, pool: seq<string>, i: nat): seq<string>
    requires i <= |blocks| && TotalDeficit(blocks[..i], base) <= |pool|
  {
    if i == 0 then []
    else
      DeficitStep(blocks, base, i - 1);
      Handed(blocks, base, pool, i - 1) + FakesOf(blocks, base, pool, i - 1)
  }

  /** Put together, the fake nodes of the blocks are the front of the pool: consecutive, and none used twice. */
  lemma {:induction false} FakesAreConsecutive(blocks: seq<BlockInfo>, base: int, pool: seq<string>, i: nat)
    requires i <= |blocks| && TotalDeficit(blocks[..i], base) <= |pool|
    ensures Handed(blocks, base, pool, i) == pool[..TotalDeficit(blocks[..i], base)]
  {
    if i > 0 {
      DeficitStep(blocks, base, i - 1);
      FakesAreConsecutive(blocks, base, pool, i - 1);
    }
  }

  // ---------- the printed blocks ----------

  datatype BlockLine = BlockLine(comment: string, name: string, nodes: string)

  function BlockComment(b: BlockInfo): string {
    if b.name == "" then "" else "# " + b.id + "=" + b.name + "\n"
  }

  /** The line of a block, padded with the given fake nodes if it needs any. */
  function LineOf(b: BlockInfo, fakes: seq<string>): BlockLine {
    BlockLine(BlockComment(b), b.id, if fakes == [] then OneLine(b.nodes) else OneLine(b.nodes) + "," + OneLine(fakes))
  }

  ghost predicate PaddedLines(blocks: seq<BlockInfo>, base: int, pool: seq<string>, lines: seq<BlockLine>) {
    && |lines| <= |blocks| && TotalDeficit(blocks[..|lines|], base) <= |pool|
    && forall i :: 0 <= i < |lines| ==> PaddedLine(blocks, base, pool, i, lines[i])
  }

  ghost predicate PaddedLine(blocks: seq<BlockInfo>, base: int, pool: seq<string>, i: nat, line: BlockLine) {
    && i < |blocks| && TotalDeficit(blocks[..i + 1], base) <= |pool|
    && line == LineOf(blocks[i], FakesOf(blocks, base, pool, i))
  }

  /** The line of a block: its ID, a comment with ID and name if it has a name, and its own nodes before any fake ones. */
  ghost predicate IsLineOf(line: BlockLine, b: BlockInfo) {
    && line.name == b.id && line.comment == (if b.name == "" then "" else "# " + b.id + "=" + b.name + "\n")
    && OneLine(b.nodes) <= line.nodes
  }

  ghost predicate AreLinesOf(lines: seq<BlockLine>, blocks: seq<BlockInfo>) {
    |lines| <= |blocks| && forall i :: 0 <= i < |lines| ==> IsLineOf(lines[i], blocks[i])
  }

  lemma PlainLinesRead(blocks: seq<BlockInfo>, lines: seq<BlockLine>)
    requires |lines| == |blocks| && forall i :: 0 <= i < |blocks| ==> lines[i] == LineOf(blocks[i], [])
    ensures AreLinesOf(lines, blocks)
  {
    hide LineOf, IsLineOf;
    forall i | 0 <= i < |lines| ensures IsLineOf(lines[i], blocks[i]) { LineReads(blocks[i], []); }
  }

  lemma LineReads(b: BlockInfo, fakes: seq<string>)
    ensures IsLineOf(LineOf(b, fakes), b)
  {
    hide OneLine;
  }

  lemma LinesRead(blocks: seq<BlockInfo>, base: int, pool: seq<string>, lines: seq<BlockLine>)
    requires PaddedLines(blocks, base, pool, lines)
    ensures AreLinesOf(lines, blocks)
  {
    hide LineOf, IsLineOf, FakesOf, TotalDeficit;
    forall i | 0 <= i < |lines| ensures IsLineOf(lines[i], blocks[i]) {
      assert PaddedLine(blocks, base, pool, i, lines[i]);
      LineReads(blocks[i], FakesOf(blocks, base, pool, i));
    }
  }

  lemma NothingPadded(blocks: seq<BlockInfo>, base: int, pool: seq<string>)
    ensures PaddedLines(blocks, base, pool, [])
  {}

  lemma NoDeficit(base: int)
    ensures TotalDeficit([], base) == 0
  {}

  /** The line of block `i`, spelled out. */
  lemma PaddedLineIs(blocks: seq<BlockInfo>, base: int, pool: seq<string>, i: nat)
    requires i < |blocks| && TotalDeficit(blocks[..i + 1], base) <= |pool|
    ensures var b := blocks[i];
            var from := TotalDeficit(blocks[..i], base);
            && TotalDeficit(blocks[..i + 1], base) == from + Deficit(b, base)
            && PaddedLine(blocks, base, pool, i,
                 BlockLine(BlockComment(b), b.id,
                           if |b.nodes| < base then OneLine(b.nodes) + "," + OneLine(pool[from..from + Deficit(b, base)])
                           else OneLine(b.nodes)))
  {
    hide OneLine, BlockComment;
    DeficitStep(blocks, base, i);
  }

  lemma LinesStep(blocks: seq<BlockInfo>, base: int, pool: seq<string>, lines: seq<BlockLine>, line: BlockLine)
    requires PaddedLines(blocks, base, pool, lines) && PaddedLine(blocks, base, pool, |lines|, line)
    ensures PaddedLines(blocks, base, pool, lines + [line])
  {
    hide PaddedLine;
    PaddedEnough(blocks, base, pool, |lines|, line);
    var more := lines + [line];
    forall i | 0 <= i < |more| ensures PaddedLine(blocks, base, pool, i, more[i]) {
      if i < |lines| { assert more[i] == lines[i]; }
    }
  }

  lemma PaddedEnough(blocks: seq<BlockInfo>, base: int, pool: seq<string>, i: nat, line: BlockLine)
    requires PaddedLine(blocks, base, pool, i, line)
    ensures i < |blocks| && TotalDeficit(blocks[..i + 1], base) <= |pool|
  {}

  // ---------- reading a padded line ----------

  lemma {:induction false} ExpandConcat(a: seq<string>, b: seq<string>)
    ensures Expand(a + b) == Expand(a) + Expand(b)
  {
    hide ExpandEntry;
    if b == [] {
      assert a + b == a;
    } else {
      var front, last := b[..|b| - 1], b[|b| - 1];
      assert (a + b)[..|a + b| - 1] == a + front;
      ExpandConcat(a, front);
    }
  }

  lemma {:induction false} JoinConcat(a: seq<string>, b: seq<string>)
    requires a != [] && b != []
    ensures Join(a + b, ",") == Join(a, ",") + "," + Join(b, ",")
  {
    if |a| > 1 {
      assert (a + b)[1..] == a[1..] + b;
      JoinConcat(a[1..], b);
    }
  }

  lemma CommaFirst(s: string)
    ensures SplitList("," + s) == SplitList(s)
  {
    assert ("," + s)[1..] == s;
    NothingEmitted();
  }

  lemma NothingEmitted()
    ensures Emit("") == []
  {
    NoRest("");
  }

  lemma PrintedItems(names: seq<string>)
    requires Printable(names)
    ensures forall e :: e in Compact(names) ==> Item(e)
    ensures multiset(Expand(Compact(names))) == multiset(names) && SplitList(OneLine(names)) == Compact(names)
  {
    hide Tame, Clean, Aligned, Listable, Item, SplitList, Expand, Compact;
    ListRoundTrip(names);
    RoundTrip(names);
    CompactItems(names);
  }

  /** Reading a padded line gives the nodes of the block and its fake nodes. */
  lemma PaddedReadsBack(own: seq<string>, fakes: seq<string>)
    requires Printable(own) && Printable(fakes) && fakes != []
    ensures multiset(ExpandList(OneLine(own) + "," + OneLine(fakes))) == multiset(own) + multiset(fakes)
  {
    hide Printable, Item, SplitList, Compact, Expand;
    PrintedItems(own);
    PrintedItems(fakes);
    CompactEmpty(fakes);
    var a, b := Compact(own), Compact(fakes);
    if own == [] {
      CompactEmpty(own);
      assert OneLine(own) + "," + OneLine(fakes) == "," + OneLine(fakes);
      CommaFirst(OneLine(fakes));
    } else {
      CompactEmpty(own);
      JoinConcat(a, b);
      SplitListOfJoin(a + b);
      ExpandConcat(a, b);
    }
  }

  lemma CompactEmpty(names: seq<string>)
    requires Printable(names)
    ensures names == [] <==> Compact(names) == []
  {
    hide Printable, Compact;
    PrintedItems(names);
    if names != [] { assert names[0] in multiset(names); }
    if Compact(names) == [] { assert Expand(Compact(names)) == []; }
    if names == [] { NothingGrouped(); }
  }

  lemma NothingGrouped()
    ensures Compact([]) == []
  {
    assert Groups([]) == map[];
    assert SortedKeys(Groups([]).Keys) == [];
  }

  /** On success every block has at least the base size: its own nodes, and as many fake ones as are missing. */
  lemma PaddedSize(blocks: seq<BlockInfo>, base: int, pool: seq<string>, i: nat)
    requires i < |blocks| && TotalDeficit(blocks, base) <= |pool|
    ensures TotalDeficit(blocks[..i + 1], base) <= |pool|
    ensures |blocks[i].nodes| + |FakesOf(blocks, base, pool, i)| == if |blocks[i].nodes| < base then base else |blocks[i].nodes|
  {
    DeficitStep(blocks, base, i);
  }
}
