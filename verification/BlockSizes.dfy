/** The block sizes reported for a list of blocks: `pkg/translate/block.go`. */
module BlockSizes {
  import opened TranslateSpec

  function Pow2(l: nat): (p: nat)
    ensures p > 0
  {
    if l == 0 then 1 else 2 * Pow2(l - 1)
  }

  /** The integer part of the binary logarithm. */
  function Log2(n: nat): (l: nat)
    requires n > 0
    ensures Pow2(l) <= n < 2 * Pow2(l)
  {
    if n == 1 then 0 else 1 + Log2(n / 2)
  }

  /** How often the base may be doubled. Without blocks the logarithm is minus infinity; converted to an int it is
      some negative number, and all of them act alike. */
  function Levels(n: nat): (l: int)
    ensures l >= -1 && (l == -1 <==> n == 0)
  {
    if n == 0 then -1 else Log2(n)
  }

  /** The smallest number of nodes in a block, or -1 if there are no blocks. */
  ghost predicate IsMinSize(blocks: seq<BlockInfo>, m: int) {
    if blocks == [] then m == -1
    else (exists b :: b in blocks && |b.nodes| == m) && forall b :: b in blocks ==> m <= |b.nodes|
  }

  /** A requested size is a power of two times the base. */
  ghost predicate SizeLevel(size: int, base: int, levels: int) {
    exists l: nat :: l <= levels && size == Pow2(l) * base
  }

  /** The requested sizes are accepted: a base in range, and every size a level of it. */
  ghost predicate Acceptable(requested: seq<int>, smallest: int, levels: int) {
    && requested != [] && 0 < requested[0] <= smallest
    && forall size :: size in requested ==> SizeLevel(size, requested[0], levels)
  }

  function Defaults(smallest: int, levels: int): (sizes: seq<int>)
    ensures |sizes| == (if levels < 0 then 1 else levels + 1) && sizes[0] == smallest
    ensures forall l :: 0 <= l <= levels ==> sizes[l] == Pow2(l) * smallest
  {
    if levels < 0 then [smallest] else seq(levels + 1, l requires 0 <= l <= levels => Pow2(l) * smallest)
  }

  /** The requested sizes if they are accepted, otherwise the doublings of the base: the requested one with fake nodes,
      the size of the smallest block without. */
  ghost predicate SizesOf(blocks: seq<BlockInfo>, requested: seq<int>, useFake: bool, sizes: seq<int>) {
    exists smallest ::
      && (if useFake && requested != [] then smallest == requested[0] else IsMinSize(blocks, smallest))
      && sizes == if Acceptable(requested, smallest, Levels(|blocks|)) then requested else Defaults(smallest, Levels(|blocks|))
  }

  /** The size is the base times a power of two that is at most the number of blocks. */
  ghost predicate IsDoubled(size: int, base: int, count: nat) {
    exists l: nat :: Pow2(l) <= count && size == Pow2(l) * base
  }

  /** A base for the default sizes: the requested one with fake nodes, the least number of nodes in a block without. */
  ghost predicate IsBase(blocks: seq<BlockInfo>, requested: seq<int>, useFake: bool, base: int) {
    if useFake && requested != [] then base == requested[0]
    else if blocks == [] then base == -1
    else (exists b :: b in blocks && |b.nodes| == base) && forall b :: b in blocks ==> base <= |b.nodes|
  }

  /** The requested sizes stand: there is a block, the first size is positive and, without fake nodes, fits into every
      block, and each is the first one doubled. */
  ghost predicate Stands(blocks: seq<BlockInfo>, requested: seq<int>, useFake: bool) {
    && blocks != [] && requested != [] && requested[0] > 0
    && (useFake || forall b :: b in blocks ==> requested[0] <= |b.nodes|)
    && forall size :: size in requested ==> IsDoubled(size, requested[0], |blocks|)
  }

  /** A base and its doublings, as many as there are levels of blocks: the last power of two is at most the number of
      blocks, the next one is more; without blocks the base alone. */
  ghost predicate AreDoublings(sizes: seq<int>, count: nat) {
    && sizes != [] && (if count == 0 then |sizes| == 1 else Pow2(|sizes| - 1) <= count < Pow2(|sizes|))
    && forall i, j :: 0 <= i < |sizes| && j == i + 1 && j < |sizes| ==> sizes[j] == 2 * sizes[i]
  }

  method FindMinDomainSize(blocks: seq<BlockInfo>) returns (minDomainSize: int)
    ensures IsMinSize(blocks, minDomainSize)
  {
    minDomainSize := -1;
    for i := 0 to |blocks|
      invariant IsMinSize(blocks[..i], minDomainSize)
    {
      assert blocks[..i + 1] == blocks[..i] + [blocks[i]];
      var blocklen := |blocks[i].nodes|;
      if minDomainSize == -1 || minDomainSize > blocklen {
        minDomainSize := blocklen;
      }
    }
    assert blocks[..|blocks|] == blocks;
  }

  ghost predicate BelowLevel(size: int, base: int, l: nat) {
    exists k: nat :: k < l && size == Pow2(k) * base
  }

  lemma BelowLevelStep(size: int, base: int, l: nat)
    ensures BelowLevel(size, base, l + 1) <==> BelowLevel(size, base, l) || size == Pow2(l) * base
  {
    hide Pow2;
  }

  /** The sizes a base can be multiplied to. */
  method PossibleSizes(candidate: int, maxnumbs: int) returns (possiblebs: set<int>)
    requires maxnumbs >= -1
    ensures forall size :: size in possiblebs <==> SizeLevel(size, candidate, maxnumbs)
  {
    possiblebs := {};
    for l := 0 to maxnumbs + 1
      invariant forall size :: size in possiblebs <==> BelowLevel(size, candidate, l)
    {
      hide BelowLevel;
      forall size { BelowLevelStep(size, candidate, l); }
      possiblebs := possiblebs + {Pow2(l) * candidate};
    }
  }

  method GetBlockSize(blocks: seq<BlockInfo>, requested: seq<int>, useFake: bool) returns (sizes: seq<int>)
    ensures SizesOf(blocks, requested, useFake, sizes)
    ensures if Stands(blocks, requested, useFake) then sizes == requested
            else AreDoublings(sizes, |blocks|) && IsBase(blocks, requested, useFake, sizes[0])
  {
    hide SizeLevel, IsMinSize, Stands, AreDoublings, IsBase;
    var minDomainSize: int;
    if useFake && |requested| != 0 {
      minDomainSize := requested[0];
    } else {
      minDomainSize := FindMinDomainSize(blocks);
    }
    var maxnumbs := Levels(|blocks|);
    var outputbs: seq<int> := [];
    if |requested| != 0 {
      var possiblebs: set<int> := {};
      var i := 0;
      while i < |requested|
        invariant 0 <= i <= |requested| && outputbs == requested[..i]
        invariant i > 0 ==> 0 < requested[0] <= minDomainSize
                            && forall size :: size in possiblebs <==> SizeLevel(size, requested[0], maxnumbs)
        invariant forall size :: size in requested[..i] ==> SizeLevel(size, requested[0], maxnumbs)
      {
        var bs := requested[i];
        assert bs in requested && requested[..i + 1] == requested[..i] + [bs];
        if i == 0 {
          if bs <= 0 || bs > minDomainSize { break; }
          possiblebs := PossibleSizes(bs, maxnumbs);
        }
        if bs !in possiblebs { break; }
        outputbs := outputbs + [bs];
        i := i + 1;
      }
      assert Acceptable(requested, minDomainSize, maxnumbs) ==> |outputbs| == |requested|;
      if |outputbs| == |requested| {
        assert outputbs == requested;
        SizesExactly(blocks, requested, useFake, outputbs);
        return outputbs;
      }
    }
    outputbs := [minDomainSize];
    var i := 1;
    while i <= maxnumbs
      invariant if maxnumbs < 0 then i == 1 else 1 <= i <= maxnumbs + 1
      invariant |outputbs| == i && outputbs[0] == minDomainSize && forall l :: 0 <= l < i ==> outputbs[l] == Pow2(l) * minDomainSize
    {
      outputbs := outputbs + [Pow2(i) * minDomainSize];
      i := i + 1;
    }
    assert outputbs == Defaults(minDomainSize, maxnumbs);
    sizes := outputbs;
    SizesExactly(blocks, requested, useFake, sizes);
  }

  // ---------- the sizes without the logarithm ----------

  lemma {:induction false} Pow2Mono(l: nat, k: nat)
    ensures Pow2(l) <= Pow2(k) <==> l <= k
  {
    if l <= k { Pow2Grows(l, k); } else { Pow2Grows(k + 1, l); }
  }

  /** A doubling is counted by the logarithm exactly if its power of two is at most the number of blocks. */
  lemma LevelIsDoubled(size: int, base: int, count: nat)
    ensures SizeLevel(size, base, Levels(count)) <==> count > 0 && IsDoubled(size, base, count)
  {
    hide Log2;
    if count > 0 {
      var levels := Log2(count);
      Log2Between(count);
      forall l: nat ensures l <= levels <==> Pow2(l) <= count {
        Pow2Mono(l, levels);
        Pow2Mono(levels + 1, l);
      }
    }
  }

  lemma Log2Between(n: nat)
    requires n > 0
    ensures Levels(n) == Log2(n) && Pow2(Log2(n)) <= n < Pow2(Log2(n) + 1)
  {
    hide Log2;
  }

  lemma StandsExactly(blocks: seq<BlockInfo>, requested: seq<int>, useFake: bool, smallest: int)
    requires if useFake && requested != [] then smallest == requested[0] else IsMinSize(blocks, smallest)
    ensures Acceptable(requested, smallest, Levels(|blocks|)) <==> Stands(blocks, requested, useFake)
  {
    hide SizeLevel, IsDoubled, Levels;
    if requested != [] {
      forall size ensures SizeLevel(size, requested[0], Levels(|blocks|)) <==> |blocks| > 0 && IsDoubled(size, requested[0], |blocks|) {
        LevelIsDoubled(size, requested[0], |blocks|);
      }
      assert requested[0] in requested;
    }
  }

  lemma DefaultsDouble(smallest: int, count: nat)
    ensures AreDoublings(Defaults(smallest, Levels(count)), count)
  {
    hide Log2;
    var sizes := Defaults(smallest, Levels(count));
    if count > 0 {
      Log2Between(count);
      forall i, j | 0 <= i < |sizes| && j == i + 1 && j < |sizes| ensures sizes[j] == 2 * sizes[i] {
        MulTwice(Pow2(i), smallest);
      }
    }
  }

  lemma MulTwice(p: nat, base: int)
    ensures (2 * p) * base == 2 * (p * base)
  {}

  /** The sizes chosen, without logarithm: the requested ones if they stand, otherwise the doublings of the base. */
  lemma SizesExactly(blocks: seq<BlockInfo>, requested: seq<int>, useFake: bool, sizes: seq<int>)
    requires SizesOf(blocks, requested, useFake, sizes)
    ensures if Stands(blocks, requested, useFake) then sizes == requested
            else AreDoublings(sizes, |blocks|) && IsBase(blocks, requested, useFake, sizes[0])
  {
    hide Acceptable, Stands, AreDoublings;
    var smallest :| (if useFake && requested != [] then smallest == requested[0] else IsMinSize(blocks, smallest))
                    && sizes == if Acceptable(requested, smallest, Levels(|blocks|)) then requested else Defaults(smallest, Levels(|blocks|));
    StandsExactly(blocks, requested, useFake, smallest);
    DefaultsDouble(smallest, |blocks|);
  }

  lemma SizesNonempty(blocks: seq<BlockInfo>, requested: seq<int>, useFake: bool, sizes: seq<int>)
    requires SizesOf(blocks, requested, useFake, sizes)
    ensures sizes != []
  {
    hide IsMinSize;
  }

  // ---------- no size exceeds the number of nodes ----------

  function TotalNodes(blocks: seq<BlockInfo>): nat {
    if blocks == [] then 0 else TotalNodes(blocks[..|blocks| - 1]) + |blocks[|blocks| - 1].nodes|
  }

  lemma {:induction false} MinTimesCount(blocks: seq<BlockInfo>, m: nat)
    requires forall b :: b in blocks ==> m <= |b.nodes|
    ensures m * |blocks| <= TotalNodes(blocks)
  {
    if blocks != [] {
      var k := |blocks| - 1;
      MinTimesCount(blocks[..k], m);
      assert m * (k + 1) == m * k + m;
      assert blocks[k] in blocks;
    }
  }

  lemma {:induction false} Pow2Grows(l: nat, k: nat)
    requires l <= k
    ensures Pow2(l) <= Pow2(k)
  {
    if l < k { Pow2Grows(l, k - 1); }
  }

  lemma ScaledBound(p: nat, q: nat, base: nat, m: nat, total: nat)
    requires p <= q && base <= m && q * m <= total
    ensures p * base <= total
  {
    assert p * base <= q * base by { MulGrows(p, q, base); }
    assert q * base <= q * m by { MulGrows(base, m, q); }
  }

  lemma MulGrows(a: nat, b: nat, c: nat)
    requires a <= b
    ensures a * c <= b * c && c * a <= c * b
  {}

  /** Without fake nodes every size, requested or computed, is at most the number of nodes; without blocks the only size is -1. */
  lemma SizesFit(blocks: seq<BlockInfo>, requested: seq<int>, sizes: seq<int>, size: int)
    requires SizesOf(blocks, requested, false, sizes) && size in sizes
    ensures if blocks == [] then size == -1 else 0 <= size <= TotalNodes(blocks)
  {
    hide TotalNodes;
    var smallest :| IsMinSize(blocks, smallest)
                    && sizes == if Acceptable(requested, smallest, Levels(|blocks|)) then requested else Defaults(smallest, Levels(|blocks|));
    if blocks != [] { SizesBounded(blocks, requested, smallest, sizes, size); }
  }

  lemma SizesBounded(blocks: seq<BlockInfo>, requested: seq<int>, smallest: int, sizes: seq<int>, size: int)
    requires blocks != [] && IsMinSize(blocks, smallest) && size in sizes
    requires if Acceptable(requested, smallest, Levels(|blocks|)) then sizes == requested else sizes == Defaults(smallest, Levels(|blocks|))
    ensures 0 <= size <= TotalNodes(blocks)
  {
    hide IsMinSize, TotalNodes;
    var levels := Log2(|blocks|);
    MinIsNatural(blocks, smallest);
    MinTimesCount(blocks, smallest);
    var base, l: nat;
    if Acceptable(requested, smallest, levels) {
      base := requested[0];
      l :| l <= levels && size == Pow2(l) * base;
    } else {
      base := smallest;
      l :| l <= levels && size == sizes[l];
    }
    Pow2Grows(l, levels);
    MulGrows(Pow2(levels), |blocks|, smallest);
    ScaledBound(Pow2(l), Pow2(levels), base, smallest, TotalNodes(blocks));
  }

  lemma MinIsNatural(blocks: seq<BlockInfo>, smallest: int)
    requires blocks != [] && IsMinSize(blocks, smallest)
    ensures smallest >= 0 && forall b :: b in blocks ==> smallest <= |b.nodes|
  {}
}
