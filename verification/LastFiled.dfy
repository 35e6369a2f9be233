/** What is below an object in the end: what was filed there last under each key, for records with any IDs. */
module LastFiled {
  import opened ThreeTierObjects
  import opened ThreeTierSpec

  /** The filings of the first `n` levels of a record, from the block up: below which switch, and what. */
  function FilingsTo(r: Record, n: nat): seq<(string, Ref)> {
    if n == 0 then []
    else FilingsTo(r, n - 1) + if SwitchAt(r, n - 1) == "" then [] else [(SwitchAt(r, n - 1), RefTo(r, n - 1))]
  }

  /** All filings, record by record. */
  function FilingsOf(used: seq<Record>): seq<(string, Ref)> {
    if used == [] then [] else FilingsOf(used[..|used| - 1]) + FilingsTo(used[|used| - 1], 3)
  }

  /** Filing `i` puts `x` below `p`, and no later one replaces it. */
  ghost predicate StaysFiled(filings: seq<(string, Ref)>, i: nat, p: string, x: Ref) {
    && i < |filings| && filings[i] == (p, x)
    && forall j :: i < j < |filings| && filings[j].0 == p ==> filings[j].1.id != x.id
  }

  ghost predicate IsFiled(table: Filings, p: string, x: Ref) {
    p in table && x.id in table[p] && table[p][x.id] == x
  }

  /** The table says what stays filed. */
  ghost predicate TableSays(filings: seq<(string, Ref)>, table: Filings) {
    forall p, x :: IsFiled(table, p, x) <==> exists i: nat :: StaysFiled(filings, i, p, x)
  }

  lemma StaysSnoc(filings: seq<(string, Ref)>, q: string, y: Ref, p: string, x: Ref)
    ensures (exists i: nat :: StaysFiled(filings + [(q, y)], i, p, x))
            <==> (q, y) == (p, x) || ((q != p || y.id != x.id) && exists i: nat :: StaysFiled(filings, i, p, x))
  {
    var more, n := filings + [(q, y)], |filings|;
    assert more[n] == (q, y) && forall i :: 0 <= i < n ==> more[i] == filings[i];
    if (q, y) == (p, x) { assert StaysFiled(more, n, p, x); }
    if i: nat :| StaysFiled(more, i, p, x) {
      if i < n { assert StaysFiled(filings, i, p, x); }
    }
    if i: nat :| StaysFiled(filings, i, p, x) {
      if q != p || y.id != x.id { assert StaysFiled(more, i, p, x); }
    }
  }

  lemma FiledBelow(table: Filings, q: string, y: Ref, p: string, x: Ref)
    ensures IsFiled(FileBelow(table, q, y), p, x) <==> (q, y) == (p, x) || ((q != p || y.id != x.id) && IsFiled(table, p, x))
  {}

  lemma FileOne(filings: seq<(string, Ref)>, table: Filings, q: string, y: Ref)
    requires TableSays(filings, table)
    ensures TableSays(filings + [(q, y)], FileBelow(table, q, y))
  {
    hide IsFiled, FileBelow, StaysFiled;
    forall p, x ensures IsFiled(FileBelow(table, q, y), p, x) <==> exists i: nat :: StaysFiled(filings + [(q, y)], i, p, x) {
      StaysSnoc(filings, q, y, p, x);
      FiledBelow(table, q, y, p, x);
      assert IsFiled(table, p, x) <==> exists i: nat :: StaysFiled(filings, i, p, x);
    }
  }

  lemma {:induction false} RecordFiled(filings: seq<(string, Ref)>, table: Filings, r: Record, n: nat)
    requires TableSays(filings, table)
    ensures TableSays(filings + FilingsTo(r, n), TableTo(table, r, n))
  {
    hide TableSays, FileBelow, SwitchAt, RefTo;
    if n == 0 {
      assert filings + [] == filings;
    } else {
      RecordFiled(filings, table, r, n - 1);
      if SwitchAt(r, n - 1) == "" {
        assert FilingsTo(r, n) == FilingsTo(r, n - 1);
      } else {
        FileOne(filings + FilingsTo(r, n - 1), TableTo(table, r, n - 1), SwitchAt(r, n - 1), RefTo(r, n - 1));
        assert (filings + FilingsTo(r, n - 1)) + [(SwitchAt(r, n - 1), RefTo(r, n - 1))] == filings + FilingsTo(r, n);
      }
    }
  }

  /** What the objects are given below them is what was filed there last under each ID. */
  lemma {:induction false} LastFiledStays(used: seq<Record>)
    ensures TableSays(FilingsOf(used), TableOf(used))
  {
    hide TableSays, FilingsTo, TableTo;
    if used == [] {
      NothingFiledYet();
    } else {
      LastFiledStays(used[..|used| - 1]);
      RecordFiled(FilingsOf(used[..|used| - 1]), TableOf(used[..|used| - 1]), used[|used| - 1], 3);
    }
  }

  lemma NothingFiledYet()
    ensures TableSays([], map[])
  {}

  /** The filings below the root, record by record: the highest object reached. */
  function TopFilings(used: seq<Record>): seq<(string, Ref)> {
    if used == [] then [] else TopFilings(used[..|used| - 1]) + [("", RefTo(used[|used| - 1], 3))]
  }

  /** Below the root is the highest object of a record, unless a later record has one with the same ID. */
  lemma {:induction false} LastTopStays(used: seq<Record>, x: Ref)
    ensures x.id in TopRefs(used) && TopRefs(used)[x.id] == x <==> exists i: nat :: StaysFiled(TopFilings(used), i, "", x)
  {
    hide RefTo, StaysFiled;
    if used == [] {
      forall i: nat ensures !StaysFiled(TopFilings(used), i, "", x) { NoFilings(i, "", x); }
    } else {
      var front, y := used[..|used| - 1], RefTo(used[|used| - 1], 3);
      LastTopStays(front, x);
      StaysSnoc(TopFilings(front), "", y, "", x);
      assert TopFilings(used) == TopFilings(front) + [("", y)];
      assert TopRefs(used) == TopRefs(front)[y.id := y];
    }
  }

  lemma NoFilings(i: nat, p: string, x: Ref)
    ensures !StaysFiled([], i, p, x)
  {}
}
