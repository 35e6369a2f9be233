/** The order in which a breadth-first loop serves the vertices: those found from an earlier one first, siblings by ID. */
module WalkOrder {
  import opened Ordering
  import opened Topology

  /** Vertex `i` was found from vertex `p`, which was served before. */
  ghost predicate FoundAt(all: seq<Vertex>, served: nat, i: nat, p: nat) {
    i < |all| && p < i && p < served && all[i].id in all[p].vertices
  }

  /** Vertex `i`, found from `p`, stands before vertex `j`, found from `q`. */
  ghost predicate StandsBefore(all: seq<Vertex>, i: nat, p: nat, j: nat, q: nat) {
    i < |all| && j < |all| && p <= q && (p == q ==> Leq(all[i].id, all[j].id))
  }

  /** Of the vertices, the first ones served and the others waiting, everything but the root was found from a served one:
      what was found from an earlier one stands earlier, and what was found from the same one is ordered by ID. */
  ghost predicate FoundFrom(all: seq<Vertex>, served: nat, parents: seq<nat>) {
    && |parents| == |all|
    && (forall i :: 0 < i < |all| ==> FoundAt(all, served, i, parents[i]))
    && forall i, j :: 0 < i < j < |all| ==> StandsBefore(all, i, parents[i], j, parents[j])
  }

  ghost predicate InTurn(order: seq<Vertex>, queue: seq<Vertex>) {
    exists parents :: FoundFrom(order + queue, |order|, parents)
  }

  ghost predicate Ascending(kids: seq<Vertex>) {
    forall i, j :: 0 <= i < j < |kids| ==> Leq(kids[i].id, kids[j].id)
  }

  lemma TurnStart(t: Vertex)
    ensures InTurn([], [t])
  {
    assert FoundFrom([] + [t], 0, [0]);
  }

  lemma NoneAscend()
    ensures Ascending([])
  {}

  lemma FoundMore(all: seq<Vertex>, served: nat, kids: seq<Vertex>, i: nat, p: nat)
    requires FoundAt(all, served, i, p)
    ensures FoundAt(all + kids, served + 1, i, p)
  {}

  lemma FoundKid(all: seq<Vertex>, served: nat, kids: seq<Vertex>, i: nat)
    requires served < |all| && i < |kids| && kids[i].id in all[served].vertices
    ensures FoundAt(all + kids, served + 1, |all| + i, served)
  {}

  lemma StandsMore(all: seq<Vertex>, kids: seq<Vertex>, i: nat, p: nat, j: nat, q: nat)
    requires StandsBefore(all, i, p, j, q)
    ensures StandsBefore(all + kids, i, p, j, q)
  {
    hide Leq;
  }

  lemma StandsKid(all: seq<Vertex>, served: nat, kids: seq<Vertex>, i: nat, p: nat, j: nat)
    requires Ascending(kids) && i < |all| + j && j < |kids|
    requires if i < |all| then p < served else p == served
    ensures StandsBefore(all + kids, i, p, |all| + j, served)
  {
    hide Leq;
    var more := all + kids;
    assert more[|all| + j] == kids[j];
    if i >= |all| { assert more[i] == kids[i - |all|]; }
  }

  lemma FoundStep(all: seq<Vertex>, served: nat, parents: seq<nat>, kids: seq<Vertex>)
    requires FoundFrom(all, served, parents) && served < |all|
    requires Ascending(kids) && forall w :: w in kids ==> w.id in all[served].vertices
    ensures FoundFrom(all + kids, served + 1, parents + seq(|kids|, i => served))
  {
    hide FoundAt, StandsBefore, Ascending;
    var n, now := |all|, parents + seq(|kids|, i => served);
    forall i | 0 < i < n + |kids| ensures FoundAt(all + kids, served + 1, i, now[i]) {
      if i < n {
        FoundMore(all, served, kids, i, parents[i]);
      } else {
        assert kids[i - n] in kids;
        FoundKid(all, served, kids, i - n);
      }
    }
    forall i, j | 0 < i < j < n + |kids| ensures StandsBefore(all + kids, i, now[i], j, now[j]) {
      if j < n {
        StandsMore(all, kids, i, parents[i], j, parents[j]);
      } else {
        if i < n { FoundServed(all, served, i, parents[i]); }
        StandsKid(all, served, kids, i, now[i], j - n);
      }
    }
  }

  lemma FoundServed(all: seq<Vertex>, served: nat, i: nat, p: nat)
    requires FoundAt(all, served, i, p)
    ensures p < served
  {}

  /** Serving the front of the queue and appending its children by ID keeps the order. */
  lemma TurnStep(order: seq<Vertex>, queue: seq<Vertex>, kids: seq<Vertex>)
    requires InTurn(order, queue) && queue != []
    requires Ascending(kids) && forall w :: w in kids ==> w.id in queue[0].vertices
    ensures InTurn(order + [queue[0]], queue[1..] + kids)
  {
    hide FoundFrom, Ascending;
    var all := order + queue;
    var parents :| FoundFrom(all, |order|, parents);
    assert all[|order|] == queue[0];
    FoundStep(all, |order|, parents, kids);
    assert (order + [queue[0]]) + (queue[1..] + kids) == all + kids;
  }
}
