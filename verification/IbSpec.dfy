/** The layering of an InfiniBand fabric: multi-source shortest link distance from the leaf switches. */
module IbSpec {
  import opened Topology

  /** The links of every switch to other switches, and the cluster nodes attached to it. */
  datatype Fabric = Fabric(links: map<string, set<string>>, hosts: map<string, set<string>>)

  /** The switches first reached in the `k`-th pass. */
  ghost function Level(f: Fabric, k: nat): set<string>
    decreases k, 0
  {
    if k == 0 then set s | s in f.links && s in f.hosts && f.hosts[s] != {}
    else set s | s in f.links && s !in UpTo(f, k - 1) && f.links[s] * Level(f, k - 1) != {}
  }

  /** The switches reached in the first `k + 1` passes. */
  ghost function UpTo(f: Fabric, k: nat): set<string>
    decreases k, 1
  {
    if k == 0 then Level(f, 0) else UpTo(f, k - 1) + Level(f, k)
  }

  ghost function VertexAt(f: Fabric, k: nat, s: string): Vertex
    decreases k
  {
    if k == 0 then Vertex("", s, map n | s in f.hosts && n in f.hosts[s] :: NodeVertex(n))
    else Vertex("", s, map c | s in f.links && c in f.links[s] && c in Level(f, k - 1) :: VertexAt(f, k - 1, c))
  }

  function NodeVertex(n: string): Vertex {
    Vertex(n, n, map[])
  }

  lemma LeafAt(f: Fabric, s: string)
    requires s in f.links && s in f.hosts
    ensures s in Level(f, 0) <==> f.hosts[s] != {}
    ensures VertexAt(f, 0, s) == Vertex("", s, map n | n in f.hosts[s] :: NodeVertex(n))
  {}

  lemma UpperAt(f: Fabric, k: nat, s: string)
    requires s in f.links && s !in UpTo(f, k)
    ensures s in Level(f, k + 1) <==> exists c :: c in f.links[s] && c in Level(f, k)
    ensures VertexAt(f, k + 1, s) == Vertex("", s, map c | c in f.links[s] && c in Level(f, k) :: VertexAt(f, k, c))
  {
    if c :| c in f.links[s] && c in Level(f, k) {
      assert c in f.links[s] * Level(f, k);
    }
    assert VertexAt(f, k + 1, s).vertices == map c | c in f.links[s] && c in Level(f, k) :: VertexAt(f, k, c);
  }

  lemma LevelStep(f: Fabric, k: nat)
    ensures UpTo(f, 0) == Level(f, 0) && UpTo(f, k + 1) == UpTo(f, k) + Level(f, k + 1)
    ensures UpTo(f, k) !! Level(f, k + 1) && Level(f, k) <= f.links.Keys
  {}

  /** The number of switches no pass has reached yet. */
  ghost function Unplaced(f: Fabric, k: nat): nat {
    |f.links.Keys - UpTo(f, k)|
  }

  lemma UnplacedShrinks(f: Fabric, k: nat)
    requires Level(f, k + 1) != {}
    ensures Unplaced(f, k + 1) < Unplaced(f, k)
  {
    hide Level, UpTo;
    LevelStep(f, k);
    LevelStep(f, k + 1);
    var before, after := f.links.Keys - UpTo(f, k), f.links.Keys - UpTo(f, k + 1);
    assert before == after + Level(f, k + 1);
  }

  // ---------- levels are shortest distances ----------

  /** A walk from a leaf switch along links, each switch knowing the one before it. */
  ghost predicate IsLinkWalk(f: Fabric, p: seq<string>) {
    && p != [] && p[0] in Level(f, 0)
    && (forall i :: 0 <= i < |p| ==> p[i] in f.links)
    && (forall i, j :: 0 <= i < j < |p| && j == i + 1 ==> p[i] in f.links[p[j]])
  }

  ghost predicate ReachedIn(f: Fabric, s: string, k: nat) {
    exists p :: IsLinkWalk(f, p) && |p| == k + 1 && p[k] == s
  }

  /** `k` is the least number of links that reaches the switch from a leaf switch. */
  ghost predicate AtDistance(f: Fabric, s: string, k: nat) {
    ReachedIn(f, s, k) && forall j: nat :: j < k ==> !ReachedIn(f, s, j)
  }

  lemma {:induction false} LevelsDisjoint(f: Fabric, j: nat, k: nat)
    requires j < k
    ensures Level(f, j) !! Level(f, k) && Level(f, j) <= UpTo(f, k - 1)
    decreases k
  {
    if j < k - 1 { LevelsDisjoint(f, j, k - 1); }
  }

  lemma {:induction false} UpToIsLevels(f: Fabric, s: string, k: nat)
    requires s in UpTo(f, k)
    ensures exists j: nat :: j <= k && s in Level(f, j)
  {
    if s !in Level(f, k) { UpToIsLevels(f, s, k - 1); }
  }

  lemma {:induction false} LevelHasPath(f: Fabric, s: string, k: nat)
    requires s in Level(f, k)
    ensures ReachedIn(f, s, k)
    decreases k
  {
    if k == 0 {
      assert IsLinkWalk(f, [s]) && [s][0] == s;
    } else {
      var c :| c in f.links[s] && c in Level(f, k - 1);
      LevelHasPath(f, c, k - 1);
      var p :| IsLinkWalk(f, p) && |p| == k && p[k - 1] == c;
      assert IsLinkWalk(f, p + [s]) && (p + [s])[k] == s;
    }
  }

  lemma {:induction false} PathIsWithinLevels(f: Fabric, p: seq<string>)
    requires IsLinkWalk(f, p)
    ensures p[|p| - 1] in UpTo(f, |p| - 1)
    decreases |p|
  {
    var k := |p| - 1;
    if k > 0 {
      assert IsLinkWalk(f, p[..k]);
      PathIsWithinLevels(f, p[..k]);
      assert p[k - 1] in f.links[p[k]];
      UpToIsLevels(f, p[k - 1], k - 1);
      var j: nat :| j <= k - 1 && p[k - 1] in Level(f, j);
      assert p[k - 1] in f.links[p[k]] * Level(f, j);
      assert p[k] in UpTo(f, j) || p[k] in Level(f, j + 1);
      UpToGrows(f, j + 1, k);
    }
  }

  lemma {:induction false} UpToGrows(f: Fabric, j: nat, k: nat)
    requires j <= k
    ensures UpTo(f, j) <= UpTo(f, k)
    decreases k
  {
    if j < k { UpToGrows(f, j, k - 1); }
  }

  /** A switch is in level `k` exactly when `k` is the least number of links that reaches it from a leaf switch. */
  lemma LevelIsShortestDistance(f: Fabric, s: string, k: nat)
    ensures s in Level(f, k) <==> AtDistance(f, s, k)
  {
    if s in Level(f, k) {
      LevelHasPath(f, s, k);
      forall j: nat | j < k ensures !ReachedIn(f, s, j) {
        if ReachedIn(f, s, j) {
          ReachedIsWithin(f, s, j);
          var i: nat :| i <= j && s in Level(f, i);
          LevelsDisjoint(f, i, k);
        }
      }
    }
    if AtDistance(f, s, k) {
      ReachedIsWithin(f, s, k);
      var i: nat :| i <= k && s in Level(f, i);
      LevelHasPath(f, s, i);
    }
  }

  lemma ReachedIsWithin(f: Fabric, s: string, k: nat)
    requires ReachedIn(f, s, k)
    ensures exists i: nat :: i <= k && s in Level(f, i)
  {
    var p :| IsLinkWalk(f, p) && |p| == k + 1 && p[k] == s;
    PathIsWithinLevels(f, p);
    UpToIsLevels(f, s, k);
  }

  /** After an empty level there is nothing more to reach. */
  lemma {:induction false} EmptyLevelIsLast(f: Fabric, d: nat, k: nat)
    requires Level(f, d) == {} && d <= k
    ensures Level(f, k) == {}
    decreases k
  {
    if d < k { EmptyLevelIsLast(f, d, k - 1); }
  }

  // ---------- the nodes below a switch ----------

  /** A shortest walk from a switch with the node to `s`. */
  ghost predicate NearestTo(f: Fabric, p: seq<string>, s: string, k: nat, n: string) {
    IsLinkWalk(f, p) && |p| == k + 1 && p[k] == s && p[0] in f.hosts && n in f.hosts[p[0]]
  }

  /** The compute nodes below a switch of level `k` are the hosts of the leaf switches from which it is `k` links away. */
  lemma {:induction false} LeavesAreNearest(f: Fabric, k: nat, s: string, n: string)
    requires s in Level(f, k)
    ensures n in Leaves(VertexAt(f, k, s)) <==> exists p :: NearestTo(f, p, s, k, n)
    decreases k
  {
    hide Leaves, IsLinkWalk, VertexAt;
    if k == 0 {
      HostsOfLeaf(f, s, n);
      if n in f.hosts[s] { OneStepWalk(f, s); assert NearestTo(f, [s], s, 0, n); }
    } else {
      LeavesOfUpper(f, k, s, n);
      if c :| c in f.links[s] && c in Level(f, k - 1) && n in Leaves(VertexAt(f, k - 1, c)) {
        LeavesAreNearest(f, k - 1, c, n);
        var p :| NearestTo(f, p, c, k - 1, n);
        OneLinkOn(f, p, s);
        assert NearestTo(f, p + [s], s, k, n);
      }
      if p :| NearestTo(f, p, s, k, n) {
        var c := ShortestBack(f, p, k);
        LeavesAreNearest(f, k - 1, c, n);
        assert NearestTo(f, p[..k], c, k - 1, n);
      }
    }
  }

  lemma OneStepWalk(f: Fabric, s: string)
    requires s in Level(f, 0)
    ensures IsLinkWalk(f, [s])
  {}

  lemma OneLinkOn(f: Fabric, p: seq<string>, s: string)
    requires IsLinkWalk(f, p) && s in f.links && p[|p| - 1] in f.links[s]
    ensures IsLinkWalk(f, p + [s])
  {
    hide Level;
  }

  /** A shortest walk without its last link is a shortest walk. */
  lemma ShortestBack(f: Fabric, p: seq<string>, k: nat) returns (c: string)
    requires k > 0 && IsLinkWalk(f, p) && |p| == k + 1 && p[k] in Level(f, k)
    ensures c == p[k - 1] && c in f.links[p[k]] && c in Level(f, k - 1) && IsLinkWalk(f, p[..k])
  {
    hide Level;
    c := p[k - 1];
    var last := k - 1;
    assert p[last] in f.links[p[k]];
    assert IsLinkWalk(f, p[..k]) && p[..k][k - 1] == c;
    assert ReachedIn(f, c, k - 1);
    forall j: nat | j < k - 1 ensures !ReachedIn(f, c, j) {
      if ReachedIn(f, c, j) {
        var q :| IsLinkWalk(f, q) && |q| == j + 1 && q[j] == c;
        OneLinkOn(f, q, p[k]);
        assert (q + [p[k]])[j + 1] == p[k];
        assert ReachedIn(f, p[k], j + 1);
        LevelIsShortestDistance(f, p[k], k);
      }
    }
    LevelIsShortestDistance(f, c, k - 1);
  }

  lemma HostsOfLeaf(f: Fabric, s: string, n: string)
    requires s in Level(f, 0)
    ensures s in f.hosts && f.hosts[s] != {} && (n in Leaves(VertexAt(f, 0, s)) <==> n in f.hosts[s])
    ensures forall p :: NearestTo(f, p, s, 0, n) ==> n in f.hosts[s]
  {
    hide IsLinkWalk, VertexAt;
    var v := VertexAt(f, 0, s);
    LeafAt(f, s);
    var h :| h in f.hosts[s];
    assert h in v.vertices;
    forall m | m in v.vertices ensures Leaves(v.vertices[m]) == {m} { assert v.vertices[m] == NodeVertex(m); }
    hide Leaves;
    LeavesOfSwitch(v);
    if n in Leaves(v) { var k :| k in v.vertices && n in Leaves(v.vertices[k]); }
    if n in f.hosts[s] { assert n in v.vertices && n in Leaves(v.vertices[n]); }
  }

  lemma LeavesOfUpper(f: Fabric, k: nat, s: string, n: string)
    requires k > 0 && s in Level(f, k)
    ensures s in f.links
    ensures n in Leaves(VertexAt(f, k, s)) <==>
            exists c :: c in f.links[s] && c in Level(f, k - 1) && n in Leaves(VertexAt(f, k - 1, c))
  {
    var v := VertexAt(f, k, s);
    var c :| c in f.links[s] * Level(f, k - 1);
    assert c in v.vertices;
    forall d ensures d in v.vertices <==> d in f.links[s] && d in Level(f, k - 1) {}
    hide Leaves;
    assert v.vertices != map[];
    LeavesOfSwitch(v);
  }

  lemma LeavesOfSwitch(v: Vertex)
    requires v.vertices != map[]
    ensures forall n :: n in Leaves(v) <==> exists k :: k in v.vertices && n in Leaves(v.vertices[k])
  {}
}
