/** Building the switch graph of an InfiniBand fabric: `pkg/ib/ib.go`. */
module Ib {
  import opened IbSpec
  import opened Topology

  class Switch {
    const id: string
    var conn: map<string, string>   // ID to name of whatever a port leads to
    var nodes: map<string, string>  // adapter ID to node name

    constructor (id: string, conn: map<string, string>)
      ensures this.id == id && this.conn == conn && nodes == map[]
    {
      this.id, this.conn, nodes := id, conn, map[];
    }

    /** Splits the connections: host adapters are taken out, and those of cluster nodes are remembered. */
    method TakeAdapters(hca: map<string, string>, cluster: set<string>)
      modifies this
      ensures conn.Keys == old(conn).Keys - hca.Keys
      ensures nodes == old(nodes) + Adapters(old(conn), hca, cluster)
    {
      conn, nodes := SplitPorts(conn, nodes, hca, cluster);
    }
  }

  method SplitPorts(conn0: map<string, string>, nodes0: map<string, string>, hca: map<string, string>, cluster: set<string>)
    returns (conn: map<string, string>, nodes: map<string, string>)
    ensures conn.Keys == conn0.Keys - hca.Keys
    ensures nodes == nodes0 + Adapters(conn0, hca, cluster)
    ensures forall c :: c in nodes && c !in nodes0 <==> c in conn0 && c !in nodes0 && c in hca && hca[c] != "" && hca[c] in cluster
    ensures forall c :: c in nodes && c !in nodes0 ==> nodes[c] == hca[c]
  {
    conn, nodes := conn0, nodes0;
    var todo := conn0.Keys;
    while todo != {}
      invariant todo <= conn0.Keys
      invariant forall c :: c in conn <==> c in conn0 && (c in todo || c !in hca)
      invariant forall c :: c in nodes <==> c in nodes0 || (c in conn0 && c !in todo && IsAdapter(c, hca, cluster))
      invariant forall c :: c in nodes ==>
        nodes[c] == if c in conn0 && c !in todo && IsAdapter(c, hca, cluster) then hca[c] else nodes0[c]
      decreases todo
    {
      var conID :| conID in todo;
      todo := todo - {conID};
      if conID in hca {
        if IsAdapter(conID, hca, cluster) {
          nodes := nodes[conID := hca[conID]];
        }
        conn := conn - {conID};
      }
    }
  }

  predicate IsAdapter(c: string, hca: map<string, string>, cluster: set<string>) {
    c in hca && |hca[c]| != 0 && hca[c] in cluster
  }

  /** The ports that lead to a node of the cluster. */
  function Adapters(conn: map<string, string>, hca: map<string, string>, cluster: set<string>): map<string, string> {
    map c | c in conn && IsAdapter(c, hca, cluster) :: hca[c]
  }

  /** The fabric described by a switch map: links are what is left once host adapters are taken out. */
  ghost function FabricOf(switches: map<string, Switch>, hca: map<string, string>, cluster: set<string>): Fabric
    reads switches.Values
  {
    Fabric(map s | s in switches :: switches[s].conn.Keys - hca.Keys,
           map s | s in switches :: (switches[s].nodes + Adapters(switches[s].conn, hca, cluster)).Values)
  }

  lemma FabricKeys(switches: map<string, Switch>, hca: map<string, string>, cluster: set<string>)
    ensures var f := FabricOf(switches, hca, cluster);
            f.links.Keys == switches.Keys && f.hosts.Keys == switches.Keys
  {}

  /** The hosts of a switch are the cluster nodes that its ports lead to, and its links are the ports that lead to no adapter. */
  lemma HostsOfSwitch(switches: map<string, Switch>, hca: map<string, string>, cluster: set<string>, s: string)
    requires s in switches && switches[s].nodes == map[]
    ensures var f := FabricOf(switches, hca, cluster);
            && s in f.hosts && s in f.links
            && (forall n :: n in f.hosts[s] <==> exists c :: c in switches[s].conn && c in hca && hca[c] == n && n != "" && n in cluster)
            && (forall c :: c in f.links[s] <==> c in switches[s].conn && c !in hca)
  {
    var ports := switches[s].nodes + Adapters(switches[s].conn, hca, cluster);
    assert ports == Adapters(switches[s].conn, hca, cluster);
    forall n ensures n in ports.Values <==> exists c :: c in switches[s].conn && c in hca && hca[c] == n && n != "" && n in cluster {
      if c :| c in switches[s].conn && c in hca && hca[c] == n && n != "" && n in cluster {
        assert c in ports && ports[c] == n;
      }
    }
  }

  /** The switch is as the fabric describes it. */
  ghost predicate AsInFabric(sw: Switch, s: string, hca: map<string, string>, cluster: set<string>, f: Fabric)
    reads sw
  {
    && s in f.links && sw.conn.Keys - hca.Keys == f.links[s]
    && s in f.hosts && (sw.nodes + Adapters(sw.conn, hca, cluster)).Values == f.hosts[s]
  }

  lemma FabricDescribes(switches: map<string, Switch>, hca: map<string, string>, cluster: set<string>)
    ensures forall s :: s in switches ==> AsInFabric(switches[s], s, hca, cluster, FabricOf(switches, hca, cluster))
  {
    hide Adapters;
  }

  lemma PartsInFabric(sw: Switch, s: string, hca: map<string, string>, cluster: set<string>, f: Fabric)
    requires AsInFabric(sw, s, hca, cluster, f)
    ensures s in f.links && sw.conn.Keys - hca.Keys == f.links[s]
    ensures s in f.hosts && (sw.nodes + Adapters(sw.conn, hca, cluster)).Values == f.hosts[s]
  {}

  /** Every switch is filed under its ID, as the parser leaves it. */
  ghost predicate FiledById(switches: map<string, Switch>) {
    forall s :: s in switches ==> switches[s].id == s
  }

  /** The vertices of level `k`. */
  ghost function LevelMap(f: Fabric, k: nat): map<string, Vertex> {
    map s | s in Level(f, k) :: VertexAt(f, k, s)
  }

  /** `level` is the last level reached. */
  ghost predicate LastLevel(f: Fabric, depth: nat, level: map<string, Vertex>) {
    level == LevelMap(f, depth) && Level(f, depth + 1) == {} && (depth > 0 ==> Level(f, depth) != {})
  }

  /** What buildTree returns are exactly the switches at the greatest distance from the leaf switches at which there are any. */
  lemma RootsAreFarthest(f: Fabric, depth: nat, level: map<string, Vertex>)
    requires LastLevel(f, depth, level)
    ensures forall s :: s in level <==> AtDistance(f, s, depth)
    ensures forall s, k: nat :: AtDistance(f, s, k) ==> k <= depth
    ensures level == map[] ==> forall s, k: nat :: !AtDistance(f, s, k)
  {
    hide Level, VertexAt, ReachedIn;
    forall s, k: nat ensures s in Level(f, k) <==> AtDistance(f, s, k) { LevelIsShortestDistance(f, s, k); }
    forall k: nat | k > depth ensures Level(f, k) == {} { EmptyLevelIsLast(f, depth + 1, k); }
    forall s ensures s in level <==> AtDistance(f, s, depth) { assert s in level <==> s in Level(f, depth); }
    forall s, k: nat | AtDistance(f, s, k) ensures k <= depth { assert s in Level(f, k); }
    if level == map[] {
      forall s ensures s !in Level(f, depth) { assert s !in level; }
      assert depth == 0;
    }
  }

  lemma EmptyLevelMap(f: Fabric, k: nat)
    ensures LevelMap(f, k).Keys == Level(f, k)
    ensures |LevelMap(f, k)| == 0 ==> Level(f, k) == {}
  {
    hide Level;
  }

  /** The part of a level found among the switches that have been visited. */
  ghost predicate LevelSoFar(level: map<string, Vertex>, f: Fabric, k: nat, todo: set<string>) {
    && (forall s :: s in level <==> s in Level(f, k) && s !in todo)
    && (forall s :: s in level ==> level[s] == VertexAt(f, k, s))
  }

  lemma NothingSoFar(f: Fabric, k: nat)
    requires Level(f, k) <= f.links.Keys
    ensures LevelSoFar(map[], f, k, f.links.Keys)
  {
    hide Level, VertexAt;
  }

  lemma LevelGrows(level: map<string, Vertex>, f: Fabric, k: nat, todo: set<string>, s: string, v: Vertex)
    requires LevelSoFar(level, f, k, todo) && s in todo && (s in Level(f, k) ==> v == VertexAt(f, k, s))
    ensures s in Level(f, k) ==> LevelSoFar(level[s := v], f, k, todo - {s})
    ensures s !in Level(f, k) ==> LevelSoFar(level, f, k, todo - {s})
    ensures s !in level
  {
    hide Level, VertexAt;
  }

  lemma LevelFound(level: map<string, Vertex>, f: Fabric, k: nat)
    requires LevelSoFar(level, f, k, {})
    ensures level == LevelMap(f, k)
  {
    hide Level, VertexAt;
  }

  ghost predicate LinksIntact(switches: map<string, Switch>, f: Fabric, placed: set<string>)
    reads switches.Values
  {
    forall s :: s in switches && s !in placed ==> s in f.links && switches[s].conn.Keys == f.links[s]
  }

  /** First pass: switches with a cluster node attached are leaves. */
  method FindLeaves(switches: map<string, Switch>, hca: map<string, string>, cluster: set<string>)
    returns (level: map<string, Vertex>)
    requires FiledById(switches)
    modifies switches.Values
    ensures level == LevelMap(old(FabricOf(switches, hca, cluster)), 0)
    ensures LinksIntact(switches, old(FabricOf(switches, hca, cluster)), level.Keys)
  {
    hide Level, VertexAt, Adapters, LevelMap, LevelSoFar, FabricOf, AsInFabric;
    ghost var f := FabricOf(switches, hca, cluster);
    FabricKeys(switches, hca, cluster);
    FabricDescribes(switches, hca, cluster);
    LevelStep(f, 0);
    NothingSoFar(f, 0);
    level := map[];
    var todo := switches.Keys;
    while todo != {}
      invariant todo <= switches.Keys && LevelSoFar(level, f, 0, todo)
      invariant forall s :: s in todo ==> AsInFabric(switches[s], s, hca, cluster, f)
      invariant LinksIntact(switches, f, todo + level.Keys)
      decreases todo
    {
      var swID :| swID in todo;
      LeafAt(f, swID);
      PartsInFabric(switches[swID], swID, hca, cluster, f);
      var isLeaf, v := PlaceLeaf(swID, switches[swID], hca, cluster);
      LevelGrows(level, f, 0, todo, swID, v);
      todo := todo - {swID};
      if isLeaf {
        level := level[swID := v];
      }
    }
    LevelFound(level, f, 0);
  }

  lemma SomeAdapter(nodes: map<string, string>, conn: map<string, string>, hca: map<string, string>, cluster: set<string>)
    ensures nodes == map[] ==>
              ((nodes + Adapters(conn, hca, cluster)).Values != {} <==> exists c :: c in conn && c in hca && hca[c] != "" && hca[c] in cluster)
  {
    var ports := nodes + Adapters(conn, hca, cluster);
    if nodes == map[] {
      assert ports == Adapters(conn, hca, cluster);
      if c :| c in conn && c in hca && hca[c] != "" && hca[c] in cluster { assert c in ports && ports[c] in ports.Values; }
    }
  }

  /** The first pass on one switch. */
  method PlaceLeaf(swID: string, sw: Switch, hca: map<string, string>, cluster: set<string>)
    returns (isLeaf: bool, v: Vertex)
    modifies sw
    ensures var hosts := old((sw.nodes + Adapters(sw.conn, hca, cluster)).Values);
            && (isLeaf <==> hosts != {})
            && v == Vertex("", swID, map n | n in hosts :: Vertex(n, n, map[]))
    ensures old(sw.nodes) == map[] ==>
              (isLeaf <==> exists c :: old(c in sw.conn) && c in hca && hca[c] != "" && hca[c] in cluster)
    ensures !isLeaf ==> sw.conn.Keys == old(sw.conn).Keys - hca.Keys
  {
    hide Adapters;
    SomeAdapter(sw.nodes, sw.conn, hca, cluster);
    sw.TakeAdapters(hca, cluster);
    isLeaf := |sw.nodes| != 0;
    v := LeafVertex(swID, sw.nodes);
    if isLeaf {
      var c :| c in sw.nodes;
      assert sw.nodes[c] in sw.nodes.Values;
      sw.conn := map[];
    }
  }

  method LeafVertex(swID: string, nodes: map<string, string>) returns (v: Vertex)
    ensures v == Vertex("", swID, map n | n in nodes.Values :: NodeVertex(n))
  {
    var vertices: map<string, Vertex> := map[];
    var todo := nodes.Keys;
    while todo != {}
      invariant todo <= nodes.Keys
      invariant vertices == map n | n in (set c | c in nodes.Keys - todo :: nodes[c]) :: NodeVertex(n)
      decreases todo
    {
      var c :| c in todo;
      assert nodes.Keys - (todo - {c}) == (nodes.Keys - todo) + {c};
      todo := todo - {c};
      vertices := vertices[nodes[c] := Vertex(nodes[c], nodes[c], map[])];
    }
    assert (set c | c in nodes.Keys :: nodes[c]) == nodes.Values;
    assert nodes.Keys - {} == nodes.Keys;
    v := Vertex("", swID, vertices);
  }

  /** One later pass: the unplaced switches with a link into the level. */
  method NextLevel(switches: map<string, Switch>, placed: set<string>, level: map<string, Vertex>, ghost f: Fabric, ghost k: nat)
    returns (upper: map<string, Vertex>)
    requires FiledById(switches) && f.links.Keys == switches.Keys
    requires placed == UpTo(f, k) && level == LevelMap(f, k) && LinksIntact(switches, f, placed)
    modifies switches.Values
    ensures upper == LevelMap(f, k + 1) && LinksIntact(switches, f, placed + upper.Keys)
  {
    hide Level, VertexAt, UpTo, LevelSoFar;
    LevelStep(f, k);
    LevelStep(f, k + 1);
    NothingSoFar(f, k + 1);
    upper := map[];
    var todo := switches.Keys;
    while todo != {}
      invariant todo <= switches.Keys && LevelSoFar(upper, f, k + 1, todo)
      invariant forall s :: s in todo ==> unchanged(switches[s])
      invariant LinksIntact(switches, f, placed + upper.Keys)
      decreases todo
    {
      var swID :| swID in todo;
      ghost var left := todo;
      todo := todo - {swID};
      if swID !in placed {
        UpperAt(f, k, swID);
        var isUpper, v := PlaceUpper(swID, switches[swID], level);
        LevelGrows(upper, f, k + 1, left, swID, v);
        if isUpper {
          upper := upper[swID := v];
        }
      } else {
        LevelGrows(upper, f, k + 1, left, swID, VertexAt(f, k + 1, swID));
      }
    }
    LevelFound(upper, f, k + 1);
  }

  /** A later pass on one switch. */
  method PlaceUpper(swID: string, sw: Switch, level: map<string, Vertex>) returns (isUpper: bool, v: Vertex)
    modifies sw
    ensures isUpper <==> exists c :: c in old(sw.conn) && c in level
    ensures v == Vertex("", swID, map c | c in old(sw.conn) && c in level :: level[c])
    ensures !isUpper ==> sw.conn == old(sw.conn)
  {
    var children := Children(sw.conn.Keys, level);
    isUpper, v := |children| != 0, Vertex("", swID, children);
    if c :| c in sw.conn && c in level { assert c in children; }
    if isUpper {
      var c :| c in children;
      sw.conn := map[];
    }
  }

  method Children(conn: set<string>, level: map<string, Vertex>) returns (children: map<string, Vertex>)
    ensures children == map c | c in conn && c in level :: level[c]
  {
    children := map[];
    var todo := conn;
    while todo != {}
      invariant todo <= conn
      invariant children == map c | c in conn - todo && c in level :: level[c]
      decreases todo
    {
      var conID :| conID in todo;
      todo := todo - {conID};
      if conID in level {
        children := children[conID := level[conID]];
      }
    }
  }

  /** Builds the graph level by level and returns the last level reached. */
  method BuildTree(switches: map<string, Switch>, hca: map<string, string>, cluster: set<string>)
    returns (level: map<string, Vertex>, ghost depth: nat)
    requires FiledById(switches)
    modifies switches.Values
    ensures LastLevel(old(FabricOf(switches, hca, cluster)), depth, level)
  {
    hide Level, LevelMap, UpTo, Unplaced, FabricOf, LinksIntact, FiledById;
    ghost var f := FabricOf(switches, hca, cluster);
    FabricKeys(switches, hca, cluster);
    LevelStep(f, 0);
    EmptyLevelMap(f, 0);
    level := FindLeaves(switches, hca, cluster);
    var placed := level.Keys;
    depth := 0;
    while true
      invariant placed == UpTo(f, depth)
      invariant level == LevelMap(f, depth) && LinksIntact(switches, f, placed)
      invariant depth > 0 ==> Level(f, depth) != {}
      decreases Unplaced(f, depth)
    {
      LevelStep(f, depth);
      LevelStep(f, depth + 1);
      EmptyLevelMap(f, depth + 1);
      var upper := NextLevel(switches, placed, level, f, depth);
      if |upper| == 0 {
        assert LastLevel(f, depth, level);
        break;
      }
      UnplacedShrinks(f, depth);
      placed, level, depth := placed + upper.Keys, upper, depth + 1;
    }
  }
}
