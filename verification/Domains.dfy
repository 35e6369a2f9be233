/** Accelerator domains and the blocks made of them: `pkg/topology/block.go`. */
module Domains {
  import opened BlocksSpec
  import opened Numerals
  import opened Ordering
  import opened ThreeTierSpec
  import opened Topology

  /** Hosts by domain, each with its instance. */
  type Table = map<string, map<string, string>>

  function WithHost(domains: Table, domain: string, instance: string, host: string): Table {
    domains[domain := (if domain in domains then domains[domain] else map[])[host := instance]]
  }

  /** The domains of the used records. */
  function DomainsOf(used: seq<Record>, names: map<string, string>): Table {
    if used == [] then map[]
    else
      var domains, r := DomainsOf(used[..|used| - 1], names), used[|used| - 1];
      if r.acceleratorID != "" && r.instanceID in names then WithHost(domains, r.acceleratorID, r.instanceID, names[r.instanceID])
      else domains
  }

  function BlockName(i: nat): string {
    "block" + Pad(3, i + 1)
  }

  function HostVertices(hosts: map<string, string>): map<string, Vertex> {
    map h | h in hosts :: Vertex(h, hosts[h], map[])
  }

  function BlocksUpTo(domains: Table, names: seq<string>): map<string, Vertex>
    requires forall d :: d in names ==> d in domains
  {
    if names == [] then map[]
    else
      var i := |names| - 1;
      BlocksUpTo(domains, names[..i])[names[i] := Vertex(names[i], BlockName(i), HostVertices(domains[names[i]]))]
  }

  /** One block per domain, numbered in the order of the domain names. */
  function BlocksOf(domains: Table): Vertex {
    Vertex("", "", BlocksUpTo(domains, SortedKeys(domains.Keys)))
  }

  /** The block of a domain: its number is written with at least three digits, its nodes are the hosts. */
  ghost predicate IsBlockOf(block: Vertex, domain: string, hosts: map<string, string>, n: nat) {
    && block.name == domain && block.id == "block" + Pad(3, n) && block.vertices.Keys == hosts.Keys
    && forall h :: h in hosts ==> block.vertices[h] == Vertex(h, hosts[h], map[])
  }

  /** Every domain has a block, numbered by how many domains are not after it; the root over the blocks is nameless. */
  ghost predicate AreBlocksOf(blockRoot: Vertex, domains: Table) {
    && blockRoot.name == "" && blockRoot.id == "" && blockRoot.vertices.Keys == domains.Keys
    && forall d :: d in domains ==> IsBlockOf(blockRoot.vertices[d], d, domains[d], |KeysUpTo(domains.Keys, d)|)
  }

  class DomainMap {
    var domains: Table

    constructor ()
      ensures domains == map[]
    {
      domains := map[];
    }

    method AddHost(domain: string, instance: string, host: string)
      modifies this
      ensures domains == WithHost(old(domains), domain, instance, host)
    {
      var d := if domain in domains then domains[domain] else map[];
      d := d[host := instance];
      domains := domains[domain := d];
    }

    method ToBlocks() returns (blockRoot: Vertex)
      ensures blockRoot == BlocksOf(domains)
      ensures AreBlocksOf(blockRoot, domains)
    {
      hide HostVertices, BlockName, SortedKeys, AreBlocksOf;
      var blocks: map<string, Vertex> := map[];
      var domainNames := SortedKeys(domains.Keys);
      for i := 0 to |domainNames|
        invariant blocks == BlocksUpTo(domains, domainNames[..i])
      {
        assert domainNames[..i + 1][..i] == domainNames[..i];
        var domainName := domainNames[i];
        assert domainName in domainNames;
        var nodeMap := domains[domainName];
        var vertices := ListHosts(nodeMap);
        blocks := blocks[domainName := Vertex(domainName, BlockName(i), vertices)];
      }
      assert domainNames[..|domainNames|] == domainNames;
      blockRoot := Vertex("", "", blocks);
      BlocksAre(domains);
    }
  }

  method ListHosts(nodeMap: map<string, string>) returns (vertices: map<string, Vertex>)
    ensures vertices == HostVertices(nodeMap)
  {
    hide SortedKeys;
    var nodes := SortedKeys(nodeMap.Keys);
    vertices := map[];
    for j := 0 to |nodes|
      invariant forall h :: h in vertices <==> h in nodes[..j]
      invariant forall h :: h in vertices ==> h in nodeMap && vertices[h] == Vertex(h, nodeMap[h], map[])
    {
      assert nodes[j] in nodes;
      assert nodes[..j + 1] == nodes[..j] + [nodes[j]];
      vertices := vertices[nodes[j] := Vertex(nodes[j], nodeMap[nodes[j]], map[])];
    }
    assert nodes[..|nodes|] == nodes;
  }

  // ---------- what the blocks are ----------

  lemma {:induction false} BlocksKeys(domains: Table, names: seq<string>)
    requires forall d :: d in names ==> d in domains
    ensures forall d :: d in BlocksUpTo(domains, names) <==> d in names
  {
    hide BlockName, HostVertices;
    if names != [] {
      var k := |names| - 1;
      assert names == names[..k] + [names[k]];
      BlocksKeys(domains, names[..k]);
    }
  }

  lemma {:induction false} BlocksAt(domains: Table, names: seq<string>, i: nat)
    requires i < |names| && forall d :: d in names ==> d in domains
    requires forall j :: 0 <= j < |names| && j != i ==> names[j] != names[i]
    ensures names[i] in BlocksUpTo(domains, names) && names[i] in domains
    ensures BlocksUpTo(domains, names)[names[i]] == Vertex(names[i], BlockName(i), HostVertices(domains[names[i]]))
  {
    hide BlockName, HostVertices;
    var k := |names| - 1;
    assert names == names[..k] + [names[k]];
    if i < k { BlocksAt(domains, names[..k], i); }
  }

  lemma SameRest(a: string, x: string, y: string)
    requires a + x == a + y
    ensures x == y
  {
    assert (a + x)[|a|..] == x && (a + y)[|a|..] == y;
  }

  lemma BlockNamesDiffer(i: nat, j: nat)
    requires BlockName(i) == BlockName(j)
    ensures i == j
  {
    hide Pad, Val;
    SameRest("block", Pad(3, i + 1), Pad(3, j + 1));
    ValOfPad(3, i + 1);
    ValOfPad(3, j + 1);
  }

  /** No host is in two domains. */
  ghost predicate OneDomain(domains: Table) {
    forall c, d, h :: c in domains && d in domains && h in domains[c] && h in domains[d] ==> c == d
  }

  ghost predicate InDomain(used: seq<Record>, names: map<string, string>, d: string, h: string, x: string) {
    exists r :: r in used && r.acceleratorID == d != "" && r.instanceID == x && x in names && names[x] == h
  }

  lemma InDomainSnoc(used: seq<Record>, last: Record, names: map<string, string>, d: string, h: string, x: string)
    ensures InDomain(used + [last], names, d, h, x) <==>
            InDomain(used, names, d, h, x) || (last.acceleratorID == d != "" && last.instanceID == x && x in names && names[x] == h)
  {}

  /** A host is filed with an instance exactly if the used record of the instance says so. */
  lemma {:induction false} DomainsAre(used: seq<Record>, names: map<string, string>)
    requires forall i, j :: 0 <= i < j < |used| ==> used[i].instanceID != used[j].instanceID
    requires forall x, y :: x in names && y in names && names[x] == names[y] ==> x == y
    ensures forall d, h, x :: (d in DomainsOf(used, names) && h in DomainsOf(used, names)[d] && DomainsOf(used, names)[d][h] == x)
                              <==> InDomain(used, names, d, h, x)
  {
    hide InDomain;
    if used == [] {
      NoDomains(names);
    } else {
      var front, last := used[..|used| - 1], used[|used| - 1];
      assert used == front + [last];
      DomainsAre(front, names);
      forall d, h, x
        ensures (d in DomainsOf(used, names) && h in DomainsOf(used, names)[d] && DomainsOf(used, names)[d][h] == x)
                <==> InDomain(used, names, d, h, x)
      {
        InDomainSnoc(front, last, names, d, h, x);
        if InDomain(front, names, d, h, x) { EarlierInstance(front, last, names, d, h, x); }
      }
    }
  }

  lemma NoDomains(names: map<string, string>)
    ensures forall d, h, x :: !InDomain([], names, d, h, x)
  {}

  lemma EarlierInstance(front: seq<Record>, last: Record, names: map<string, string>, d: string, h: string, x: string)
    requires InDomain(front, names, d, h, x)
    requires forall i, j :: 0 <= i < j < |front + [last]| ==> (front + [last])[i].instanceID != (front + [last])[j].instanceID
    ensures x in names && names[x] == h && x != last.instanceID
  {
    var all := front + [last];
    var r :| r in front && r.instanceID == x;
    var i :| 0 <= i < |front| && front[i] == r;
    assert all[i].instanceID != all[|front|].instanceID;
  }

  lemma BlockAt(domains: Table, d: string) returns (i: nat)
    requires d in BlocksOf(domains).vertices
    ensures d in domains && i < |SortedKeys(domains.Keys)| && SortedKeys(domains.Keys)[i] == d
    ensures BlocksOf(domains).vertices[d] == Vertex(d, BlockName(i), HostVertices(domains[d]))
  {
    hide BlockName, HostVertices, SortedKeys, BlocksUpTo;
    var names := SortedKeys(domains.Keys);
    SortedKeysSorted(domains.Keys);
    BlocksKeys(domains, names);
    i :| 0 <= i < |names| && names[i] == d;
    BlocksAt(domains, names, i);
  }

  lemma BlocksAre(domains: Table)
    ensures AreBlocksOf(BlocksOf(domains), domains)
  {
    hide SortedKeys, BlocksUpTo, KeysUpTo, IsBlockOf;
    BlocksKeys(domains, SortedKeys(domains.Keys));
    assert forall d :: d in BlocksOf(domains).vertices <==> d in domains.Keys;
    forall d | d in domains
      ensures IsBlockOf(BlocksOf(domains).vertices[d], d, domains[d], |KeysUpTo(domains.Keys, d)|)
    {
      var i := BlockAt(domains, d);
      RankOfKey(domains.Keys, i);
      BlockIs(d, domains[d], i);
    }
  }

  lemma BlockIs(d: string, hosts: map<string, string>, i: nat)
    ensures IsBlockOf(Vertex(d, BlockName(i), HostVertices(hosts)), d, hosts, i + 1)
  {
    hide Pad;
    assert HostVertices(hosts).Keys == hosts.Keys;
  }

  /** The block of the first domain is block001. */
  lemma FirstBlock(domains: Table, d: string)
    requires d in domains && forall c :: c in domains ==> Leq(d, c)
    ensures d in BlocksOf(domains).vertices && BlocksOf(domains).vertices[d].id == "block001"
  {
    hide BlocksOf, Leq, KeysUpTo;
    BlocksAre(domains);
    assert d in BlocksOf(domains).vertices.Keys;
    LeastAlone(domains.Keys, d);
    FirstId(BlocksOf(domains).vertices[d], d, domains[d]);
  }

  lemma FirstId(block: Vertex, d: string, hosts: map<string, string>)
    requires IsBlockOf(block, d, hosts, 1)
    ensures block.id == "block001"
  {
    assert Dec(1) == "1";
    assert Zeros(2) == "0" + Zeros(1) && Zeros(1) == "0" + Zeros(0) && Zeros(0) == "";
    assert Pad(3, 1) == "001";
  }

  lemma HostsOf(domains: Table, d: string, h: string)
    requires d in BlocksOf(domains).vertices
    ensures d in domains && (HasNode(BlocksOf(domains).vertices[d], h) <==> h in domains[d])
  {
    hide BlockName, BlocksOf;
    var i := BlockAt(domains, d);
    var hosts := HostVertices(domains[d]);
    if h in domains[d] { assert h in hosts && hosts[h].name == h; }
  }

  /** The blocks built from the records are fit for the translation. */
  lemma BlocksFit(domains: Table)
    requires OneDomain(domains)
    ensures BlocksOk(BlocksOf(domains))
  {
    hide BlockName, BlocksOf, HasNode, HostVertices, SortedKeys;
    var b := BlocksOf(domains);
    forall c, d | c in b.vertices && d in b.vertices && b.vertices[c].id == b.vertices[d].id ensures c == d {
      var i := BlockAt(domains, c);
      var j := BlockAt(domains, d);
      BlockNamesDiffer(i, j);
    }
    forall c, d, h | c in b.vertices && d in b.vertices && HasNode(b.vertices[c], h) && HasNode(b.vertices[d], h) ensures c == d {
      HostsOf(domains, c, h);
      HostsOf(domains, d, h);
    }
    forall d | d in b.vertices ensures b.vertices[d].id != "" {
      var i := BlockAt(domains, d);
      NamedBlock(i);
    }
  }

  lemma NamedBlock(i: nat)
    ensures BlockName(i) != ""
  {}

  /** One record per instance and different node names: no host is in two domains. */
  lemma RecordsOneDomain(used: seq<Record>, names: map<string, string>)
    requires forall i, j :: 0 <= i < j < |used| ==> used[i].instanceID != used[j].instanceID
    requires forall x, y :: x in names && y in names && names[x] == names[y] ==> x == y
    ensures OneDomain(DomainsOf(used, names))
  {
    hide DomainsOf;
    var domains := DomainsOf(used, names);
    DomainsAre(used, names);
    forall c, d, h | c in domains && d in domains && h in domains[c] && h in domains[d] ensures c == d {
      assert InDomain(used, names, c, h, domains[c][h]) && InDomain(used, names, d, h, domains[d][h]);
      var r :| r in used && r.acceleratorID == c && r.instanceID == domains[c][h];
      var s :| s in used && s.acceleratorID == d && s.instanceID == domains[d][h];
      var i :| 0 <= i < |used| && used[i] == r;
      var j :| 0 <= j < |used| && used[j] == s;
    }
  }
}
