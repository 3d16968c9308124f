/** The consistent-hash ring and its bucket table
    (ngx_http_upstream_consistent_hash_module.c, configuration time). */
module HashRing {
  import opened Basics

  const BUCKETS: nat := 65536
  /** 0xffffffff / BUCKETS */
  const STEP: nat := 65535

  /** An address: where its socket address is kept, by which it is told from others, and its name. */
  datatype Addr = Addr(sockaddr: nat, name: nat)

  /** A configured server: the addresses its name resolved to, and its weight. */
  datatype Server = Server(addrs: seq<Addr>, weight: nat)

  /** A virtual node: its point, the index of its round-robin peer and of its server. */
  datatype Node = Node(point: uint32, peer: nat, server: nat)

  // -------------------------------------------------------------------------
  // Filling the ring. `hash(name, k)` stands for the CRC32 of the MD5 of "name-k".

  function RealNodes(servers: seq<Server>): nat {
    if servers == [] then 0
    else RealNodes(servers[..|servers| - 1]) + servers[|servers| - 1].weight * |servers[|servers| - 1].addrs|
  }

  function PointsPerNode(realNodes: nat): (n: nat)
    requires 1 <= realNodes
  {
    if BUCKETS / realNodes == 0 then 1 else BUCKETS / realNodes
  }

  /** The index of the first peer with the given socket address; peers are their socket addresses. */
  function PeerIndex(peers: seq<nat>, addr: nat): (i: nat)
    requires addr in peers
    ensures i < |peers| && peers[i] == addr && forall m :: 0 <= m < i ==> peers[m] != addr
  {
    if peers[0] == addr then 0
    else
      assert peers == [peers[0]] + peers[1..];
      1 + PeerIndex(peers[1..], addr)
  }

  function AddrNodes(addr: Addr, peer: nat, server: nat, count: nat, hash: (nat, nat) -> uint32): (nodes: seq<Node>)
    ensures |nodes| == count
  {
    seq(count, (k: nat) => Node(hash(addr.name, k), peer, server))
  }

  predicate Resolved(addrs: seq<Addr>, peers: seq<nat>) { forall a :: a in addrs ==> a.sockaddr in peers }

  function ServerNodes(addrs: seq<Addr>, server: nat, count: nat, peers: seq<nat>, hash: (nat, nat) -> uint32)
    : (nodes: seq<Node>)
    requires Resolved(addrs, peers)
  {
    if addrs == [] then []
    else
      var last := addrs[|addrs| - 1];
      ServerNodes(addrs[..|addrs| - 1], server, count, peers, hash)
      + AddrNodes(last, PeerIndex(peers, last.sockaddr), server, count, hash)
  }

  predicate AllResolved(servers: seq<Server>, peers: seq<nat>) {
    forall s :: s in servers ==> Resolved(s.addrs, peers)
  }

  /** The nodes of all servers, in the order of the configuration. */
  function AllNodes(servers: seq<Server>, ppn: nat, peers: seq<nat>, hash: (nat, nat) -> uint32): (nodes: seq<Node>)
    requires AllResolved(servers, peers)
  {
    if servers == [] then []
    else
      var i := |servers| - 1;
      AllNodes(servers[..i], ppn, peers, hash)
      + ServerNodes(servers[i].addrs, i, ppn * servers[i].weight, peers, hash)
  }

  lemma {:induction false} ServerNodesCount(addrs: seq<Addr>, server: nat, count: nat, peers: seq<nat>, hash: (nat,
                                            nat) -> uint32)
    requires Resolved(addrs, peers)
    ensures |ServerNodes(addrs, server, count, peers, hash)| == count * |addrs|
  {
    if addrs != [] {
      ServerNodesCount(addrs[..|addrs| - 1], server, count, peers, hash);
      assert count * (|addrs| - 1) + count == count * |addrs|;
    }
  }

  function TotalCount(servers: seq<Server>, ppn: nat): nat {
    if servers == [] then 0
    else TotalCount(servers[..|servers| - 1], ppn)
         + (ppn * servers[|servers| - 1].weight) * |servers[|servers| - 1].addrs|
  }

  lemma {:induction false} TotalCountFactors(servers: seq<Server>, ppn: nat)
    ensures TotalCount(servers, ppn) == ppn * RealNodes(servers)
  {
    if servers != [] {
      var last := servers[|servers| - 1];
      TotalCountFactors(servers[..|servers| - 1], ppn);
      Distribute(ppn, RealNodes(servers[..|servers| - 1]), last.weight, |last.addrs|);
    }
  }

  lemma {:induction false} NodesCounted(servers: seq<Server>, ppn: nat, peers: seq<nat>, hash: (nat, nat) -> uint32)
    requires AllResolved(servers, peers)
    ensures |AllNodes(servers, ppn, peers, hash)| == TotalCount(servers, ppn)
  {
    if servers != [] {
      var i := |servers| - 1;
      assert servers[i] in servers;
      NodesCounted(servers[..i], ppn, peers, hash);
      ServerNodesCount(servers[i].addrs, i, ppn * servers[i].weight, peers, hash);
    }
  }

  /** The fill loop makes `ppn` virtual nodes for each unit of weight of each address. */
  lemma AllNodesCount(servers: seq<Server>, ppn: nat, peers: seq<nat>, hash: (nat, nat) -> uint32)
    requires AllResolved(servers, peers)
    ensures |AllNodes(servers, ppn, peers, hash)| == ppn * RealNodes(servers)
  {
    NodesCounted(servers, ppn, peers, hash);
    TotalCountFactors(servers, ppn);
  }

  lemma Distribute(p: nat, r: nat, w: nat, n: nat)
    ensures p * r + (p * w) * n == p * (r + w * n)
  {
    assert (p * w) * n == p * (w * n);
  }

  /** The ring holds BUCKETS nodes; the fill loop stays inside it if and only if there are no
      more real nodes than that. */
  lemma RingFitsIff(realNodes: nat)
    requires 1 <= realNodes
    ensures PointsPerNode(realNodes) * realNodes <= BUCKETS <==> realNodes <= BUCKETS
    ensures realNodes <= BUCKETS ==> BUCKETS < (PointsPerNode(realNodes) + 1) * realNodes
    ensures realNodes > BUCKETS ==> PointsPerNode(realNodes) == 1
  {
    var q := BUCKETS / realNodes;
    assert BUCKETS == realNodes * q + BUCKETS % realNodes;
    if q == 0 {
      assert realNodes * q == 0;
    } else {
      assert (q - 1) * realNodes >= 0;
      assert (q - 1) * realNodes == q * realNodes - realNodes;
      assert (q + 1) * realNodes == q * realNodes + realNodes;
    }
  }

  method FindRrPeer(peers: seq<nat>, addr: nat) returns (found: bool, i: nat)
    ensures found == (addr in peers)
    ensures found ==> i == PeerIndex(peers, addr)
  {
    i := 0;
    while i < |peers|
      invariant i <= |peers| && forall m :: 0 <= m < i ==> peers[m] != addr
    {
      if peers[i] == addr {
        FirstIndex(peers, addr, i);
        return true, i;
      }
      i := i + 1;
    }
    return false, 0;
  }

  lemma FirstIndex(peers: seq<nat>, addr: nat, i: nat)
    requires i < |peers| && peers[i] == addr && forall m :: 0 <= m < i ==> peers[m] != addr
    ensures PeerIndex(peers, addr) == i
  {
  }

  /** The configuration loop: an unresolved address is an error, otherwise the ring's nodes are
      those of all servers, `ppn` for each real node. */
  method FillContinuum(servers: seq<Server>, peers: seq<nat>, hash: (nat, nat) -> uint32, nodes: array<Node>)
    returns (ok: bool, nnodes: nat)
    requires 1 <= RealNodes(servers) <= BUCKETS == nodes.Length
    modifies nodes
    ensures ok <==> AllResolved(servers, peers)
    ensures ok ==> nnodes == PointsPerNode(RealNodes(servers)) * RealNodes(servers) <= BUCKETS
    ensures ok ==> nodes[..nnodes] == AllNodes(servers, PointsPerNode(RealNodes(servers)), peers, hash)
  {
    var ppn := PointsPerNode(RealNodes(servers));
    RingFitsIff(RealNodes(servers));
    nnodes := 0;
    for i := 0 to |servers|
      invariant AllResolved(servers[..i], peers)
      invariant nnodes == ppn * RealNodes(servers[..i]) <= BUCKETS
      invariant nodes[..nnodes] == AllNodes(servers[..i], ppn, peers, hash)
    {
      RealNodesGrow(servers, i + 1, ppn);
      NextServer(servers, i, ppn, peers, hash);
      ok, nnodes := FillServer(servers[i].addrs, i, ppn * servers[i].weight, peers, hash, nodes, nnodes);
      if !ok {
        return;
      }
    }
    assert servers[..|servers|] == servers;
    ok := true;
  }

  lemma NextServer(servers: seq<Server>, i: nat, ppn: nat, peers: seq<nat>, hash: (nat, nat) -> uint32)
    requires i < |servers| && AllResolved(servers[..i], peers)
    ensures ppn * RealNodes(servers[..i + 1])
         == ppn * RealNodes(servers[..i]) + (ppn * servers[i].weight) * |servers[i].addrs|
    ensures AllResolved(servers[..i + 1], peers) <==> Resolved(servers[i].addrs, peers)
    ensures AllResolved(servers, peers) ==> AllResolved(servers[..i + 1], peers)
    ensures AllResolved(servers[..i + 1], peers) ==>
      AllNodes(servers[..i + 1], ppn, peers, hash)
      == AllNodes(servers[..i], ppn, peers, hash)
         + ServerNodes(servers[i].addrs, i, ppn * servers[i].weight, peers, hash)
  {
    var next := servers[..i + 1];
    assert next[..i] == servers[..i] && next[i] == servers[i];
    NextCount(servers, i, ppn);
    assert servers[i] in next;
    assert next == servers[..i] + [servers[i]];
    assert forall s :: s in next ==> s in servers[..i] || s == servers[i];
  }

  lemma NextCount(servers: seq<Server>, i: nat, ppn: nat)
    requires i < |servers|
    ensures ppn * RealNodes(servers[..i + 1])
         == ppn * RealNodes(servers[..i]) + (ppn * servers[i].weight) * |servers[i].addrs|
  {
    var next := servers[..i + 1];
    assert next[..i] == servers[..i] && next[i] == servers[i];
    Distribute(ppn, RealNodes(servers[..i]), servers[i].weight, |servers[i].addrs|);
  }

  lemma {:induction false} RealNodesGrow(servers: seq<Server>, i: nat, ppn: nat)
    requires i <= |servers|
    ensures RealNodes(servers[..i]) <= RealNodes(servers)
    ensures ppn * RealNodes(servers[..i]) <= ppn * RealNodes(servers)
    decreases |servers|
  {
    if i == |servers| {
      assert servers[..i] == servers;
    } else {
      var front := servers[..|servers| - 1];
      assert front[..i] == servers[..i];
      RealNodesGrow(front, i, ppn);
      Distribute(ppn, RealNodes(front), servers[|servers| - 1].weight, |servers[|servers| - 1].addrs|);
    }
  }

  method FillServer(addrs: seq<Addr>, i: nat, count: nat, peers: seq<nat>, hash: (nat, nat) -> uint32,
                    nodes: array<Node>, nnodes0: nat)
    returns (ok: bool, nnodes: nat)
    requires nnodes0 + count * |addrs| <= nodes.Length
    modifies nodes
    ensures ok <==> Resolved(addrs, peers)
    ensures ok ==> nnodes == nnodes0 + count * |addrs|
    ensures ok ==> nodes[..nnodes] == old(nodes[..nnodes0]) + ServerNodes(addrs, i, count, peers, hash)
  {
    nnodes := nnodes0;
    for j := 0 to |addrs|
      invariant Resolved(addrs[..j], peers)
      invariant nnodes == nnodes0 + count * j
      invariant nnodes <= nodes.Length
      invariant nodes[..nnodes] == old(nodes[..nnodes0]) + ServerNodes(addrs[..j], i, count, peers, hash)
    {
      var addr := addrs[j];
      var found, peer := FindRrPeer(peers, addr.sockaddr);
      if !found {
        assert addr in addrs;
        return false, nnodes;
      }
      NextAddr(addrs, j, i, count, peers, hash);
      FillAddr(addr, peer, i, count, hash, nodes, nnodes);
      nnodes := nnodes + count;
    }
    assert addrs[..|addrs|] == addrs;
    ok := true;
  }

  lemma NextAddr(addrs: seq<Addr>, j: nat, server: nat, count: nat, peers: seq<nat>, hash: (nat, nat) -> uint32)
    requires j < |addrs| && addrs[j].sockaddr in peers && Resolved(addrs[..j], peers)
    ensures count * (j + 1) == count * j + count <= count * |addrs|
    ensures Resolved(addrs[..j + 1], peers)
    ensures ServerNodes(addrs[..j + 1], server, count, peers, hash)
         == ServerNodes(addrs[..j], server, count, peers, hash)
            + AddrNodes(addrs[j], PeerIndex(peers, addrs[j].sockaddr), server, count, hash)
  {
    assert addrs[..j + 1] == addrs[..j] + [addrs[j]];
    assert count * |addrs| == count * (j + 1) + count * (|addrs| - j - 1);
  }

  method FillAddr(addr: Addr, peer: nat, server: nat, count: nat, hash: (nat, nat) -> uint32,
                  nodes: array<Node>, nnodes: nat)
    requires nnodes + count <= nodes.Length
    modifies nodes
    ensures nodes[..nnodes + count] == old(nodes[..nnodes]) + AddrNodes(addr, peer, server, count, hash)
  {
    for k := 0 to count
      invariant nodes[..nnodes + k] == old(nodes[..nnodes]) + AddrNodes(addr, peer, server, count, hash)[..k]
    {
      nodes[nnodes + k] := Node(hash(addr.name, k), peer, server);
    }
  }
}
