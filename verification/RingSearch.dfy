/** Searching the ring, the bucket table, and what a change of servers does to it
    (ngx_http_upstream_consistent_hash_module.c). */
module RingSearch {
  import opened Basics
  import opened HashRing

  predicate Sorted(ring: seq<Node>) {
    forall i, j :: 0 <= i < j < |ring| ==> ring[i].point <= ring[j].point
  }

  /** The lowest node at or above the point, or node 0 when there is none. */
  ghost predicate IsSuccessor(ring: seq<Node>, point: int, i: int) {
    && 0 <= i < |ring|
    && (point <= ring[i].point || (i == 0 && forall j :: 0 <= j < |ring| ==> ring[j].point < point))
    && forall j :: 0 <= j < i ==> ring[j].point < point
  }

  /** The search never reads `nodes[mid - 1]` or moves `hi` below 0: an answer is found first. */
  method Find(ring: seq<Node>, point: uint32) returns (i: nat)
    requires Sorted(ring) && ring != []
    ensures IsSuccessor(ring, point, i)
  {
    var lo: nat, hi: nat := 0, |ring| - 1;
    while true
      invariant lo <= hi < |ring|
      invariant lo == 0 || point <= ring[hi].point
      invariant hi == |ring| - 1 || point <= ring[hi].point
      invariant forall j :: 0 <= j < lo ==> ring[j].point < point
      decreases hi - lo
    {
      if point <= ring[lo].point || point > ring[hi].point {
        return lo;
      }
      var mid := lo + (hi - lo) / 2;
      if point <= ring[mid].point && point > (if mid != 0 then ring[mid - 1].point else 0) {
        return mid;
      }
      if ring[mid].point < point {
        lo := mid + 1;
      } else {
        hi := mid - 1;
      }
    }
  }

  lemma SuccessorIsUnique(ring: seq<Node>, point: int, i: int, j: int)
    requires IsSuccessor(ring, point, i) && IsSuccessor(ring, point, j)
    ensures i == j
  {
  }

  /** Bucket b caches the search for b * STEP. */
  method FillBuckets(ring: seq<Node>, bucket: array<nat>)
    requires Sorted(ring) && ring != [] && bucket.Length == BUCKETS
    modifies bucket
    ensures forall b :: 0 <= b < BUCKETS ==> IsSuccessor(ring, b * STEP, bucket[b])
  {
    for b := 0 to BUCKETS
      invariant forall c :: 0 <= c < b ==> IsSuccessor(ring, c * STEP, bucket[c])
    {
      bucket[b] := Find(ring, b * STEP);
    }
  }

  // -------------------------------------------------------------------------
  // The ring as a circle of points.

  /** How far clockwise from `key` the point lies. */
  function Ahead(key: uint32, point: uint32): uint32 {
    if key <= point then point - key else point + 0x1_0000_0000 - key
  }

  /** The node found is the first one clockwise from the key. */
  lemma SuccessorIsNearest(ring: seq<Node>, key: uint32, i: nat, j: nat)
    requires Sorted(ring) && IsSuccessor(ring, key, i) && j < |ring|
    ensures Ahead(key, ring[i].point) <= Ahead(key, ring[j].point)
    ensures Ahead(key, ring[i].point) == Ahead(key, ring[j].point) ==> i <= j
  {
  }

  /** A server of the list has a virtual node at this point. */
  ghost predicate HasPoint(servers: seq<Server>, ppn: nat, hash: (nat, nat) -> uint32, point: uint32) {
    exists s, a, k: nat :: s in servers && a in s.addrs && k < ppn * s.weight && hash(a.name, k) == point
  }

  lemma {:induction false} ServerNodePoints(addrs: seq<Addr>, server: nat, count: nat, peers: seq<nat>,
                                            hash: (nat, nat) -> uint32, point: uint32)
    requires Resolved(addrs, peers)
    ensures (exists n: Node :: n in ServerNodes(addrs, server, count, peers, hash) && n.point == point)
       <==> exists a, k: nat :: a in addrs && k < count && hash(a.name, k) == point
  {
    if addrs != [] {
      var front, last := addrs[..|addrs| - 1], addrs[|addrs| - 1];
      ServerNodePoints(front, server, count, peers, hash, point);
      var peer := PeerIndex(peers, last.sockaddr);
      var before, after := ServerNodes(front, server, count, peers, hash), AddrNodes(last, peer, server, count, hash);
      AddrNodePoints(last, peer, server, count, hash, point);
      assert addrs == front + [last];
      if n: Node :| n in before + after && n.point == point {
        assert n in before || n in after;
      }
      if a, k: nat :| a in addrs && k < count && hash(a.name, k) == point {
        assert a == last || a in front;
        var n: Node :| (n in before || n in after) && n.point == point;
        assert n in before + after;
      }
    }
  }

  lemma AddrNodePoints(addr: Addr, peer: nat, server: nat, count: nat, hash: (nat, nat) -> uint32, point: uint32)
    ensures (exists n: Node :: n in AddrNodes(addr, peer, server, count, hash) && n.point == point)
       <==> exists k: nat :: k < count && hash(addr.name, k) == point
  {
    var nodes := AddrNodes(addr, peer, server, count, hash);
    if n: Node :| n in nodes && n.point == point {
      var k: nat :| k < |nodes| && nodes[k] == n;
      assert hash(addr.name, k) == point;
    }
    if k: nat :| k < count && hash(addr.name, k) == point {
      assert nodes[k] in nodes;
    }
  }

  lemma {:induction false} NodePoints(servers: seq<Server>, ppn: nat, peers: seq<nat>,
                                      hash: (nat, nat) -> uint32, point: uint32)
    requires AllResolved(servers, peers)
    ensures (exists n: Node :: n in AllNodes(servers, ppn, peers, hash) && n.point == point)
       <==> HasPoint(servers, ppn, hash, point)
  {
    if servers != [] {
      var i := |servers| - 1;
      var front, last := servers[..i], servers[i];
      NodePoints(front, ppn, peers, hash, point);
      ServerNodePoints(last.addrs, i, ppn * last.weight, peers, hash, point);
      var before := AllNodes(front, ppn, peers, hash);
      var after := ServerNodes(last.addrs, i, ppn * last.weight, peers, hash);
      assert servers == front + [last];
      if n: Node :| n in before + after && n.point == point {
        if n in after {
          var a, k: nat :| a in last.addrs && k < ppn * last.weight && hash(a.name, k) == point;
          assert last in servers;
        } else {
          assert HasPoint(front, ppn, hash, point);
        }
      }
      if s, a, k: nat :| s in servers && a in s.addrs && k < ppn * s.weight && hash(a.name, k) == point {
        if s in front {
          assert HasPoint(front, ppn, hash, point);
          var n: Node :| n in before && n.point == point;
          assert n in before + after;
        } else {
          var n: Node :| n in after && n.point == point;
          assert n in before + after;
        }
      }
    }
  }

  /** The sorted ring of a configuration. */
  ghost predicate RingOf(ring: seq<Node>, servers: seq<Server>, ppn: nat, peers: seq<nat>, hash: (nat, nat) -> uint32)
  {
    AllResolved(servers, peers) && Sorted(ring) && multiset(ring) == multiset(AllNodes(servers, ppn, peers, hash))
  }

  ghost predicate OnRing(ring: seq<Node>, point: uint32) {
    exists i :: 0 <= i < |ring| && ring[i].point == point
  }

  lemma RingPoints(ring: seq<Node>, servers: seq<Server>, ppn: nat, peers: seq<nat>,
                   hash: (nat, nat) -> uint32, point: uint32)
    requires RingOf(ring, servers, ppn, peers, hash)
    ensures OnRing(ring, point) <==> HasPoint(servers, ppn, hash, point)
  {
    NodePoints(servers, ppn, peers, hash, point);
    var nodes := AllNodes(servers, ppn, peers, hash);
    assert forall n :: n in ring <==> n in multiset(ring);
    assert forall n :: n in nodes <==> n in multiset(nodes);
    if i :| 0 <= i < |ring| && ring[i].point == point {
      assert ring[i] in nodes;
    }
    if n: Node :| n in nodes && n.point == point {
      assert n in ring;
    }
  }

  /** A virtual node made for a unit of weight of its server: the hash of one of its addresses, and the first
      peer with that address. */
  ghost predicate MadeFor(n: Node, servers: seq<Server>, ppn: nat, peers: seq<nat>, hash: (nat, nat) -> uint32) {
    && n.server < |servers|
    && MadeOf(n, servers[n.server].addrs, ppn * servers[n.server].weight, peers, hash)
  }

  ghost predicate MadeOf(n: Node, addrs: seq<Addr>, count: nat, peers: seq<nat>, hash: (nat, nat) -> uint32) {
    && n.peer < |peers| && peers[n.peer] !in peers[..n.peer]
    && exists a, k: nat {:trigger hash(a.name, k)} ::
         a in addrs && a.sockaddr == peers[n.peer] && k < count && n.point == hash(a.name, k)
  }

  lemma {:induction false} ServerNodesAre(addrs: seq<Addr>, server: nat, count: nat, peers: seq<nat>,
                                          hash: (nat, nat) -> uint32, n: Node)
    requires Resolved(addrs, peers)
    ensures n in ServerNodes(addrs, server, count, peers, hash)
       <==> n.server == server && MadeOf(n, addrs, count, peers, hash)
  {
    if addrs != [] {
      var front, last := addrs[..|addrs| - 1], addrs[|addrs| - 1];
      assert addrs == front + [last];
      ServerNodesAre(front, server, count, peers, hash, n);
      AddrNodesAre(last, server, count, peers, hash, n);
      MadeOfMore(front, last, count, peers, hash, n);
      var before, after := ServerNodes(front, server, count, peers, hash),
                           AddrNodes(last, PeerIndex(peers, last.sockaddr), server, count, hash);
      assert n in before + after <==> n in before || n in after;
    }
  }

  lemma MadeOfMore(front: seq<Addr>, last: Addr, count: nat, peers: seq<nat>, hash: (nat, nat) -> uint32, n: Node)
    ensures MadeOf(n, front + [last], count, peers, hash)
       <==> MadeOf(n, front, count, peers, hash) || MadeOf(n, [last], count, peers, hash)
  {
    assert forall a :: a in front + [last] <==> a in front || a in [last];
  }

  lemma AddrNodesAre(addr: Addr, server: nat, count: nat, peers: seq<nat>, hash: (nat, nat) -> uint32, n: Node)
    requires addr.sockaddr in peers
    ensures n in AddrNodes(addr, PeerIndex(peers, addr.sockaddr), server, count, hash)
       <==> n.server == server && MadeOf(n, [addr], count, peers, hash)
  {
    var peer := PeerIndex(peers, addr.sockaddr);
    var nodes := AddrNodes(addr, peer, server, count, hash);
    if n in nodes {
      var k: nat :| k < |nodes| && nodes[k] == n;
      assert addr in [addr] && n.point == hash(addr.name, k);
    }
    if n.server == server && MadeOf(n, [addr], count, peers, hash) {
      FirstOfPeers(peers, n.peer, peer);
      var a, k: nat :| a in [addr] && k < count && n.point == hash(a.name, k);
      assert nodes[k] == n;
    }
  }

  lemma FirstOfPeers(peers: seq<nat>, i: nat, j: nat)
    requires i < |peers| && peers[i] !in peers[..i] && j < |peers| && peers[j] == peers[i]
    requires forall m :: 0 <= m < j ==> peers[m] != peers[j]
    ensures i == j
  {
  }

  /** The nodes of a configuration are exactly those made for the units of weight of its servers. */
  lemma {:induction false} NodesAre(servers: seq<Server>, ppn: nat, peers: seq<nat>, hash: (nat, nat) -> uint32,
                                    n: Node)
    requires AllResolved(servers, peers)
    ensures n in AllNodes(servers, ppn, peers, hash) <==> MadeFor(n, servers, ppn, peers, hash)
  {
    if servers != [] {
      var i := |servers| - 1;
      var front, last := servers[..i], servers[i];
      assert servers == front + [last];
      NodesAre(front, ppn, peers, hash, n);
      ServerNodesAre(last.addrs, i, ppn * last.weight, peers, hash, n);
      var before, after := AllNodes(front, ppn, peers, hash),
                           ServerNodes(last.addrs, i, ppn * last.weight, peers, hash);
      assert n in before + after <==> n in before || n in after;
      assert n.server < i ==> servers[n.server] == front[n.server];
    }
  }

  /** So is every node of the sorted ring, and with it the node of every bucket. */
  lemma RingNodesAre(ring: seq<Node>, servers: seq<Server>, ppn: nat, peers: seq<nat>,
                     hash: (nat, nat) -> uint32, n: Node)
    requires RingOf(ring, servers, ppn, peers, hash)
    ensures n in ring <==> MadeFor(n, servers, ppn, peers, hash)
  {
    NodesAre(servers, ppn, peers, hash, n);
    var nodes := AllNodes(servers, ppn, peers, hash);
    assert n in ring <==> n in multiset(ring);
    assert n in nodes <==> n in multiset(nodes);
  }

  /** A bucket of the filled table leads to the peer and the server whose address hashes to its node's point. */
  lemma BucketsLeadToOwners(ring: seq<Node>, bucket: seq<nat>, servers: seq<Server>, ppn: nat, peers: seq<nat>,
                            hash: (nat, nat) -> uint32, b: nat)
    requires RingOf(ring, servers, ppn, peers, hash) && ring != [] && b < |bucket| == BUCKETS
    requires forall c :: 0 <= c < BUCKETS ==> IsSuccessor(ring, c * STEP, bucket[c])
    ensures bucket[b] < |ring|
    ensures
      var n := ring[bucket[b]];
      && n.server < |servers| && n.peer < |peers|
      && exists a, k: nat {:trigger hash(a.name, k)} ::
           a in servers[n.server].addrs && a.sockaddr == peers[n.peer]
           && k < ppn * servers[n.server].weight && n.point == hash(a.name, k)
  {
    assert IsSuccessor(ring, b * STEP, bucket[b]);
    RingNodesAre(ring, servers, ppn, peers, hash, ring[bucket[b]]);
  }

  /** Two rings answer alike when each holds the point the other one finds. */
  lemma SameAnswer(ring: seq<Node>, ring': seq<Node>, key: uint32, i: nat, i': nat, j: nat, j': nat)
    requires Sorted(ring) && Sorted(ring') && IsSuccessor(ring, key, i) && IsSuccessor(ring', key, i')
    requires j < |ring| && ring[j].point == ring'[i'].point
    requires j' < |ring'| && ring'[j'].point == ring[i].point
    ensures ring[i].point == ring'[i'].point
  {
    SuccessorIsNearest(ring, key, i, j);
    SuccessorIsNearest(ring', key, i', j');
  }

  /** `after` is `before` with the servers of `added`, wherever in the list they were put. */
  ghost predicate Added(before: seq<Server>, added: seq<Server>, after: seq<Server>) {
    multiset(after) == multiset(before) + multiset(added)
  }

  /** Then its members are those of both. */
  ghost predicate Joins(before: seq<Server>, added: seq<Server>, after: seq<Server>) {
    forall s :: s in after <==> s in before || s in added
  }

  /** A point of the changed ring is a point of the old ring or of an added server, and a point
      that the new ring still has is looked up as before. */
  lemma StablePoint(before: seq<Server>, added: seq<Server>, after: seq<Server>, ppn: nat, ppn': nat,
                    peers: seq<nat>, peers': seq<nat>, hash: (nat, nat) -> uint32,
                    ring: seq<Node>, ring': seq<Node>, key: uint32, i: nat, i': nat)
    requires Joins(before, added, after) && ppn' <= ppn
    requires RingOf(ring, before, ppn, peers, hash)
    requires RingOf(ring', after, ppn', peers', hash)
    requires IsSuccessor(ring, key, i) && IsSuccessor(ring', key, i')
    requires !HasPoint(added, ppn', hash, ring'[i'].point)
    requires OnRing(ring', ring[i].point)
    ensures ring'[i'].point == ring[i].point
  {
    var p, p' := ring[i].point, ring'[i'].point;
    RingPoints(ring', after, ppn', peers', hash, p');
    KeptOrAdded(before, added, after, ppn, ppn', hash, p');
    RingPoints(ring, before, ppn, peers, hash, p');
    var j: nat :| j < |ring| && ring[j].point == p';
    var j': nat :| j' < |ring'| && ring'[j'].point == p;
    SameAnswer(ring, ring', key, i, i', j, j');
  }

  /** Minimal disruption: servers are added anywhere in the list, so that the number of points per
      node does not grow (`AddingShrinks`). A key (the buckets search for b * STEP) that finds
      another point than before either finds a point of an added server, or the point it used to
      find is gone because there are now fewer points per node. */
  lemma MinimalDisruption(before: seq<Server>, added: seq<Server>, after: seq<Server>, ppn: nat, ppn': nat,
                          peers: seq<nat>, peers': seq<nat>, hash: (nat, nat) -> uint32,
                          ring: seq<Node>, ring': seq<Node>, key: uint32, i: nat, i': nat)
    requires Joins(before, added, after) && ppn' <= ppn
    requires RingOf(ring, before, ppn, peers, hash)
    requires RingOf(ring', after, ppn', peers', hash)
    requires IsSuccessor(ring, key, i) && IsSuccessor(ring', key, i')
    ensures
      || ring'[i'].point == ring[i].point
      || HasPoint(added, ppn', hash, ring'[i'].point)
      || (ppn' < ppn && !HasPoint(after, ppn', hash, ring[i].point))
  {
    RingPoints(ring, before, ppn, peers, hash, ring[i].point);
    if ppn' == ppn {
      KeptIfSamePoints(before, added, after, ppn, hash, ring[i].point);
    }
    RingPoints(ring', after, ppn', peers', hash, ring[i].point);
    if !HasPoint(added, ppn', hash, ring'[i'].point) && OnRing(ring', ring[i].point) {
      StablePoint(before, added, after, ppn, ppn', peers, peers', hash, ring, ring', key, i, i');
    }
  }

  /** The rings that the module itself makes, before and after servers are added. */
  lemma AddingServersDisruptsLittle(before: seq<Server>, added: seq<Server>, after: seq<Server>,
                                    peers: seq<nat>, peers': seq<nat>, hash: (nat, nat) -> uint32,
                                    ring: seq<Node>, ring': seq<Node>, key: uint32, i: nat, i': nat)
    requires Added(before, added, after) && 1 <= RealNodes(before)
    requires RingOf(ring, before, PointsPerNode(RealNodes(before)), peers, hash)
    requires 1 <= RealNodes(after)
    requires RingOf(ring', after, PointsPerNode(RealNodes(after)), peers', hash)
    requires IsSuccessor(ring, key, i) && IsSuccessor(ring', key, i')
    ensures
      var ppn, ppn' := PointsPerNode(RealNodes(before)), PointsPerNode(RealNodes(after));
      || ring'[i'].point == ring[i].point
      || HasPoint(added, ppn', hash, ring'[i'].point)
      || (ppn' < ppn && !HasPoint(after, ppn', hash, ring[i].point))
  {
    AddedMembers(before, added, after);
    AddingShrinks(before, added, after);
    MinimalDisruption(before, added, after, PointsPerNode(RealNodes(before)), PointsPerNode(RealNodes(after)),
                      peers, peers', hash, ring, ring', key, i, i');
  }

  lemma AddedMembers(before: seq<Server>, added: seq<Server>, after: seq<Server>)
    requires Added(before, added, after)
    ensures Joins(before, added, after)
  {
    assert forall s :: s in after <==> s in multiset(after);
    assert forall s :: s in before <==> s in multiset(before);
    assert forall s :: s in added <==> s in multiset(added);
    assert forall s :: s in multiset(after) <==> s in multiset(before) || s in multiset(added);
  }

  /** Adding servers never means more points for each real node. */
  lemma AddingShrinks(before: seq<Server>, added: seq<Server>, after: seq<Server>)
    requires Added(before, added, after) && 1 <= RealNodes(before)
    ensures RealNodes(after) == RealNodes(before) + RealNodes(added)
    ensures PointsPerNode(RealNodes(after)) <= PointsPerNode(RealNodes(before))
  {
    SameTotal(after, before + added, NodesOf);
    TotalSum(before, added, NodesOf);
    RealNodesTotal(after);
    RealNodesTotal(before);
    RealNodesTotal(added);
    PointsPerNodeShrinks(RealNodes(before), RealNodes(after));
  }

  /** The real nodes of one server. */
  function NodesOf(s: Server): nat { s.weight * |s.addrs| }

  function Total(servers: seq<Server>, f: Server -> nat): nat {
    if servers == [] then 0 else Total(servers[..|servers| - 1], f) + f(servers[|servers| - 1])
  }

  lemma {:induction false} RealNodesTotal(servers: seq<Server>)
    ensures RealNodes(servers) == Total(servers, NodesOf)
  {
    if servers != [] {
      RealNodesTotal(servers[..|servers| - 1]);
    }
  }

  lemma {:induction false} TotalSum(a: seq<Server>, b: seq<Server>, f: Server -> nat)
    ensures Total(a + b, f) == Total(a, f) + Total(b, f)
    decreases |b|
  {
    if b == [] {
      assert a + b == a;
    } else {
      assert (a + b)[..|a + b| - 1] == a + b[..|b| - 1];
      TotalSum(a, b[..|b| - 1], f);
    }
  }

  lemma OneMoreServer(front: seq<Server>, s: Server, back: seq<Server>, f: Server -> nat)
    ensures multiset(front + [s] + back) == multiset(front + back) + multiset{s}
    ensures Total(front + [s] + back, f) == Total(front + back, f) + f(s)
  {
    TotalSum(front + [s], back, f);
    TotalSum(front, back, f);
    assert (front + [s])[..|front|] == front;
  }

  lemma FirstServer(b: seq<Server>, f: Server -> nat)
    requires b != []
    ensures multiset(b) == multiset(b[1..]) + multiset{b[0]} && Total(b, f) == Total(b[1..], f) + f(b[0])
  {
    OneMoreServer([], b[0], b[1..], f);
    assert [] + [b[0]] + b[1..] == b && [] + b[1..] == b[1..];
  }

  /** The order of the servers is of no account. */
  lemma {:induction false} SameTotal(a: seq<Server>, b: seq<Server>, f: Server -> nat)
    requires multiset(a) == multiset(b)
    ensures Total(a, f) == Total(b, f)
    decreases |b|
  {
    if b == [] {
      assert |multiset(a)| == 0;
    } else {
      var s, rest := b[0], b[1..];
      var front, back := Around(a, s);
      OneMoreServer(front, s, back, f);
      FirstServer(b, f);
      CancelOne(multiset(front + back), multiset(rest), s);
      SameTotal(front + back, rest, f);
    }
  }

  lemma Around(a: seq<Server>, s: Server) returns (front: seq<Server>, back: seq<Server>)
    requires s in multiset(a)
    ensures a == front + [s] + back
  {
    assert s in a;
    var i: nat :| i < |a| && a[i] == s;
    front, back := a[..i], a[i + 1..];
  }

  lemma CancelOne(x: multiset<Server>, y: multiset<Server>, s: Server)
    requires x + multiset{s} == y + multiset{s}
    ensures x == y
  {
    assert (x + multiset{s}) - multiset{s} == x && (y + multiset{s}) - multiset{s} == y;
  }

  lemma KeptOrAdded(before: seq<Server>, added: seq<Server>, after: seq<Server>, ppn: nat, ppn': nat,
                    hash: (nat, nat) -> uint32, point: uint32)
    requires Joins(before, added, after) && ppn' <= ppn
    requires HasPoint(after, ppn', hash, point)
    ensures HasPoint(before, ppn, hash, point) || HasPoint(added, ppn', hash, point)
  {
    var s, a, k: nat :| s in after && a in s.addrs && k < ppn' * s.weight && hash(a.name, k) == point;
    CountShrinks(ppn', ppn, s.weight);
  }

  lemma CountShrinks(m: nat, n: nat, w: nat)
    requires m <= n
    ensures m * w <= n * w
  {
    assert n * w == m * w + (n - m) * w;
  }

  lemma KeptIfSamePoints(before: seq<Server>, added: seq<Server>, after: seq<Server>, ppn: nat,
                         hash: (nat, nat) -> uint32, point: uint32)
    requires Joins(before, added, after) && HasPoint(before, ppn, hash, point)
    ensures HasPoint(after, ppn, hash, point)
  {
    var s, a, k: nat :| s in before && a in s.addrs && k < ppn * s.weight && hash(a.name, k) == point;
    assert s in after;
  }

  lemma PointsPerNodeShrinks(r: nat, r': nat)
    requires 1 <= r <= r'
    ensures PointsPerNode(r') <= PointsPerNode(r)
  {
    QuotientShrinks(r, r', BUCKETS / r, BUCKETS / r', BUCKETS % r, BUCKETS % r');
  }

  lemma QuotientShrinks(r: nat, r': nat, q: nat, q': nat, t: int, t': int)
    requires 1 <= r <= r' && r * q + t == r' * q' + t' && t < r && 0 <= t'
    ensures q' <= q
  {
    CountShrinks(r, r', q');
    if q' > q {
      CountShrinks(q + 1, q', r);
      OneMoreTimes(q, r);
    }
  }

  lemma OneMoreTimes(q: nat, r: nat)
    ensures (q + 1) * r == r * q + r
  {
  }
}
