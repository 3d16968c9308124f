/** What peer selection guarantees over one call and over the calls of one request. */
module PeerRuns {
  import opened Basics
  import opened HashRing
  import opened PeerSelection
  import RingSearch

  /** What is left to add up, in units of 89, when a call stands at `tries`. */
  function Remaining(tries: nat): nat
    decreases 21 - tries
  {
    if tries > 20 then 0 else tries + Remaining(tries + 1)
  }

  /** A bucket that probing from `point` at `tries` can reach. */
  ghost predicate Reachable(b: nat, point: uint32, tries: nat) {
    exists d: nat {:trigger Ahead(point, d)} :: 89 * tries <= d <= 89 * Remaining(tries) && b == Ahead(point, d)
  }

  function Ahead(point: uint32, d: nat): nat { (point + d) % BUCKETS }

  /** Reducing modulo 2^32 first does not change the bucket: 65536 divides 2^32. */
  lemma WrapKeepsBucket(x: int)
    ensures (x % 0x1_0000_0000) % BUCKETS == x % BUCKETS
  {
    var r := x % 0x1_0000_0000;
    BucketIs(x, 65536 * (x / 0x1_0000_0000) + r / 65536, r % 65536);
  }

  lemma BucketIs(n: int, q: int, b: int)
    requires n == 65536 * q + b && 0 <= b < 65536
    ensures n % BUCKETS == b
  {
  }

  lemma RemainingBound(tries: nat)
    requires tries <= 20
    ensures tries <= Remaining(tries) <= 210
  {
    assert Remaining(18) == 57;
    assert Remaining(15) == 105;
    assert Remaining(12) == 144;
    assert Remaining(9) == 174;
    assert Remaining(6) == 195;
    assert Remaining(3) == 207;
    assert Remaining(0) == 210;
  }

  predicate Distinct<T(==)>(s: seq<T>) { forall i, j :: 0 <= i < j < |s| ==> s[i] != s[j] }

  /** A call probes each bucket at most once, whatever the point and despite 32-bit wrap-around. */
  lemma {:induction false} ProbesAreDistinct(req: Request, point: uint32, peers: seq<Peer>, buckets: seq<Node>,
                                             now: int)
    requires BucketsOver(buckets, |peers|) && req.tries <= 20
    ensures Distinct(Probe(req, point, peers, buckets, now).probed)
    ensures forall b :: b in Probe(req, point, peers, buckets, now).probed ==> Reachable(b, point, req.tries)
    decreases 21 - req.tries
  {
    var r := Probe(req, point, peers, buckets, now);
    var t := req.tries;
    var p: uint32 := (point + 89 * t) % 0x1_0000_0000;
    var b := p % BUCKETS;
    RemainingBound(t);
    WrapKeepsBucket(point + 89 * t);
    assert b == Ahead(point, 89 * t);
    if |r.probed| > 1 {
      var req' := Rejected(req, buckets[b]);
      var rest := Probe(req', p, peers, buckets, now);
      ProbesAreDistinct(req', p, peers, buckets, now);
      assert r.probed == [b] + rest.probed;
      forall j | 1 <= j < |r.probed|
        ensures r.probed[j] != b && Reachable(r.probed[j], point, t)
      {
        assert r.probed[j] == rest.probed[j - 1];
        LaterProbe(r.probed[j], point, t, p);
      }
    }
  }

  lemma LaterProbe(c: nat, point: uint32, t: nat, p: uint32)
    requires t < 20 && p == (point + 89 * t) % 0x1_0000_0000 && Reachable(c, p, t + 1)
    ensures c != p % BUCKETS && Reachable(c, point, t)
  {
    RemainingBound(t + 1);
    var d: nat :| 89 * (t + 1) <= d <= 89 * Remaining(t + 1) && c == Ahead(p, d);
    NearbyDiffer(p, d);
    WrapKeepsBucket(point + 89 * t);
    SameBucketAhead(point + 89 * t, p, d);
    assert c == Ahead(point, 89 * t + d);
  }

  lemma NearbyDiffer(x: int, d: int)
    requires 0 < d < BUCKETS
    ensures (x + d) % BUCKETS != x % BUCKETS
  {
  }

  lemma SameBucketAhead(x: int, y: int, d: int)
    requires x % BUCKETS == y % BUCKETS
    ensures (x + d) % BUCKETS == (y + d) % BUCKETS
  {
  }

  function ChosenServers(choice: Choice): set<nat> {
    match choice
    case Chosen(node) => {node.server}
    case Fallback => {}
  }

  /** The servers given up on during a call. */
  function NewlyRejected(req: Request, choice: Choice, after: Request): set<nat> {
    after.tried - req.tried - ChosenServers(choice)
  }

  /** Up, and within its fail budget or past its fail timeout. */
  predicate MayBeUsed(peer: Peer, now: int) {
    !peer.down && (peer.maxFails == 0 || peer.fails < peer.maxFails || peer.failTimeout < now - peer.checked)
  }

  /** A peer that was over its budget is noted as checked now. */
  function Noted(peer: Peer, now: int): Peer {
    if peer.maxFails != 0 && peer.maxFails <= peer.fails
      then Peer(peer.down, peer.maxFails, peer.fails, now, peer.failTimeout)
    else peer
  }

  lemma SameTest(peer: Peer, now: int)
    ensures peer.Eligible(now) == MayBeUsed(peer, now)
    ensures peer.Eligible(now) ==> peer.Picked(now) == Noted(peer, now)
  {
  }

  /** The promises of one call: what `choice`, `after` and `peers'` have to do with its inputs. */
  ghost predicate CallKeeps(req: Request, peers: seq<Peer>, buckets: seq<Node>, now: int,
                            choice: Choice, after: Request, peers': seq<Peer>)
    requires BucketsOver(buckets, |peers|)
  {
    && req.tried <= after.tried
    && req.tries <= after.tries
    && req.pcTries - after.pcTries == |NewlyRejected(req, choice, after)|
    && match choice
       case Chosen(node) =>
         && node in buckets
         && node.server !in req.tried && node.server in after.tried
         && MayBeUsed(peers[node.peer], now)
         && peers' == peers[node.peer := Noted(peers[node.peer], now)]
         && after.current == node.server
       case Fallback => peers' == peers && after.tries >= 20
  }

  /** A server is given up on only when it was seen at a peer that was down, or over its fail budget
      and within its fail timeout. */
  ghost predicate RejectedForCause(req: Request, peers: seq<Peer>, buckets: seq<Node>, now: int,
                                   choice: Choice, after: Request)
    requires BucketsOver(buckets, |peers|)
  {
    forall s :: s in NewlyRejected(req, choice, after) ==> SeenIneligible(s, peers, buckets, now)
  }

  ghost predicate SeenIneligible(s: nat, peers: seq<Peer>, buckets: seq<Node>, now: int)
    requires BucketsOver(buckets, |peers|)
  {
    exists node :: node in buckets && node.server == s && !MayBeUsed(peers[node.peer], now)
  }

  /** A call ends within 20 - tries probes, and after one when 20 tries are already spent. */
  lemma {:induction false} ProbesAreBounded(req: Request, point: uint32, peers: seq<Peer>, buckets: seq<Node>, now: int)
    requires BucketsOver(buckets, |peers|) && req.tries <= 20
    ensures 1 <= |Probe(req, point, peers, buckets, now).probed| <= (if req.tries < 20 then 20 - req.tries else 1)
    decreases 21 - req.tries
  {
    var p: uint32 := (point + 89 * req.tries) % 0x1_0000_0000;
    if req.tries < 19 {
      ProbesAreBounded(Rejected(req, buckets[p % BUCKETS]), p, peers, buckets, now);
    }
  }

  lemma {:induction false} ProbeKeeps(req: Request, point: uint32, peers: seq<Peer>, buckets: seq<Node>, now: int)
    requires BucketsOver(buckets, |peers|) && req.tries <= 20
    ensures
      var r := Probe(req, point, peers, buckets, now);
      && CallKeeps(req, peers, buckets, now, r.choice, r.req, r.peers)
      && RejectedForCause(req, peers, buckets, now, r.choice, r.req)
    decreases 21 - req.tries
  {
    var p, b, node := OneProbeAt(req, point, peers, buckets, now);
    var r := Probe(req, point, peers, buckets, now);
    if node.server !in req.tried && peers[node.peer].Eligible(now) {
      ChosenKeeps(req, p, node, peers, buckets, now, r);
    } else {
      SameTest(peers[node.peer], now);
      var req' := Rejected(req, node);
      if req'.tries < 20 {
        ProbeKeeps(req', p, peers, buckets, now);
      } else {
        FallbackKeeps(req', peers, buckets, now);
      }
      AfterRejection(req, node, peers, buckets, now, r.choice, r.req, r.peers);
    }
  }

  lemma ChosenKeeps(req: Request, p: uint32, node: Node, peers: seq<Peer>, buckets: seq<Node>, now: int, r: Selection)
    requires BucketsOver(buckets, |peers|) && node in buckets
    requires node.server !in req.tried && peers[node.peer].Eligible(now)
    requires r.choice == Chosen(node) && r.peers == peers[node.peer := peers[node.peer].Picked(now)]
    requires r.req == req.(tried := req.tried + {node.server}, point := p, current := node.server)
    ensures CallKeeps(req, peers, buckets, now, r.choice, r.req, r.peers)
    ensures RejectedForCause(req, peers, buckets, now, r.choice, r.req)
  {
    SameTest(peers[node.peer], now);
    assert NewlyRejected(req, r.choice, r.req) == {};
  }

  lemma FallbackKeeps(req: Request, peers: seq<Peer>, buckets: seq<Node>, now: int)
    requires BucketsOver(buckets, |peers|) && req.tries >= 20
    ensures CallKeeps(req, peers, buckets, now, Fallback, req, peers)
    ensures RejectedForCause(req, peers, buckets, now, Fallback, req)
  {
    assert NewlyRejected(req, Fallback, req) == {};
  }

  lemma AfterRejection(req: Request, node: Node, peers: seq<Peer>, buckets: seq<Node>, now: int,
                       choice: Choice, after: Request, peers': seq<Peer>)
    requires BucketsOver(buckets, |peers|) && node in buckets
    requires node.server in req.tried || !MayBeUsed(peers[node.peer], now)
    requires CallKeeps(Rejected(req, node), peers, buckets, now, choice, after, peers')
    requires RejectedForCause(Rejected(req, node), peers, buckets, now, choice, after)
    ensures CallKeeps(req, peers, buckets, now, choice, after, peers')
    ensures RejectedForCause(req, peers, buckets, now, choice, after)
  {
    assert node.server !in ChosenServers(choice);
    CountNewlyTried(req.tried, after.tried, ChosenServers(choice), node.server);
    forall s | s in NewlyRejected(req, choice, after)
      ensures SeenIneligible(s, peers, buckets, now)
    {
      assert s != node.server ==> s in NewlyRejected(Rejected(req, node), choice, after);
    }
  }

  lemma CountNewlyTried(before: set<nat>, after: set<nat>, except: set<nat>, s: nat)
    requires s in after && s !in except
    ensures |after - before - except|
         == |after - (before + {s}) - except| + if s in before then 0 else 1
  {
    if s in before {
      assert before + {s} == before;
    } else {
      assert after - before - except == (after - (before + {s}) - except) + {s};
    }
  }

  // -------------------------------------------------------------------------
  // The calls of one request. Between calls the peers and the clock change freely, and the
  // caller may lower its own count of tries.

  datatype Call = Call(peers: seq<Peer>, now: int, pcTries: int)

  /** The nodes chosen, call after call, up to the first call that falls back to round robin. */
  function Run(req: Request, single: bool, buckets: seq<Node>, calls: seq<Call>): (chosen: seq<Node>)
    requires forall c :: c in calls ==> BucketsOver(buckets, |c.peers|)
    ensures |chosen| <= |calls|
    decreases |calls|
  {
    if calls == [] then []
    else
      var r := GetPeer(req.(pcTries := calls[0].pcTries), calls[0].peers, single, buckets, calls[0].now);
      if r.choice.Fallback? then []
      else [r.choice.node] + Run(r.req, single, buckets, calls[1..])
  }

  ghost predicate DistinctServers(nodes: seq<Node>) {
    forall i, j :: 0 <= i < j < |nodes| ==> nodes[i].server != nodes[j].server
  }

  /** Each choice came from a bucket, was untried, and was eligible at its call. */
  ghost predicate GoodChoices(nodes: seq<Node>, tried: set<nat>, buckets: seq<Node>, calls: seq<Call>) {
    && |nodes| <= |calls|
    && forall i :: 0 <= i < |nodes| ==>
         && nodes[i] in buckets && nodes[i].server !in tried
         && nodes[i].peer < |calls[i].peers| && MayBeUsed(calls[i].peers[nodes[i].peer], calls[i].now)
  }

  /** No server is chosen twice for a request, nor one that was already tried, and every peer was
      eligible when it was chosen. */
  lemma {:induction false} RunsChooseDistinctServers(req: Request, single: bool, buckets: seq<Node>, calls: seq<Call>)
    requires forall c :: c in calls ==> BucketsOver(buckets, |c.peers|)
    ensures DistinctServers(Run(req, single, buckets, calls))
    ensures GoodChoices(Run(req, single, buckets, calls), req.tried, buckets, calls)
    decreases |calls|
  {
    if Run(req, single, buckets, calls) != [] {
      var here := req.(pcTries := calls[0].pcTries);
      var r := GetPeer(here, calls[0].peers, single, buckets, calls[0].now);
      ProbeKeeps(here, here.point, calls[0].peers, buckets, calls[0].now);
      var rest := Run(r.req, single, buckets, calls[1..]);
      RunsChooseDistinctServers(r.req, single, buckets, calls[1..]);
      assert Run(req, single, buckets, calls) == [r.choice.node] + rest;
      ConsChoice(r.choice.node, rest, req.tried, r.req.tried, buckets, calls);
    }
  }

  lemma ConsChoice(node: Node, rest: seq<Node>, tried: set<nat>, tried': set<nat>, buckets: seq<Node>, calls: seq<Call>)
    requires calls != [] && DistinctServers(rest) && GoodChoices(rest, tried', buckets, calls[1..])
    requires tried <= tried' && node.server in tried' && GoodChoices([node], tried, buckets, calls)
    ensures DistinctServers([node] + rest) && GoodChoices([node] + rest, tried, buckets, calls)
  {
    var nodes := [node] + rest;
    assert nodes[0] == [node][0];
    forall i | 1 <= i < |nodes|
      ensures nodes[i] == rest[i - 1] && calls[i] == calls[1..][i - 1]
    {
    }
  }

  /** The first probe of a fresh request is the first node clockwise from the bucket of its point, and
      the request gets it if its server is untried and its peer eligible. */
  lemma FreshRequestGetsNearest(req: Request, peers: seq<Peer>, buckets: seq<Node>, now: int,
                                ring: seq<Node>, bucket: seq<nat>, j: nat)
    requires BucketsOver(buckets, |peers|) && req.tries == 0
    requires RingSearch.Sorted(ring) && |bucket| == BUCKETS && j < |ring|
    requires forall b :: 0 <= b < BUCKETS ==>
      RingSearch.IsSuccessor(ring, b * STEP, bucket[b]) && buckets[b] == ring[bucket[b]]
    ensures
      var r, key := GetPeer(req, peers, false, buckets, now), req.point % BUCKETS * STEP;
      && r.probed != [] && r.probed[0] == req.point % BUCKETS
      && var first := buckets[r.probed[0]];
      && RingSearch.IsSuccessor(ring, key, bucket[r.probed[0]]) && first == ring[bucket[r.probed[0]]]
      && RingSearch.Ahead(key, first.point) <= RingSearch.Ahead(key, ring[j].point)
      && (first.server !in req.tried && MayBeUsed(peers[first.peer], now) ==>
            r.choice == Chosen(first) && |r.probed| == 1)
  {
    var b := req.point % BUCKETS;
    RingSearch.SuccessorIsNearest(ring, b * STEP, bucket[b], j);
  }

  // -------------------------------------------------------------------------
  // All that a call does, said without the probing loop.

  /** tries + (tries + 1) + ... + (tries + i) */
  function SumTries(tries: nat, i: nat): nat {
    if i == 0 then tries else SumTries(tries, i - 1) + tries + i
  }

  /** The bucket of the probe after `i` others. */
  function BucketAt(point: uint32, tries: nat, i: nat): (b: nat)
    ensures b < BUCKETS
  {
    (point + 89 * SumTries(tries, i)) % BUCKETS
  }

  /** Its point. */
  function PointAt(point: uint32, tries: nat, i: nat): uint32 { (point + 89 * SumTries(tries, i)) % 0x1_0000_0000 }

  /** The servers of the first `n` probes. */
  function ServersBefore(buckets: seq<Node>, point: uint32, tries: nat, n: nat): set<nat>
    requires |buckets| == BUCKETS
  {
    if n == 0 then {}
    else ServersBefore(buckets, point, tries, n - 1) + {buckets[BucketAt(point, tries, n - 1)].server}
  }

  /** The probe after `i` others finds an untried server's peer that may be used. */
  predicate UsableAt(tried: set<nat>, point: uint32, tries: nat, peers: seq<Peer>, buckets: seq<Node>, now: int, i: nat)
    requires BucketsOver(buckets, |peers|)
  {
    var node := buckets[BucketAt(point, tries, i)];
    node.server !in tried + ServersBefore(buckets, point, tries, i) && MayBeUsed(peers[node.peer], now)
  }

  /** What `r` is for a call that starts at `point`: the last of its probes is the first usable one, or there
      is none before the tries are used up. */
  ghost predicate CallIs(req: Request, point: uint32, peers: seq<Peer>, buckets: seq<Node>, now: int, r: Selection)
    requires BucketsOver(buckets, |peers|)
  {
    && |r.probed| >= 1
    && (forall i :: 0 <= i < |r.probed| ==> r.probed[i] == BucketAt(point, req.tries, i))
    && (forall i :: 0 <= i < |r.probed| - 1 ==> !UsableAt(req.tried, point, req.tries, peers, buckets, now, i))
    && EndsWith(req, point, peers, buckets, now, r, |r.probed| - 1)
  }

  /** The probe after `last` others decides. */
  ghost predicate EndsWith(req: Request, point: uint32, peers: seq<Peer>, buckets: seq<Node>, now: int, r: Selection,
                           last: nat)
    requires BucketsOver(buckets, |peers|)
  {
    var node := buckets[BucketAt(point, req.tries, last)];
    && r.req.tried == req.tried + ServersBefore(buckets, point, req.tries, last + 1)
    && if UsableAt(req.tried, point, req.tries, peers, buckets, now, last) then
         && r.choice == Chosen(node) && r.req.current == node.server
         && r.req.tries == req.tries + last && r.req.point == PointAt(point, req.tries, last)
         && r.peers == peers[node.peer := Noted(peers[node.peer], now)]
       else
         && r.choice == Fallback && r.req.current == req.current && r.peers == peers
         && r.req.tries == req.tries + last + 1 == (if req.tries < 20 then 20 else req.tries + 1)
         && r.req.point == req.point
  }

  lemma {:induction false} CallMeans(req: Request, point: uint32, peers: seq<Peer>, buckets: seq<Node>, now: int)
    requires BucketsOver(buckets, |peers|) && req.tries <= 20
    ensures CallIs(req, point, peers, buckets, now, Probe(req, point, peers, buckets, now))
    decreases 21 - req.tries
  {
    var p, b, node := OneProbeAt(req, point, peers, buckets, now);
    if req.tries < 19 && (node.server in req.tried || !peers[node.peer].Eligible(now)) {
      var req' := Rejected(req, node);
      CallMeans(req', p, peers, buckets, now);
      UsableAtFirst(req, point, peers, buckets, now, node);
      OneProbeEarlier(req, point, p, peers, buckets, now, Probe(req', p, peers, buckets, now));
    } else {
      SingleProbe(req, point, peers, buckets, now, p, b, node, Probe(req, point, peers, buckets, now));
    }
  }

  /** One turn of the probing loop, with its bucket. */
  lemma OneProbeAt(req: Request, point: uint32, peers: seq<Peer>, buckets: seq<Node>, now: int)
    returns (p: uint32, b: nat, node: Node)
    requires BucketsOver(buckets, |peers|) && req.tries <= 20
    ensures p == PointAt(point, req.tries, 0) && b == p % BUCKETS == BucketAt(point, req.tries, 0) && node == buckets[b]
    ensures
      var r := Probe(req, point, peers, buckets, now);
      if node.server !in req.tried && peers[node.peer].Eligible(now) then
        r == Selection(Chosen(node),
                       req.(tried := req.tried + {node.server}, point := p, current := node.server),
                       peers[node.peer := peers[node.peer].Picked(now)], [b])
      else if req.tries >= 19 then r == Selection(Fallback, Rejected(req, node), peers, [b])
      else
        var rest := Probe(Rejected(req, node), p, peers, buckets, now);
        r == rest.(probed := [b] + rest.probed)
  {
    p := PointAt(point, req.tries, 0);
    FirstPoint(point, p, req.tries);
    FirstBucket(point, p, req.tries);
    b := p % BUCKETS;
    node := buckets[b];
  }

  lemma UsableAtFirst(req: Request, point: uint32, peers: seq<Peer>, buckets: seq<Node>, now: int, node: Node)
    requires BucketsOver(buckets, |peers|) && node == buckets[BucketAt(point, req.tries, 0)]
    ensures UsableAt(req.tried, point, req.tries, peers, buckets, now, 0)
       <==> node.server !in req.tried && peers[node.peer].Eligible(now)
  {
    FirstServer(buckets, point, req.tries);
    SameTest(peers[node.peer], now);
  }

  lemma SingleProbe(req: Request, point: uint32, peers: seq<Peer>, buckets: seq<Node>, now: int, p: uint32, b: nat,
                    node: Node, r: Selection)
    requires BucketsOver(buckets, |peers|) && p == PointAt(point, req.tries, 0)
    requires b == BucketAt(point, req.tries, 0) && node == buckets[b]
    ensures
      (if node.server !in req.tried && peers[node.peer].Eligible(now) then
         r == Selection(Chosen(node),
                        req.(tried := req.tried + {node.server}, point := p, current := node.server),
                        peers[node.peer := peers[node.peer].Picked(now)], [b])
       else req.tries >= 19 && r == Selection(Fallback, Rejected(req, node), peers, [b]))
      ==> CallIs(req, point, peers, buckets, now, r)
  {
    FirstServer(buckets, point, req.tries);
    UsableAtFirst(req, point, peers, buckets, now, node);
    SameTest(peers[node.peer], now);
  }

  lemma FirstServer(buckets: seq<Node>, point: uint32, t: nat)
    requires |buckets| == BUCKETS
    ensures ServersBefore(buckets, point, t, 0) == {}
    ensures ServersBefore(buckets, point, t, 1) == {buckets[BucketAt(point, t, 0)].server}
  {
    assert ServersBefore(buckets, point, t, 1) == {} + {buckets[BucketAt(point, t, 0)].server};
  }

  lemma OneProbeEarlier(req: Request, point: uint32, p: uint32, peers: seq<Peer>, buckets: seq<Node>, now: int,
                        rest: Selection)
    requires BucketsOver(buckets, |peers|) && req.tries < 19 && p == PointAt(point, req.tries, 0)
    requires !UsableAt(req.tried, point, req.tries, peers, buckets, now, 0)
    requires CallIs(Rejected(req, buckets[p % BUCKETS]), p, peers, buckets, now, rest)
    ensures CallIs(req, point, peers, buckets, now, rest.(probed := [p % BUCKETS] + rest.probed))
  {
    FirstBucket(point, p, req.tries);
    ProbesOneLater(req, point, p, rest.probed);
    NoneUsableLater(req, point, p, peers, buckets, now, |rest.probed| - 1,
                    Rejected(req, buckets[p % BUCKETS]));
    EndsOneLater(req, point, p, peers, buckets, now, rest, |rest.probed| - 1);
    EndsAlike(req, point, peers, buckets, now, rest, rest.(probed := [p % BUCKETS] + rest.probed), |rest.probed|);
  }

  lemma ProbesOneLater(req: Request, point: uint32, p: uint32, rest: seq<nat>)
    requires p == PointAt(point, req.tries, 0)
    requires forall i :: 0 <= i < |rest| ==> rest[i] == BucketAt(p, req.tries + 1, i)
    ensures
      var probed := [p % BUCKETS] + rest;
      forall i :: 0 <= i < |probed| ==> probed[i] == BucketAt(point, req.tries, i)
  {
    FirstBucket(point, p, req.tries);
    var probed := [p % BUCKETS] + rest;
    forall i | 0 < i < |probed|
      ensures probed[i] == BucketAt(point, req.tries, i)
    {
      LaterBucket(point, p, req.tries, i - 1);
    }
  }

  lemma NoneUsableLater(req: Request, point: uint32, p: uint32, peers: seq<Peer>, buckets: seq<Node>, now: int, n: nat,
                        req': Request)
    requires BucketsOver(buckets, |peers|) && p == PointAt(point, req.tries, 0)
    requires req' == Rejected(req, buckets[p % BUCKETS])
    requires !UsableAt(req.tried, point, req.tries, peers, buckets, now, 0)
    requires forall i :: 0 <= i < n ==> !UsableAt(req'.tried, p, req'.tries, peers, buckets, now, i)
    ensures forall i :: 0 <= i < n + 1 ==> !UsableAt(req.tried, point, req.tries, peers, buckets, now, i)
  {
    forall i | 0 < i < n + 1
      ensures !UsableAt(req.tried, point, req.tries, peers, buckets, now, i)
    {
      LaterUsable(req.tried, point, p, req.tries, peers, buckets, now, i - 1);
      assert !UsableAt(req'.tried, p, req'.tries, peers, buckets, now, i - 1);
    }
  }

  /** The record of probes does not matter to it. */
  lemma EndsAlike(req: Request, point: uint32, peers: seq<Peer>, buckets: seq<Node>, now: int, r: Selection,
                  r': Selection, last: nat)
    requires BucketsOver(buckets, |peers|) && EndsWith(req, point, peers, buckets, now, r, last)
    requires r' == r.(probed := r'.probed)
    ensures EndsWith(req, point, peers, buckets, now, r', last)
  {
  }

  lemma EndsOneLater(req: Request, point: uint32, p: uint32, peers: seq<Peer>, buckets: seq<Node>, now: int,
                     r: Selection, last: nat)
    requires BucketsOver(buckets, |peers|) && req.tries < 19 && p == PointAt(point, req.tries, 0)
    ensures EndsWith(Rejected(req, buckets[p % BUCKETS]), p, peers, buckets, now, r, last)
        ==> EndsWith(req, point, peers, buckets, now, r, last + 1)
  {
    LaterBucket(point, p, req.tries, last);
    LaterUsable(req.tried, point, p, req.tries, peers, buckets, now, last);
    LaterServers(buckets, point, p, req.tries, last + 1);
    LaterPoint(point, p, req.tries, last);
    var s := buckets[p % BUCKETS].server;
    assert req.tried + {s} + ServersBefore(buckets, p, req.tries + 1, last + 1)
        == req.tried + ServersBefore(buckets, point, req.tries, last + 2);
  }

  lemma LaterUsable(tried: set<nat>, point: uint32, p: uint32, t: nat, peers: seq<Peer>, buckets: seq<Node>, now: int,
                    i: nat)
    requires BucketsOver(buckets, |peers|) && p == PointAt(point, t, 0)
    ensures UsableAt(tried + {buckets[p % BUCKETS].server}, p, t + 1, peers, buckets, now, i)
       <==> UsableAt(tried, point, t, peers, buckets, now, i + 1)
  {
    LaterBucket(point, p, t, i);
    LaterServers(buckets, point, p, t, i);
    assert tried + {buckets[p % BUCKETS].server} + ServersBefore(buckets, p, t + 1, i)
        == tried + ServersBefore(buckets, point, t, i + 1);
  }

  lemma {:induction false} LaterSum(t: nat, i: nat)
    ensures SumTries(t, i + 1) == t + SumTries(t + 1, i)
  {
    if i > 0 {
      LaterSum(t, i - 1);
    }
  }

  lemma FirstBucket(point: uint32, p: uint32, t: nat)
    requires p == PointAt(point, t, 0)
    ensures p % BUCKETS == (point + 89 * t) % BUCKETS == BucketAt(point, t, 0)
  {
    FirstPoint(point, p, t);
    WrappedBucket(point + 89 * t, p);
    BucketZero(point, t);
  }

  lemma FirstPoint(point: uint32, p: uint32, t: nat)
    requires p == PointAt(point, t, 0)
    ensures p == (point + 89 * t) % 0x1_0000_0000
  {
    NoSum(t);
  }

  lemma BucketZero(point: uint32, t: nat)
    ensures BucketAt(point, t, 0) == (point + 89 * t) % BUCKETS
  {
    NoSum(t);
  }

  lemma WrappedBucket(x: int, p: uint32)
    requires p == x % 0x1_0000_0000
    ensures p % BUCKETS == x % BUCKETS
  {
    WrapKeepsBucket(x);
  }

  lemma NoSum(t: nat)
    ensures SumTries(t, 0) == t
  {
  }

  lemma LaterBucket(point: uint32, p: uint32, t: nat, i: nat)
    requires p == PointAt(point, t, 0)
    ensures BucketAt(p, t + 1, i) == BucketAt(point, t, i + 1)
  {
    LaterSum(t, i);
    FirstBucket(point, p, t);
    ShiftBucket(p, point + 89 * t, 89 * SumTries(t + 1, i), point + 89 * SumTries(t, i + 1));
  }

  lemma ShiftBucket(x: int, y: int, d: int, z: int)
    requires x % BUCKETS == y % BUCKETS && z == y + d
    ensures (x + d) % BUCKETS == z % BUCKETS
  {
    SameBucketAhead(x, y, d);
  }

  lemma LaterPoint(point: uint32, p: uint32, t: nat, i: nat)
    requires p == PointAt(point, t, 0)
    ensures PointAt(p, t + 1, i) == PointAt(point, t, i + 1)
  {
    LaterSum(t, i);
    AddAfterWrap(point + 89 * t, 89 * SumTries(t + 1, i));
  }

  lemma AddAfterWrap(x: int, d: int)
    ensures (x % 0x1_0000_0000 + d) % 0x1_0000_0000 == (x + d) % 0x1_0000_0000
  {
    var y := x % 0x1_0000_0000 + d;
    var q := y / 0x1_0000_0000 + x / 0x1_0000_0000;
    DivUnique(x + d, 0x1_0000_0000, q, y % 0x1_0000_0000);
  }

  lemma {:induction false} LaterServers(buckets: seq<Node>, point: uint32, p: uint32, t: nat, n: nat)
    requires |buckets| == BUCKETS && p == PointAt(point, t, 0)
    ensures ServersBefore(buckets, point, t, n + 1)
         == {buckets[p % BUCKETS].server} + ServersBefore(buckets, p, t + 1, n)
  {
    FirstBucket(point, p, t);
    OneMoreServer(buckets, point, t, n);
    if n > 0 {
      LaterServers(buckets, point, p, t, n - 1);
      LaterBucket(point, p, t, n - 1);
      OneMoreServer(buckets, p, t + 1, n - 1);
    }
  }

  lemma OneMoreServer(buckets: seq<Node>, point: uint32, t: nat, n: nat)
    requires |buckets| == BUCKETS
    ensures ServersBefore(buckets, point, t, n + 1)
         == ServersBefore(buckets, point, t, n) + {buckets[BucketAt(point, t, n)].server}
  {
  }

  /** Buckets are probed if and only if there is more than one peer and the request has not used up more
      than 20 tries; otherwise round robin takes over and nothing else changes. */
  lemma ProbesIff(req: Request, peers: seq<Peer>, single: bool, buckets: seq<Node>, now: int)
    requires BucketsOver(buckets, |peers|)
    ensures
      var r := GetPeer(req, peers, single, buckets, now);
      if req.tries <= 20 && !single then CallIs(req, req.point, peers, buckets, now, r)
      else r == Selection(Fallback, req, peers, [])
  {
    if req.tries <= 20 {
      CallMeans(req, req.point, peers, buckets, now);
    }
  }

  /** The next call of a request starts from the bucket that the last one chose. */
  lemma NextCallStarts(req: Request, peers: seq<Peer>, single: bool, buckets: seq<Node>, now: int, next: Call)
    requires BucketsOver(buckets, |peers|) && BucketsOver(buckets, |next.peers|)
    ensures
      var r := GetPeer(req, peers, single, buckets, now);
      r.choice.Chosen? ==>
        var last := r.probed[|r.probed| - 1];
        var r' := GetPeer(r.req.(pcTries := next.pcTries), next.peers, single, buckets, next.now);
        && r.req.point % BUCKETS == last && r.choice.node == buckets[last]
        && r.req.tries == req.tries + |r.probed| - 1
        && (r.req.tries <= 20 ==> r'.probed != [] && r'.probed[0] == (last + 89 * r.req.tries) % BUCKETS)
  {
    var r := GetPeer(req, peers, single, buckets, now);
    ProbesIff(req, peers, single, buckets, now);
    if r.choice.Chosen? {
      WrapKeepsBucket(req.point + 89 * SumTries(req.tries, |r.probed| - 1));
      ProbesIff(r.req.(pcTries := next.pcTries), next.peers, single, buckets, next.now);
      SameBucketAhead(r.req.point, r.req.point % BUCKETS, 89 * r.req.tries);
    }
  }
}
