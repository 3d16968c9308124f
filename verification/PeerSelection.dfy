/** Choosing a peer for a request (ngx_http_upstream_consistent_hash_module.c, request time). */
module PeerSelection {
  import opened Basics
  import opened HashRing

  const WORD := 64

  datatype Peer = Peer(down: bool, maxFails: nat, fails: nat, checked: int, failTimeout: int) {
    predicate WithinBudget() { maxFails == 0 || fails < maxFails }

    predicate Eligible(now: int) { !down && (WithinBudget() || now - checked > failTimeout) }

    /** A peer past its fail timeout is chosen again, and the time noted. */
    function Picked(now: int): Peer { if WithinBudget() then this else this.(checked := now) }
  }

  /** The state of one request; `tried` holds server numbers. */
  datatype Request = Request(point: uint32, tries: nat, tried: set<nat>, pcTries: int, current: nat)

  datatype Choice = Chosen(node: Node) | Fallback

  /** The outcome of one call: the choice, the new request and peers, and the buckets probed. */
  datatype Selection = Selection(choice: Choice, req: Request, peers: seq<Peer>, probed: seq<nat>)

  predicate BucketsOver(buckets: seq<Node>, peers: nat) {
    |buckets| == BUCKETS && forall b :: 0 <= b < BUCKETS ==> buckets[b].peer < peers
  }

  /** The request after a node that could not be used. */
  function Rejected(req: Request, node: Node): Request {
    req.(tried := req.tried + {node.server}, tries := req.tries + 1,
         pcTries := if node.server in req.tried then req.pcTries else req.pcTries - 1)
  }

  /** Equal in everything but the record of probes. */
  predicate SameOutcome(r: Selection, s: Selection) {
    r.choice == s.choice && r.req == s.req && r.peers == s.peers
  }

  /** Probing from `point` on. */
  function Probe(req: Request, point: uint32, peers: seq<Peer>, buckets: seq<Node>, now: int): (r: Selection)
    requires BucketsOver(buckets, |peers|) && req.tries <= 20
    decreases 21 - req.tries
  {
    var p := (point + 89 * req.tries) % 0x1_0000_0000;
    var b := p % BUCKETS;
    var node := buckets[b];
    if node.server !in req.tried && peers[node.peer].Eligible(now) then
      Selection(Chosen(node),
                req.(tried := req.tried + {node.server}, point := p, current := node.server),
                peers[node.peer := peers[node.peer].Picked(now)],
                [b])
    else
      var req' := Rejected(req, node);
      if req'.tries >= 20 then Selection(Fallback, req', peers, [b])
      else
        var rest := Probe(req', p, peers, buckets, now);
        rest.(probed := [b] + rest.probed)
  }

  /** One call: after more than 20 tries, or with a single peer, round robin takes over at once. */
  function GetPeer(req: Request, peers: seq<Peer>, single: bool, buckets: seq<Node>, now: int): (r: Selection)
    requires BucketsOver(buckets, |peers|)
  {
    if req.tries > 20 || single then Selection(Fallback, req, peers, [])
    else Probe(req, req.point, peers, buckets, now)
  }

  // -------------------------------------------------------------------------
  // The same on the request's own fields, with the bitmap of tried servers.

  /** The server numbers whose bit is set; word n holds the bits of servers 64 n, ..., 64 n + 63. */
  ghost function TriedIn(words: seq<set<nat>>): set<nat> {
    set p: nat | p < WORD * |words| && p % WORD in words[p / WORD]
  }

  lemma MarkTried(words: seq<set<nat>>, p: nat)
    requires p < WORD * |words|
    ensures p / WORD < |words|
    ensures TriedIn(words[p / WORD := words[p / WORD] + {p % WORD}]) == TriedIn(words) + {p}
    ensures p % WORD in words[p / WORD] <==> p in TriedIn(words)
  {
    var n, m := p / WORD, p % WORD;
    var words' := words[n := words[n] + {m}];
    forall q: nat
      ensures q in TriedIn(words') <==> q in TriedIn(words) || q == p
    {
      assert q / WORD == n && q % WORD == m ==> q == p;
    }
  }

  class PeerData {
    const buckets: seq<Node>
    const single: bool
    var peers: array<Peer>
    var point: uint32
    var tries: nat
    var tried: seq<set<nat>>
    var current: nat
    var pcTries: int

    ghost predicate Valid()
      reads this
    {
      && BucketsOver(buckets, peers.Length)
      && forall b :: 0 <= b < BUCKETS ==> buckets[b].server < WORD * |tried|
    }

    ghost function State(): Request
      reads this
    {
      Request(point, tries, TriedIn(tried), pcTries, current)
    }

    constructor (buckets: seq<Node>, single: bool, peers: array<Peer>, point: uint32, words: nat, pcTries: int)
      requires BucketsOver(buckets, peers.Length)
      requires forall b :: 0 <= b < BUCKETS ==> buckets[b].server < WORD * words
      ensures Valid() && this.peers == peers && this.buckets == buckets && this.single == single
      ensures State() == Request(point, 0, {}, pcTries, 0)
    {
      this.buckets, this.single, this.peers := buckets, single, peers;
      this.point, this.tries, this.current, this.pcTries := point, 0, 0, pcTries;
      this.tried := seq(words, _ => {});
      new;
      assert TriedIn(tried) == {};
    }

    /** Take the node's peer if its server is untried and the peer eligible, otherwise mark the
        server as tried. */
    method TryNode(node: Node, now: int) returns (picked: bool)
      requires Valid() && node.peer < peers.Length && node.server < WORD * |tried|
      modifies this`tried, this`current, this`pcTries, peers
      ensures Valid()
      ensures picked <==> node.server !in TriedIn(old(tried)) && old(peers[node.peer]).Eligible(now)
      ensures TriedIn(tried) == TriedIn(old(tried)) + {node.server}
      ensures peers[..] == if picked then old(peers[..])[node.peer := old(peers[node.peer]).Picked(now)]
                           else old(peers[..])
      ensures current == if picked then node.server else old(current)
      ensures pcTries == if picked || node.server in TriedIn(old(tried)) then old(pcTries) else old(pcTries) - 1
    {
      var n, m := node.server / WORD, node.server % WORD;
      MarkTried(tried, node.server);
      if m in tried[n] {
        assert TriedIn(tried) == TriedIn(tried) + {node.server};
        return false;
      }
      var peer := peers[node.peer];
      picked := false;
      if !peer.down {
        if peer.WithinBudget() {
          picked := true;
        } else if now - peer.checked > peer.failTimeout {
          peers[node.peer] := peer.(checked := now);
          picked := true;
        }
      }
      tried := tried[n := tried[n] + {m}];
      if picked {
        current := node.server;
      } else {
        pcTries := pcTries - 1;
      }
    }

    method GetConsistentHashPeer(now: int) returns (choice: Choice)
      requires Valid()
      modifies this`point, this`tries, this`tried, this`current, this`pcTries, peers
      ensures Valid()
      ensures
        var r := GetPeer(old(State()), old(peers[..]), single, buckets, now);
        SameOutcome(r, Selection(choice, State(), peers[..], []))
    {
      if tries > 20 || single {
        return Fallback;
      }
      ghost var goal := Probe(State(), point, peers[..], buckets, now);
      var pt: uint32 := point;
      while true
        invariant Valid() && tries <= 20
        invariant point == old(point) && current == old(current) && peers[..] == old(peers[..])
        invariant SameOutcome(Probe(State(), pt, peers[..], buckets, now), goal)
        decreases 21 - tries
      {
        ghost var req := State();
        pt := (pt + 89 * tries) % 0x1_0000_0000;
        var node := buckets[pt % BUCKETS];
        var picked := TryNode(node, now);
        if picked {
          point := pt;
          return Chosen(node);
        }
        tries := tries + 1;
        assert State() == Rejected(req, node);
        if tries >= 20 {
          return Fallback;
        }
      }
    }
  }
}
