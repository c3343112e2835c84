/** One node's membership table and failure detector (src/gossip/detector.rs). */
module Gossip {
  import opened Options
  import opened HashRings
  import Decimal

  datatype Status = Alive | Suspect | Dead

  datatype PeerState = PeerState(
    nodeId: string, address: string, status: Status, heartbeat: nat, generation: nat, lastSeen: int)

  type Peers = map<string, PeerState>

  datatype WireState = WireState(nodeId: string, address: string, status: int, heartbeat: nat, generation: nat)

  datatype Timeouts = Timeouts(suspectAfter: nat, deadAfter: nat)

  /** What a node knows: its peers and its ring. */
  datatype View = View(peers: Peers, ring: Ring)

  /** The fixed parameters of a node. */
  datatype Params = Params(self: string, hash: Hash, vnodes: nat, timeouts: Timeouts)

  function EncodeStatus(s: Status): int {
    match s case Alive => 0 case Suspect => 1 case Dead => 2
  }

  /** Unknown codes read as Alive. */
  function DecodeStatus(code: int): Status {
    if code == 1 then Suspect else if code == 2 then Dead else Alive
  }

  function Encode(p: PeerState): WireState {
    WireState(p.nodeId, p.address, EncodeStatus(p.status), p.heartbeat, p.generation)
  }

  function PeerFrom(ns: WireState, now: int): PeerState {
    PeerState(ns.nodeId, ns.address, DecodeStatus(ns.status), ns.heartbeat, ns.generation, now)
  }

  // ------------------------------------------------------------------------------
  // (generation, heartbeat) pairs

  datatype Pair = Pair(generation: nat, heartbeat: nat)

  predicate Below(a: Pair, b: Pair) {
    a.generation < b.generation || (a.generation == b.generation && a.heartbeat < b.heartbeat)
  }

  predicate AtMost(a: Pair, b: Pair) {
    a == b || Below(a, b)
  }

  function PairOf(peers: Peers, id: string): Option<Pair> {
    if id in peers then Some(Pair(peers[id].generation, peers[id].heartbeat)) else None
  }

  function WirePair(ns: WireState): Pair {
    Pair(ns.generation, ns.heartbeat)
  }

  // ------------------------------------------------------------------------------
  // Events at one node

  /** An update is taken when it is newer than what is recorded and not about ourselves. */
  predicate Accepts(peers: Peers, self: string, ns: WireState) {
    && ns.nodeId != self
    && (PairOf(peers, ns.nodeId).Some? ==> Below(PairOf(peers, ns.nodeId).value, WirePair(ns)))
  }

  function Absorbed(v: View, c: Params, ns: WireState, now: int): View {
    if !Accepts(v.peers, c.self, ns) then v else
    var peer := PeerFrom(ns, now);
    View(v.peers[ns.nodeId := peer],
         match peer.status
         case Dead => Removed(v.ring, ns.nodeId)
         case Alive => Placed(v.ring, Node(ns.nodeId, ns.address), c.hash, c.vnodes)
         case Suspect => v.ring)
  }

  function Seeded(v: View, c: Params, id: string, address: string, now: int): View {
    View(v.peers[id := PeerState(id, address, Alive, 0, 0, now)],
         Placed(v.ring, Node(id, address), c.hash, c.vnodes))
  }

  function Elapsed(p: PeerState, now: int): nat {
    if now >= p.lastSeen then now - p.lastSeen else 0
  }

  /** One peer under one sweep: at most one transition. */
  function SweptPeer(p: PeerState, t: Timeouts, now: int): PeerState {
    match p.status
    case Alive => if Elapsed(p, now) > t.suspectAfter then p.(status := Suspect) else p
    case Suspect => if Elapsed(p, now) > t.deadAfter then p.(status := Dead) else p
    case Dead => p
  }

  function NewlyDead(peers: Peers, t: Timeouts, now: int): set<string> {
    set k | k in peers && peers[k].status.Suspect? && SweptPeer(peers[k], t, now).status.Dead? :: peers[k].nodeId
  }

  function RemovedAll(ring: Ring, ids: set<string>): Ring {
    map p | p in ring && ring[p].id !in ids :: ring[p]
  }

  function Swept(v: View, c: Params, now: int): View {
    View(map k | k in v.peers :: SweptPeer(v.peers[k], c.timeouts, now),
         RemovedAll(v.ring, NewlyDead(v.peers, c.timeouts, now)))
  }

  /** A whole message; the clock is read anew, `now(i)`, at its i-th record. */
  function AbsorbedAll(v: View, c: Params, states: seq<WireState>, now: nat -> int): View {
    if states == [] then v else
    var i := |states| - 1;
    Absorbed(AbsorbedAll(v, c, states[..i], now), c, states[i], now(i))
  }

  function Fresh(c: Params, address: string): View {
    View(map[], Placed(map[], Node(c.self, address), c.hash, c.vnodes))
  }

  // ------------------------------------------------------------------------------
  // What an event does, field by field

  /** A record sent and received is the same peer, seen now. */
  lemma WireRoundTrip(p: PeerState, now: int)
    ensures PeerFrom(Encode(p), now) == p.(lastSeen := now)
    ensures Encode(p).status == match p.status case Alive => 0 case Suspect => 1 case Dead => 2
  {}

  /** The record is about another node and newer, by generation and then heartbeat, than what is held. */
  predicate IsNews(peers: Peers, self: string, ns: WireState) {
    ns.nodeId != self && (
      || ns.nodeId !in peers
      || ns.generation > peers[ns.nodeId].generation
      || (ns.generation == peers[ns.nodeId].generation && ns.heartbeat > peers[ns.nodeId].heartbeat))
  }

  /** A record that is news is taken over as it stands, any other is ignored, and no other peer changes. */
  lemma RecordTaken(v: View, c: Params, ns: WireState, now: int)
    ensures var v' := Absorbed(v, c, ns, now);
            if IsNews(v.peers, c.self, ns) then
              && v'.peers.Keys == v.peers.Keys + {ns.nodeId}
              && (forall k :: k in v.peers && k != ns.nodeId ==> v'.peers[k] == v.peers[k])
              && v'.peers[ns.nodeId] == PeerState(
                   ns.nodeId, ns.address,
                   if ns.status == 1 then Suspect else if ns.status == 2 then Dead else Alive,
                   ns.heartbeat, ns.generation, now)
            else v' == v
  {}

  /**
   What news does to the ring: code 1, Suspect, nothing; code 2, Dead, exactly that node leaves;
   any other code, Alive, exactly its virtual nodes are placed.
   */
  lemma RecordOnRing(v: View, c: Params, ns: WireState, now: int)
    requires IsNews(v.peers, c.self, ns)
    ensures var ring' := Absorbed(v, c, ns, now).ring;
            && (ns.status == 1 ==> ring' == v.ring)
            && (ns.status == 2 ==>
                  && ns.nodeId !in RingIds(ring')
                  && (forall p :: p in ring' <==> p in v.ring && v.ring[p].id != ns.nodeId)
                  && (forall p :: p in ring' ==> ring'[p] == v.ring[p]))
            && (ns.status != 1 && ns.status != 2 ==>
                  && ring' == Placed(v.ring, Node(ns.nodeId, ns.address), c.hash, c.vnodes)
                  && (c.vnodes >= 1 ==> ns.nodeId in RingIds(ring')))
  {
    var node := Node(ns.nodeId, ns.address);
    PlacedExactly(v.ring, node, c.hash, c.vnodes);
    if c.vnodes >= 1 {
      var p := c.hash(node.id + ":vnode:" + Decimal.Render(0));
      assert p in Placed(v.ring, node, c.hash, c.vnodes);
      assert Placed(v.ring, node, c.hash, c.vnodes)[p] == node;
    }
  }

  /** A sweep changes nothing of a peer but its status, by one step, each past its own timeout. */
  lemma SweepExactly(v: View, c: Params, now: int)
    ensures var v' := Swept(v, c, now);
            && v'.peers.Keys == v.peers.Keys
            && (forall k :: k in v.peers ==>
                  var p := v.peers[k];
                  v'.peers[k] == p.(status :=
                    if p.status.Alive? && now - p.lastSeen > c.timeouts.suspectAfter then Suspect
                    else if p.status.Suspect? && now - p.lastSeen > c.timeouts.deadAfter then Dead
                    else p.status))
            && (forall p :: p in v'.ring <==> p in v.ring && !exists k ::
                  k in v.peers && v.peers[k].nodeId == v.ring[p].id
                  && v.peers[k].status.Suspect? && now - v.peers[k].lastSeen > c.timeouts.deadAfter)
            && (forall p :: p in v'.ring ==> v'.ring[p] == v.ring[p])
  {}

  // ------------------------------------------------------------------------------
  // The service object

  /** `states` lists exactly the peers' records, in some order. */
  ghost predicate Reports(states: seq<WireState>, peers: Peers) {
    && |states| == |peers|
    && forall ns :: ns in states <==> exists k :: k in peers && ns == Encode(peers[k])
  }

  class GossipService {
    const self: string
    const ring: HashRing
    const timeouts: Timeouts
    const generation: nat := 1
    var peers: Peers
    var heartbeat: nat

    ghost function Config(): Params {
      Params(self, ring.hash, ring.vnodes, timeouts)
    }

    ghost function Current(): View
      reads this, ring
    {
      View(peers, ring.ring)
    }

    ghost predicate Valid()
      reads this
    {
      forall k :: k in peers ==> peers[k].nodeId == k
    }

    constructor (self: string, address: string, ring: HashRing, timeouts: Timeouts)
      modifies ring
      ensures Valid() && this.self == self && this.ring == ring && this.timeouts == timeouts
      ensures Current() == View(map[], Placed(old(ring.ring), Node(self, address), ring.hash, ring.vnodes))
      ensures heartbeat == 0
    {
      this.self, this.ring, this.timeouts := self, ring, timeouts;
      peers, heartbeat := map[], 0;
      new;
      ring.AddNode(Node(self, address));
    }

    method AddSeed(id: string, address: string, now: int)
      requires Valid()
      modifies this, ring
      ensures Valid() && heartbeat == old(heartbeat)
      ensures Current() == Seeded(old(Current()), Config(), id, address, now)
      ensures peers == old(peers)[id := PeerState(id, address, Alive, 0, 0, now)]
    {
      peers := peers[id := PeerState(id, address, Alive, 0, 0, now)];
      ring.AddNode(Node(id, address));
    }

    method HandleGossip(states: seq<WireState>, now: nat -> int) returns (reply: seq<WireState>)
      requires Valid()
      modifies this, ring
      ensures Valid() && heartbeat == old(heartbeat)
      ensures Current() == AbsorbedAll(old(Current()), Config(), states, now)
      ensures Reports(reply, peers)
    {
      ghost var before := Current();
      for i := 0 to |states|
        invariant Valid() && heartbeat == old(heartbeat)
        invariant Current() == AbsorbedAll(before, Config(), states[..i], now)
      {
        var ns := states[i];
        assert states[..i + 1][..i] == states[..i];
        var shouldUpdate :=
          if ns.nodeId !in peers then true
          else var existing := peers[ns.nodeId];
            ns.generation > existing.generation
            || (ns.generation == existing.generation && ns.heartbeat > existing.heartbeat);
        if shouldUpdate && ns.nodeId != self {
          var peer := PeerFrom(ns, now(i));
          match peer.status {
            case Dead => ring.RemoveNode(ns.nodeId);
            case Alive => ring.AddNode(Node(ns.nodeId, ns.address));
            case Suspect =>
          }
          peers := peers[ns.nodeId := peer];
        }
      }
      assert states[..|states|] == states;
      reply := BuildNodeStates();
    }

    method CheckFailures(now: int)
      requires Valid()
      modifies this, ring
      ensures Valid() && heartbeat == old(heartbeat)
      ensures Current() == Swept(old(Current()), Config(), now)
    {
      ghost var v := Current();
      var rest := peers.Keys;
      assert ring.ring == RemovedAll(v.ring, {});
      while rest != {}
        invariant rest <= v.peers.Keys && heartbeat == old(heartbeat)
        invariant peers == map k | k in v.peers ::
                    if k in rest then v.peers[k] else SweptPeer(v.peers[k], timeouts, now)
        invariant ring.ring == RemovedAll(v.ring, NewlyDead(v.peers, timeouts, now) - rest)
        decreases rest
      {
        var k :| k in rest;
        var peer := peers[k];
        var elapsed := Elapsed(peer, now);
        ghost var dead := NewlyDead(v.peers, timeouts, now);
        if peer.status.Alive? && elapsed > timeouts.suspectAfter {
          peers := peers[k := peer.(status := Suspect)];
        } else if peer.status.Suspect? && elapsed > timeouts.deadAfter {
          peers := peers[k := peer.(status := Dead)];
          assert k in dead && dead - (rest - {k}) == dead - rest + {k};
          ring.RemoveNode(peer.nodeId);
        }
        assert k !in dead ==> dead - (rest - {k}) == dead - rest;
        rest := rest - {k};
      }
      assert NewlyDead(v.peers, timeouts, now) - {} == NewlyDead(v.peers, timeouts, now);
    }

    method Beat()
      modifies this`heartbeat
      ensures heartbeat == old(heartbeat) + 1
    {
      heartbeat := heartbeat + 1;
    }

    /** The peers' records in hash-map order, which is any order. */
    method BuildNodeStates() returns (states: seq<WireState>)
      requires Valid()
      ensures Reports(states, peers)
    {
      states := [];
      var rest := peers.Keys;
      while rest != {}
        invariant rest <= peers.Keys
        invariant Reports(states, peers - rest)
        decreases rest
      {
        var k :| k in rest;
        ReportsNext(states, peers, rest, k);
        states := states + [Encode(peers[k])];
        rest := rest - {k};
      }
      assert peers - {} == peers;
    }

    /** Our peers' records, then ourselves: alive, current heartbeat, empty address. */
    method BuildGossipMessage() returns (msg: seq<WireState>)
      requires Valid()
      ensures msg != [] && Reports(msg[..|msg| - 1], peers)
      ensures msg[|msg| - 1] == WireState(self, "", 0, heartbeat, 1)
    {
      var nodes := BuildNodeStates();
      msg := nodes + [WireState(self, "", EncodeStatus(Alive), heartbeat, generation)];
    }
  }

  lemma ReportsNext(states: seq<WireState>, peers: Peers, rest: set<string>, k: string)
    requires rest <= peers.Keys && k in rest && Reports(states, peers - rest)
    ensures Reports(states + [Encode(peers[k])], peers - (rest - {k}))
  {
    var more := peers - (rest - {k});
    assert more == (peers - rest)[k := peers[k]];
    forall ns | ns in states ensures exists j :: j in more && ns == Encode(more[j]) {
      var j :| j in peers - rest && ns == Encode((peers - rest)[j]);
      assert j in more;
    }
    assert k in more && more[k] == peers[k];
  }
}
