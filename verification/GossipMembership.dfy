/**
 What every run of one node's gossip events keeps: the ring follows the table, recorded pairs
 are maxima, and the failure detector is sound and complete for its timeouts.
 */
module GossipMembership {
  import opened Options
  import opened HashRings
  import opened RingMembership
  import opened Gossip

  // ------------------------------------------------------------------------------
  // Runs

  datatype Event =
    | Seed(id: string, address: string, at: int)
    | Update(ns: WireState, at: int)
    | Sweep(at: int)

  function Step(v: View, c: Params, e: Event): View {
    match e
    case Seed(id, address, at) => Seeded(v, c, id, address, at)
    case Update(ns, at) => Absorbed(v, c, ns, at)
    case Sweep(at) => Swept(v, c, at)
  }

  function Run(v: View, c: Params, es: seq<Event>): View
    decreases |es|
  {
    if es == [] then v else Run(Step(v, c, es[0]), c, es[1..])
  }

  lemma {:induction false} RunConcat(v: View, c: Params, a: seq<Event>, b: seq<Event>)
    ensures Run(v, c, a + b) == Run(Run(v, c, a), c, b)
    decreases |a|
  {
    if a == [] {
      assert a + b == b;
    } else {
      assert (a + b)[1..] == a[1..] + b;
      RunConcat(Step(v, c, a[0]), c, a[1..], b);
    }
  }

  function Updates(states: seq<WireState>, now: nat -> int): seq<Event> {
    seq(|states|, i requires 0 <= i < |states| => Update(states[i], now(i)))
  }

  /** A message is its records, one by one, each at the time it is handled. */
  lemma {:induction false} MessageIsUpdates(v: View, c: Params, states: seq<WireState>, now: nat -> int)
    ensures AbsorbedAll(v, c, states, now) == Run(v, c, Updates(states, now))
  {
    if states != [] {
      var front, last := states[..|states| - 1], states[|states| - 1];
      MessageIsUpdates(v, c, front, now);
      var e := Update(last, now(|front|));
      RunConcat(v, c, Updates(front, now), [e]);
      assert Updates(states, now) == Updates(front, now) + [e];
      RunOne(Run(v, c, Updates(front, now)), c, e);
    }
  }

  lemma RunOne(v: View, c: Params, e: Event)
    ensures Run(v, c, [e]) == Step(v, c, e)
  {
    assert [e][1..] == [];
  }

  // ------------------------------------------------------------------------------
  // The ring follows the table

  ghost predicate RingOk(ring: Ring, c: Params) {
    exists members :: IsImage(ring, members, c.hash, c.vnodes)
  }

  /**
   The relation between self, the peers' statuses and the ids on the ring.  Self is on the ring
   unless its own table holds it as Dead.
   */
  ghost predicate Follows(peers: Peers, onRing: set<string>, self: string) {
    && (self in onRing <==> !(self in peers && peers[self].status.Dead?))
    && (forall k :: k in peers ==> peers[k].nodeId == k)
    && (forall k :: k in peers && peers[k].status.Alive? ==> k in onRing)
    && (forall k :: k in peers && peers[k].status.Dead? ==> k !in onRing)
    && (forall id :: id in onRing ==> id == self || (id in peers && !peers[id].status.Dead?))
  }

  ghost predicate MembershipInv(v: View, c: Params, ids: set<string>) {
    && Follows(v.peers, RingIds(v.ring), c.self) && RingOk(v.ring, c)
    && RingIds(v.ring) <= ids && v.peers.Keys <= ids
  }

  function EventId(e: Event): Option<string> {
    match e
    case Seed(id, _, _) => Some(id)
    case Update(ns, _) => Some(ns.nodeId)
    case Sweep(_) => None
  }

  /** The ids heard of stay within `ids`. */
  ghost predicate Within(es: seq<Event>, ids: set<string>) {
    forall e :: e in es && EventId(e).Some? ==> EventId(e).value in ids
  }

  lemma PlacedOk(ring: Ring, node: Node, c: Params, ids: set<string>)
    requires RingOk(ring, c) && c.vnodes >= 1 && NoCollision(c.hash, c.vnodes, ids)
    requires RingIds(ring) <= ids && node.id in ids
    ensures RingOk(Placed(ring, node, c.hash, c.vnodes), c)
    ensures RingIds(Placed(ring, node, c.hash, c.vnodes)) == RingIds(ring) + {node.id}
  {
    var members :| IsImage(ring, members, c.hash, c.vnodes);
    ImageIds(ring, members, c.hash, c.vnodes);
    NoCollisionSubset(c.hash, c.vnodes, ids, members.Keys + {node.id});
    ImageAdd(ring, members, node, c.hash, c.vnodes);
    ImageIds(Placed(ring, node, c.hash, c.vnodes), members[node.id := node], c.hash, c.vnodes);
  }

  lemma RemovedAllOk(ring: Ring, gone: set<string>, c: Params)
    requires RingOk(ring, c)
    ensures RingOk(RemovedAll(ring, gone), c)
    ensures RingIds(RemovedAll(ring, gone)) == RingIds(ring) - gone
  {
    var members :| IsImage(ring, members, c.hash, c.vnodes);
    assert IsImage(RemovedAll(ring, gone), members - gone, c.hash, c.vnodes);
    forall id | id in RingIds(ring) - gone ensures id in RingIds(RemovedAll(ring, gone)) {
      var p :| p in ring && ring[p].id == id;
      assert p in RemovedAll(ring, gone);
    }
  }

  lemma RemovedOk(ring: Ring, id: string, c: Params)
    requires RingOk(ring, c)
    ensures RingOk(Removed(ring, id), c) && RingIds(Removed(ring, id)) == RingIds(ring) - {id}
  {
    RemovedAllOk(ring, {id}, c);
    assert Removed(ring, id) == RemovedAll(ring, {id});
  }

  lemma FreshInv(c: Params, address: string, ids: set<string>)
    requires c.vnodes >= 1 && c.self in ids && NoCollision(c.hash, c.vnodes, ids)
    ensures MembershipInv(Fresh(c, address), c, ids)
  {
    assert IsImage(map[], map[], c.hash, c.vnodes);
    PlacedOk(map[], Node(c.self, address), c, ids);
  }

  lemma RecordFollows(peers: Peers, onRing: set<string>, self: string, p: PeerState, onRing': set<string>)
    requires Follows(peers, onRing, self) && (p.nodeId == self ==> p.status.Alive?)
    requires onRing' == match p.status
                        case Alive => onRing + {p.nodeId}
                        case Suspect => onRing
                        case Dead => onRing - {p.nodeId}
    ensures Follows(peers[p.nodeId := p], onRing', self)
  {}

  lemma SweepFollows(peers: Peers, onRing: set<string>, self: string, t: Timeouts, now: int)
    requires Follows(peers, onRing, self)
    ensures Follows(map k | k in peers :: SweptPeer(peers[k], t, now), onRing - NewlyDead(peers, t, now), self)
  {
    var gone := NewlyDead(peers, t, now);
    forall k | k in peers && SweptPeer(peers[k], t, now).status.Dead? ensures k !in onRing - gone {
      if peers[k].status.Suspect? { assert peers[k].nodeId in gone; }
    }
    forall k | k in gone ensures k in peers && !peers[k].status.Alive? {}
    assert self in peers && peers[self].status.Suspect? && SweptPeer(peers[self], t, now).status.Dead? ==>
             peers[self].nodeId in gone;
  }

  lemma StepKeepsMembership(v: View, c: Params, e: Event, ids: set<string>)
    requires MembershipInv(v, c, ids) && (EventId(e).Some? ==> EventId(e).value in ids)
    requires c.vnodes >= 1 && NoCollision(c.hash, c.vnodes, ids)
    ensures MembershipInv(Step(v, c, e), c, ids)
  {
    match e
    case Seed(id, address, at) =>
      PlacedOk(v.ring, Node(id, address), c, ids);
      RecordFollows(v.peers, RingIds(v.ring), c.self, PeerState(id, address, Alive, 0, 0, at), RingIds(v.ring) + {id});
    case Update(ns, at) =>
      if Accepts(v.peers, c.self, ns) { UpdateKeepsMembership(v, c, ns, at, ids); }
    case Sweep(at) =>
      RemovedAllOk(v.ring, NewlyDead(v.peers, c.timeouts, at), c);
      SweepFollows(v.peers, RingIds(v.ring), c.self, c.timeouts, at);
  }

  lemma UpdateKeepsMembership(v: View, c: Params, ns: WireState, at: int, ids: set<string>)
    requires MembershipInv(v, c, ids) && Accepts(v.peers, c.self, ns) && ns.nodeId in ids
    requires c.vnodes >= 1 && NoCollision(c.hash, c.vnodes, ids)
    ensures MembershipInv(Absorbed(v, c, ns, at), c, ids)
  {
    match DecodeStatus(ns.status) {
      case Alive => PlacedOk(v.ring, Node(ns.nodeId, ns.address), c, ids);
      case Dead => RemovedOk(v.ring, ns.nodeId, c);
      case Suspect =>
    }
    RecordFollows(v.peers, RingIds(v.ring), c.self, PeerFrom(ns, at), RingIds(Absorbed(v, c, ns, at).ring));
  }

  /**
   In every run over collision-free ids every Alive peer is on the ring, no Dead one is, every
   id on the ring is self or a non-Dead peer, and self is on it exactly unless the table holds
   self as Dead.
   */
  lemma {:induction false} RingFollowsTable(v: View, c: Params, es: seq<Event>, ids: set<string>)
    requires MembershipInv(v, c, ids) && Within(es, ids)
    requires c.vnodes >= 1 && NoCollision(c.hash, c.vnodes, ids)
    ensures MembershipInv(Run(v, c, es), c, ids)
    decreases |es|
  {
    if es != [] {
      assert es[0] in es;
      StepKeepsMembership(v, c, es[0], ids);
      assert forall e :: e in es[1..] ==> e in es;
      RingFollowsTable(Step(v, c, es[0]), c, es[1..], ids);
    }
  }

  ghost predicate Seeds(es: seq<Event>, id: string) {
    exists e :: e in es && e.Seed? && e.id == id
  }

  lemma SeedsTail(es: seq<Event>, id: string)
    requires es != [] && !Seeds(es, id)
    ensures !Seeds(es[1..], id) && !(es[0].Seed? && es[0].id == id)
  {
    assert es[0] in es;
    assert forall e :: e in es[1..] ==> e in es;
  }

  /** A node that is never seeded with its own id never records itself. */
  lemma {:induction false} SelfUnrecorded(v: View, c: Params, es: seq<Event>)
    requires c.self !in v.peers && !Seeds(es, c.self)
    ensures c.self !in Run(v, c, es).peers
    decreases |es|
  {
    if es != [] {
      SeedsTail(es, c.self);
      SelfUnrecorded(Step(v, c, es[0]), c, es[1..]);
    }
  }

  /** A fresh node stays on its own ring through every run that never seeds it with its own id. */
  lemma SelfStaysOnRing(c: Params, address: string, es: seq<Event>, ids: set<string>)
    requires c.vnodes >= 1 && c.self in ids && NoCollision(c.hash, c.vnodes, ids)
    requires Within(es, ids) && !Seeds(es, c.self)
    ensures c.self in RingIds(Run(Fresh(c, address), c, es).ring)
  {
    FreshInv(c, address, ids);
    RingFollowsTable(Fresh(c, address), c, es, ids);
    SelfUnrecorded(Fresh(c, address), c, es);
  }

  /** A node seeded with its own id suspects itself, declares itself dead and leaves its own ring. */
  lemma SelfSeedLeavesRing(c: Params, address: string, at: int, t1: int, t2: int)
    requires t1 - at > c.timeouts.suspectAfter && t2 - at > c.timeouts.deadAfter
    ensures var v := Run(Fresh(c, address), c, [Seed(c.self, address, at), Sweep(t1), Sweep(t2)]);
            c.self !in RingIds(v.ring) && c.self in v.peers && v.peers[c.self].status.Dead?
  {
    var v0 := Fresh(c, address);
    var v1 := Step(v0, c, Seed(c.self, address, at));
    var v2 := Step(v1, c, Sweep(t1));
    assert v2.peers == map[c.self := PeerState(c.self, address, Suspect, 0, 0, at)];
    var v3 := Step(v2, c, Sweep(t2));
    assert SweptPeer(v2.peers[c.self], c.timeouts, t2).status.Dead?;
    assert v2.peers[c.self].nodeId in NewlyDead(v2.peers, c.timeouts, t2);
    var es := [Seed(c.self, address, at), Sweep(t1), Sweep(t2)];
    assert es[1..] == [Sweep(t1), Sweep(t2)] && es[1..][1..] == [Sweep(t2)] && es[1..][1..][1..] == [];
    assert Run(v0, c, es) == Run(v1, c, [Sweep(t1), Sweep(t2)]) == Run(v2, c, [Sweep(t2)]) == Run(v3, c, []);
  }

  // ------------------------------------------------------------------------------
  // Recorded pairs are maxima

  lemma AbsorbedPair(v: View, c: Params, ns: WireState, now: int, id: string)
    ensures PairOf(Absorbed(v, c, ns, now).peers, id) ==
            if id == ns.nodeId && Accepts(v.peers, c.self, ns) then Some(WirePair(ns)) else PairOf(v.peers, id)
  {}

  /** Some update in `es` says `p` of `id`. */
  ghost predicate Heard(p: Pair, es: seq<Event>, id: string) {
    exists e :: e in es && e.Update? && e.ns.nodeId == id && WirePair(e.ns) == p
  }

  lemma HeardFirst(p: Pair, es: seq<Event>, id: string)
    requires es != []
    ensures Heard(p, es, id) <==>
            Heard(p, es[1..], id) || (es[0].Update? && es[0].ns.nodeId == id && WirePair(es[0].ns) == p)
  {
    assert forall e :: e in es <==> e == es[0] || e in es[1..];
  }

  /** `r` is the largest pair among `init` and what `es` says of `id`. */
  ghost predicate IsMaximum(r: Option<Pair>, init: Option<Pair>, es: seq<Event>, id: string) {
    && (r == init || (r.Some? && Heard(r.value, es, id)))
    && (init.Some? ==> r.Some? && AtMost(init.value, r.value))
    && (forall p :: Heard(p, es, id) ==> r.Some? && AtMost(p, r.value))
  }

  /**
   After any run of updates, sweeps and seedings of others, at any times, the recorded pair of
   an id is the maximum of the initial one and everything heard.
   */
  lemma {:induction false} RecordedPairIsMaximum(v: View, c: Params, es: seq<Event>, id: string)
    requires id != c.self && !Seeds(es, id)
    ensures IsMaximum(PairOf(Run(v, c, es).peers, id), PairOf(v.peers, id), es, id)
    decreases |es|
  {
    if es != [] {
      var v1 := Step(v, c, es[0]);
      SeedsTail(es, id);
      if es[0].Update? { AbsorbedPair(v, c, es[0].ns, es[0].at, id); }
      RecordedPairIsMaximum(v1, c, es[1..], id);
      forall p ensures Heard(p, es, id) <==>
        Heard(p, es[1..], id) || (es[0].Update? && es[0].ns.nodeId == id && WirePair(es[0].ns) == p)
      {
        HeardFirst(p, es, id);
      }
    }
  }

  /**
   Two runs that hear the same of an id record the same pair, whatever the order, the number of
   repetitions, the arrival times and the sweeps and other events in between.
   */
  lemma ArrivalOrderIrrelevant(v: View, c: Params, es: seq<Event>, es': seq<Event>, id: string)
    requires id != c.self && !Seeds(es, id) && !Seeds(es', id)
    requires forall p :: Heard(p, es, id) <==> Heard(p, es', id)
    ensures PairOf(Run(v, c, es).peers, id) == PairOf(Run(v, c, es').peers, id)
  {
    RecordedPairIsMaximum(v, c, es, id);
    RecordedPairIsMaximum(v, c, es', id);
  }

  /** Nothing in `states` is news. */
  ghost predicate Known(v: View, c: Params, states: seq<WireState>) {
    forall ns :: ns in states ==> !Accepts(v.peers, c.self, ns)
  }

  lemma {:induction false} KnownChangesNothing(v: View, c: Params, states: seq<WireState>, now: nat -> int)
    requires Known(v, c, states)
    ensures AbsorbedAll(v, c, states, now) == v
  {
    if states != [] {
      var front := states[..|states| - 1];
      assert states == front + [states[|states| - 1]];
      KnownChangesNothing(v, c, front, now);
    }
  }

  /** A message handled again, however much later, changes neither the table nor the ring. */
  lemma RepeatedMessageIgnored(
    v: View, c: Params, states: seq<WireState>, now: nat -> int, es: seq<Event>, later: nat -> int)
    requires forall ns :: ns in states ==> !Seeds(es, ns.nodeId)
    ensures var v' := Run(AbsorbedAll(v, c, states, now), c, es); AbsorbedAll(v', c, states, later) == v'
  {
    var all := Updates(states, now) + es;
    var v' := Run(AbsorbedAll(v, c, states, now), c, es);
    MessageIsUpdates(v, c, states, now);
    RunConcat(v, c, Updates(states, now), es);
    forall ns | ns in states ensures !Accepts(v'.peers, c.self, ns) {
      if ns.nodeId != c.self {
        var i :| 0 <= i < |states| && states[i] == ns;
        assert all[i] == Update(ns, now(i)) && all[i] in all;
        assert !Seeds(all, ns.nodeId);
        RecordedPairIsMaximum(v, c, all, ns.nodeId);
        assert Heard(WirePair(ns), all, ns.nodeId);
      }
    }
    KnownChangesNothing(v', c, states, later);
  }

  // ------------------------------------------------------------------------------
  // The failure detector

  /** Event times never decrease and start no earlier than `from`. */
  ghost predicate Chronological(es: seq<Event>, from: int)
    decreases |es|
  {
    es == [] || (from <= es[0].at && Chronological(es[1..], es[0].at))
  }

  function LastTime(es: seq<Event>, from: int): int {
    if es == [] then from else es[|es| - 1].at
  }

  predicate Refreshes(v: View, c: Params, e: Event, id: string) {
    (e.Seed? && e.id == id) || (e.Update? && e.ns.nodeId == id && Accepts(v.peers, c.self, e.ns))
  }

  /** Every accepted update about `id` says Alive. */
  ghost predicate OnlyAliveNews(v: View, c: Params, es: seq<Event>, id: string)
    decreases |es|
  {
    es == [] || (
      && (Refreshes(v, c, es[0], id) && es[0].Update? ==> DecodeStatus(es[0].ns.status) == Alive)
      && OnlyAliveNews(Step(v, c, es[0]), c, es[1..], id))
  }

  /** Sweeps since `id` was last refreshed, given `n` before. */
  function SweepsSince(v: View, c: Params, es: seq<Event>, id: string, n: nat): nat
    decreases |es|
  {
    if es == [] then n else
    SweepsSince(Step(v, c, es[0]), c, es[1..], id,
                if Refreshes(v, c, es[0], id) then 0 else if es[0].Sweep? then n + 1 else n)
  }

  /** A demoted peer has been silent long enough and been swept often enough. */
  ghost predicate Justified(v: View, c: Params, id: string, sweeps: nat, now: int) {
    id in v.peers ==>
      var p := v.peers[id];
      && p.lastSeen <= now
      && (p.status.Suspect? ==> now - p.lastSeen > c.timeouts.suspectAfter && sweeps >= 1)
      && (p.status.Dead? ==> now - p.lastSeen > c.timeouts.suspectAfter
                             && now - p.lastSeen > c.timeouts.deadAfter && sweeps >= 2)
  }

  /**
   Soundness: if every accepted update about a peer said Alive, it is Dead only when both
   timeouts have passed since it was last seen and at least two sweeps have run since.
   */
  lemma {:induction false} DeathIsJustified(v: View, c: Params, es: seq<Event>, id: string, n: nat, from: int)
    requires Justified(v, c, id, n, from) && Chronological(es, from) && OnlyAliveNews(v, c, es, id)
    ensures Justified(Run(v, c, es), c, id, SweepsSince(v, c, es, id, n), LastTime(es, from))
    decreases |es|
  {
    if es != [] {
      var e := es[0];
      var v' := Step(v, c, e);
      var n' := if Refreshes(v, c, e, id) then 0 else if e.Sweep? then n + 1 else n;
      assert Justified(v', c, id, n', e.at);
      DeathIsJustified(v', c, es[1..], id, n', e.at);
    }
  }

  lemma DeathFromFresh(c: Params, address: string, es: seq<Event>, id: string, from: int)
    requires Chronological(es, from) && OnlyAliveNews(Fresh(c, address), c, es, id)
    ensures var v := Run(Fresh(c, address), c, es);
            id in v.peers && v.peers[id].status.Dead? ==>
              var silent := LastTime(es, from) - v.peers[id].lastSeen;
              && silent > c.timeouts.suspectAfter && silent > c.timeouts.deadAfter
              && SweepsSince(Fresh(c, address), c, es, id, 0) >= 2
  {
    DeathIsJustified(Fresh(c, address), c, es, id, 0, from);
  }

  /** No event refreshes `id`. */
  ghost predicate SilentAbout(v: View, c: Params, es: seq<Event>, id: string)
    decreases |es|
  {
    es == [] || (!Refreshes(v, c, es[0], id) && SilentAbout(Step(v, c, es[0]), c, es[1..], id))
  }

  function Severity(s: Status): nat {
    match s case Alive => 0 case Suspect => 1 case Dead => 2
  }

  lemma {:induction false} SilenceOnlyDemotes(v: View, c: Params, es: seq<Event>, id: string)
    requires id in v.peers && SilentAbout(v, c, es, id)
    ensures var v' := Run(v, c, es);
            && id in v'.peers && v'.peers[id].lastSeen == v.peers[id].lastSeen
            && Severity(v'.peers[id].status) >= Severity(v.peers[id].status)
    decreases |es|
  {
    if es != [] {
      SilenceOnlyDemotes(Step(v, c, es[0]), c, es[1..], id);
    }
  }

  lemma {:induction false} SilentConcat(v: View, c: Params, a: seq<Event>, b: seq<Event>, id: string)
    requires SilentAbout(v, c, a + b, id)
    ensures SilentAbout(v, c, a, id) && SilentAbout(Run(v, c, a), c, b, id)
    decreases |a|
  {
    if a == [] {
      assert a + b == b;
    } else {
      assert (a + b)[1..] == a[1..] + b;
      SilentConcat(Step(v, c, a[0]), c, a[1..], b, id);
    }
  }

  /** A silent stretch ended by a sweep. */
  lemma SilentThenSweep(v: View, c: Params, a: seq<Event>, t: int, rest: seq<Event>, id: string)
    returns (v': View)
    requires id in v.peers && SilentAbout(v, c, a + ([Sweep(t)] + rest), id)
    ensures Run(v, c, a + ([Sweep(t)] + rest)) == Run(v', c, rest) && SilentAbout(v', c, rest, id)
    ensures id in v'.peers && v'.peers[id].lastSeen == v.peers[id].lastSeen
    ensures var before, after := Severity(v.peers[id].status), Severity(v'.peers[id].status);
            && after >= before
            && (t - v.peers[id].lastSeen > c.timeouts.suspectAfter ==> after >= 1)
            && (before >= 1 && t - v.peers[id].lastSeen > c.timeouts.deadAfter ==> after == 2)
  {
    SilentConcat(v, c, a, [Sweep(t)] + rest, id);
    RunConcat(v, c, a, [Sweep(t)] + rest);
    SilenceOnlyDemotes(v, c, a, id);
    v' := Step(Run(v, c, a), c, Sweep(t));
    assert ([Sweep(t)] + rest)[1..] == rest;
  }

  lemma SilentPeerTurnsDead(v: View, c: Params, a: seq<Event>, t1: int, b: seq<Event>, t2: int, d: seq<Event>,
                            id: string)
    requires id in v.peers && SilentAbout(v, c, a + ([Sweep(t1)] + (b + ([Sweep(t2)] + d))), id)
    requires t1 - v.peers[id].lastSeen > c.timeouts.suspectAfter
    requires t2 - v.peers[id].lastSeen > c.timeouts.deadAfter
    ensures var v' := Run(v, c, a + ([Sweep(t1)] + (b + ([Sweep(t2)] + d))));
            id in v'.peers && v'.peers[id].status.Dead?
  {
    var v1 := SilentThenSweep(v, c, a, t1, b + ([Sweep(t2)] + d), id);
    var v2 := SilentThenSweep(v1, c, b, t2, d, id);
    SilenceOnlyDemotes(v2, c, d, id);
  }

  lemma WithinConcat(a: seq<Event>, b: seq<Event>, ids: set<string>)
    requires Within(a, ids) && Within(b, ids)
    ensures Within(a + b, ids)
  {}

  lemma SweepWithin(t: int, es: seq<Event>, ids: set<string>)
    requires Within(es, ids)
    ensures Within([Sweep(t)] + es, ids)
  {}

  lemma DeadOffRing(v: View, c: Params, ids: set<string>, id: string)
    requires MembershipInv(v, c, ids) && id in v.peers && v.peers[id].status.Dead?
    ensures id !in RingIds(v.ring)
  {}

  /**
   Completeness: with no newer update, a sweep past the suspect timeout followed, however
   much later, by a sweep past the dead timeout leaves the peer Dead, and off the ring.
   */
  lemma SilentPeerDies(v: View, c: Params, a: seq<Event>, t1: int, b: seq<Event>, t2: int, d: seq<Event>,
                       id: string, ids: set<string>)
    requires id in v.peers && SilentAbout(v, c, a + ([Sweep(t1)] + (b + ([Sweep(t2)] + d))), id)
    requires t1 - v.peers[id].lastSeen > c.timeouts.suspectAfter
    requires t2 - v.peers[id].lastSeen > c.timeouts.deadAfter
    requires MembershipInv(v, c, ids) && c.vnodes >= 1 && NoCollision(c.hash, c.vnodes, ids)
    requires Within(a, ids) && Within(b, ids) && Within(d, ids)
    ensures var v' := Run(v, c, a + ([Sweep(t1)] + (b + ([Sweep(t2)] + d))));
            id in v'.peers && v'.peers[id].status.Dead? && id !in RingIds(v'.ring)
  {
    var later := [Sweep(t2)] + d;
    SweepWithin(t2, d, ids);
    WithinConcat(b, later, ids);
    SweepWithin(t1, b + later, ids);
    WithinConcat(a, [Sweep(t1)] + (b + later), ids);
    SilentPeerTurnsDead(v, c, a, t1, b, t2, d, id);
    var all := a + ([Sweep(t1)] + (b + later));
    RingFollowsTable(v, c, all, ids);
    DeadOffRing(Run(v, c, all), c, ids, id);
  }
}
