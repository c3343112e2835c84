/**
 Many gossiping nodes over a network that loses, duplicates, delays and reorders messages.
 A message once sent may be delivered never, once or again at any time, to anybody.
 */
module GossipNetwork {
  import opened Options
  import opened RingMembership
  import opened Gossip
  import GossipMembership

  const GENERATION := 1

  datatype Peer = Peer(params: Params, view: View, heartbeat: nat)

  datatype Net = Net(nodes: map<string, Peer>, sent: set<seq<WireState>>)

  datatype Step =
    | Beat(id: string)
    | Send(id: string, report: seq<WireState>)
    | Deliver(id: string, msg: seq<WireState>, times: nat -> int)
    | Seed(id: string, peer: string, address: string, at: int)
    | Sweep(id: string, at: int)

  /** The node's own record, as it closes every message it sends. */
  function SelfRecord(id: string, p: Peer): WireState {
    WireState(id, "", EncodeStatus(Alive), p.heartbeat, GENERATION)
  }

  ghost predicate Enabled(s: Net, step: Step) {
    && step.id in s.nodes
    && (step.Send? ==> Reports(step.report, s.nodes[step.id].view.peers))
    && (step.Deliver? ==> step.msg in s.sent)
  }

  function WithView(s: Net, id: string, v: View): Net
    requires id in s.nodes
  {
    s.(nodes := s.nodes[id := s.nodes[id].(view := v)])
  }

  ghost function Next(s: Net, step: Step): Net {
    if !Enabled(s, step) then s else
    var p := s.nodes[step.id];
    match step
    case Beat(id) => s.(nodes := s.nodes[id := p.(heartbeat := p.heartbeat + 1)])
    case Send(id, report) => s.(sent := s.sent + {report + [SelfRecord(id, p)]})
    case Deliver(id, msg, times) => WithView(s, id, AbsorbedAll(p.view, p.params, msg, times))
    case Seed(id, peer, address, at) => WithView(s, id, Seeded(p.view, p.params, peer, address, at))
    case Sweep(id, at) => WithView(s, id, Swept(p.view, p.params, at))
  }

  ghost function After(s: Net, steps: seq<Step>): Net
    decreases |steps|
  {
    if steps == [] then s else After(Next(s, steps[0]), steps[1..])
  }

  ghost predicate Constructed(p: Peer) {
    p.heartbeat == 0 && exists address :: p.view == Fresh(p.params, address)
  }

  /** Nodes just constructed; nothing sent. */
  ghost predicate Start(s: Net) {
    && s.sent == {}
    && forall id :: id in s.nodes ==> s.nodes[id].params.self == id && Constructed(s.nodes[id])
  }

  // ------------------------------------------------------------------------------
  // Nobody is ahead of a node's own counter

  /** The node's own current pair; an id that is no node stays at its seed value. */
  function OwnPair(s: Net, id: string): Pair {
    if id in s.nodes then Pair(GENERATION, s.nodes[id].heartbeat) else Pair(0, 0)
  }

  ghost predicate TableBounded(s: Net, peers: Peers) {
    forall k :: k in peers ==>
      peers[k].nodeId == k && AtMost(Pair(peers[k].generation, peers[k].heartbeat), OwnPair(s, k))
  }

  ghost predicate MessageBounded(s: Net, msg: seq<WireState>) {
    forall ns :: ns in msg ==> AtMost(WirePair(ns), OwnPair(s, ns.nodeId))
  }

  ghost predicate Bounded(s: Net) {
    && (forall id :: id in s.nodes ==> s.nodes[id].params.self == id && TableBounded(s, s.nodes[id].view.peers))
    && (forall msg :: msg in s.sent ==> MessageBounded(s, msg))
  }

  ghost predicate NoSlower(s: Net, s': Net) {
    s'.nodes.Keys == s.nodes.Keys && forall id :: id in s.nodes ==> s'.nodes[id].heartbeat >= s.nodes[id].heartbeat
  }

  lemma OwnPairGrows(s: Net, s': Net, id: string)
    requires NoSlower(s, s')
    ensures AtMost(OwnPair(s, id), OwnPair(s', id))
  {}

  lemma BoundsCarryOver(s: Net, s': Net, peers: Peers, msg: seq<WireState>)
    requires NoSlower(s, s')
    ensures TableBounded(s, peers) ==> TableBounded(s', peers)
    ensures MessageBounded(s, msg) ==> MessageBounded(s', msg)
  {
    forall k ensures AtMost(OwnPair(s, k), OwnPair(s', k)) { OwnPairGrows(s, s', k); }
  }

  lemma {:induction false} AbsorbedBounded(s: Net, v: View, c: Params, msg: seq<WireState>, times: nat -> int)
    requires TableBounded(s, v.peers) && MessageBounded(s, msg)
    ensures TableBounded(s, AbsorbedAll(v, c, msg, times).peers)
  {
    if msg != [] {
      var front := msg[..|msg| - 1];
      assert msg == front + [msg[|msg| - 1]];
      AbsorbedBounded(s, v, c, front, times);
    }
  }

  lemma ReportBounded(s: Net, peers: Peers, report: seq<WireState>, self: WireState)
    requires TableBounded(s, peers) && Reports(report, peers) && AtMost(WirePair(self), OwnPair(s, self.nodeId))
    ensures MessageBounded(s, report + [self])
  {
    forall ns | ns in report ensures AtMost(WirePair(ns), OwnPair(s, ns.nodeId)) {
      var k :| k in peers && ns == Encode(peers[k]);
    }
  }

  lemma ViewStepBounded(s: Net, id: string, v: View)
    requires Bounded(s) && id in s.nodes && TableBounded(s, v.peers)
    ensures Bounded(WithView(s, id, v)) && NoSlower(s, WithView(s, id, v))
  {
    var s' := WithView(s, id, v);
    forall j | j in s'.nodes ensures TableBounded(s', s'.nodes[j].view.peers) {
      BoundsCarryOver(s, s', s'.nodes[j].view.peers, []);
    }
    forall msg | msg in s'.sent ensures MessageBounded(s', msg) {
      BoundsCarryOver(s, s', map[], msg);
    }
  }

  lemma StepBounded(s: Net, step: Step)
    requires Bounded(s)
    ensures Bounded(Next(s, step)) && NoSlower(s, Next(s, step))
  {
    if Enabled(s, step) {
      var s', p := Next(s, step), s.nodes[step.id];
      match step
      case Beat(id) =>
        forall j | j in s'.nodes ensures TableBounded(s', s'.nodes[j].view.peers) {
          BoundsCarryOver(s, s', s.nodes[j].view.peers, []);
        }
        forall msg | msg in s'.sent ensures MessageBounded(s', msg) {
          BoundsCarryOver(s, s', map[], msg);
        }
      case Send(id, report) =>
        ReportBounded(s, p.view.peers, report, SelfRecord(id, p));
        forall j | j in s'.nodes ensures TableBounded(s', s'.nodes[j].view.peers) {
          BoundsCarryOver(s, s', s.nodes[j].view.peers, []);
        }
        forall msg | msg in s'.sent ensures MessageBounded(s', msg) {
          BoundsCarryOver(s, s', map[], msg);
        }
      case Deliver(id, msg, times) =>
        AbsorbedBounded(s, p.view, p.params, msg, times);
        ViewStepBounded(s, id, AbsorbedAll(p.view, p.params, msg, times));
      case Seed(id, peer, address, at) =>
        ViewStepBounded(s, id, Seeded(p.view, p.params, peer, address, at));
      case Sweep(id, at) =>
        ViewStepBounded(s, id, Swept(p.view, p.params, at));
    }
  }

  lemma {:induction false} RunBounded(s: Net, steps: seq<Step>)
    requires Bounded(s)
    ensures Bounded(After(s, steps)) && NoSlower(s, After(s, steps))
    decreases |steps|
  {
    if steps != [] {
      StepBounded(s, steps[0]);
      RunBounded(Next(s, steps[0]), steps[1..]);
    }
  }

  /**
   In every restart-free run no table and no message in flight is ahead of a node's own
   (generation, heartbeat).
   */
  lemma NobodyAheadOfTheSource(s: Net, steps: seq<Step>, p: string)
    requires Start(s)
    ensures var s' := After(s, steps);
            && (forall id :: id in s'.nodes && p in s'.nodes[id].view.peers ==>
                  AtMost(PairOf(s'.nodes[id].view.peers, p).value, OwnPair(s', p)))
            && (forall msg, ns :: msg in s'.sent && ns in msg && ns.nodeId == p ==>
                  AtMost(WirePair(ns), OwnPair(s', p)))
  {
    StartBounded(s);
    RunBounded(s, steps);
    BoundedMeans(After(s, steps), p);
  }

  lemma StartBounded(s: Net)
    requires Start(s)
    ensures Bounded(s)
  {
    forall id | id in s.nodes ensures s.nodes[id].view.peers == map[] { assert Constructed(s.nodes[id]); }
  }

  lemma BoundedMeans(s: Net, p: string)
    requires Bounded(s)
    ensures forall id :: id in s.nodes && p in s.nodes[id].view.peers ==>
              AtMost(PairOf(s.nodes[id].view.peers, p).value, OwnPair(s, p))
    ensures forall msg, ns :: msg in s.sent && ns in msg && ns.nodeId == p ==> AtMost(WirePair(ns), OwnPair(s, p))
  {
    forall msg, ns | msg in s.sent && ns in msg && ns.nodeId == p ensures AtMost(WirePair(ns), OwnPair(s, p)) {
      assert MessageBounded(s, msg);
    }
  }

  // ------------------------------------------------------------------------------
  // Recorded pairs never decrease

  ghost predicate NotBefore(a: Option<Pair>, b: Option<Pair>) {
    a.Some? ==> b.Some? && AtMost(a.value, b.value)
  }

  lemma StepKeepsPair(s: Net, step: Step, id: string, p: string)
    requires Bounded(s) && id in s.nodes
    requires !(step.Seed? && step.id == id && step.peer == p)
    ensures id in Next(s, step).nodes
    ensures NotBefore(PairOf(s.nodes[id].view.peers, p), PairOf(Next(s, step).nodes[id].view.peers, p))
  {
    if Enabled(s, step) && step.Deliver? && step.id == id {
      var n := s.nodes[id];
      if p != n.params.self {
        var es := GossipMembership.Updates(step.msg, step.times);
        GossipMembership.MessageIsUpdates(n.view, n.params, step.msg, step.times);
        assert !GossipMembership.Seeds(es, p);
        GossipMembership.RecordedPairIsMaximum(n.view, n.params, es, p);
      } else {
        SelfRecordKept(n.view, n.params, step.msg, step.times);
      }
    }
  }

  lemma {:induction false} SelfRecordKept(v: View, c: Params, msg: seq<WireState>, times: nat -> int)
    ensures PairOf(AbsorbedAll(v, c, msg, times).peers, c.self) == PairOf(v.peers, c.self)
  {
    if msg != [] { SelfRecordKept(v, c, msg[..|msg| - 1], times); }
  }

  ghost predicate Reseeds(steps: seq<Step>, id: string, p: string) {
    exists i :: 0 <= i < |steps| && steps[i].Seed? && steps[i].id == id && steps[i].peer == p
  }

  lemma ReseedsTail(steps: seq<Step>, id: string, p: string)
    requires steps != [] && !Reseeds(steps, id, p)
    ensures !Reseeds(steps[1..], id, p) && !(steps[0].Seed? && steps[0].id == id && steps[0].peer == p)
  {
    assert forall i :: 0 <= i < |steps| - 1 ==> steps[1..][i] == steps[i + 1];
  }

  /** Without another seeding, the pair a table records for a node never decreases. */
  lemma {:induction false} RecordedPairsNeverDecrease(s: Net, steps: seq<Step>, id: string, p: string)
    requires Bounded(s) && id in s.nodes && !Reseeds(steps, id, p)
    ensures id in After(s, steps).nodes
    ensures NotBefore(PairOf(s.nodes[id].view.peers, p), PairOf(After(s, steps).nodes[id].view.peers, p))
    decreases |steps|
  {
    if steps != [] {
      StepKeepsPair(s, steps[0], id, p);
      StepBounded(s, steps[0]);
      ReseedsTail(steps, id, p);
      RecordedPairsNeverDecrease(Next(s, steps[0]), steps[1..], id, p);
    }
  }

  // ------------------------------------------------------------------------------
  // Every node's ring follows its table

  ghost predicate MessageWithin(msg: seq<WireState>, ids: set<string>) {
    forall ns :: ns in msg ==> ns.nodeId in ids
  }

  /** A node whose virtual nodes collide with none of `ids`, in the membership relation. */
  ghost predicate NodeFollows(p: Peer, ids: set<string>) {
    && p.params.vnodes >= 1 && NoCollision(p.params.hash, p.params.vnodes, ids) && p.params.self in ids
    && GossipMembership.MembershipInv(p.view, p.params, ids)
  }

  ghost predicate NetFollows(s: Net, ids: set<string>) {
    && (forall id :: id in s.nodes ==> s.nodes[id].params.self == id && NodeFollows(s.nodes[id], ids))
    && (forall msg :: msg in s.sent ==> MessageWithin(msg, ids))
  }

  lemma StartFollows(s: Net, ids: set<string>)
    requires Start(s) && s.nodes.Keys <= ids
    requires forall id :: id in s.nodes ==>
      s.nodes[id].params.vnodes >= 1 && NoCollision(s.nodes[id].params.hash, s.nodes[id].params.vnodes, ids)
    ensures NetFollows(s, ids)
  {
    forall id | id in s.nodes ensures NodeFollows(s.nodes[id], ids) {
      var p := s.nodes[id];
      var address :| p.view == Fresh(p.params, address);
      GossipMembership.FreshInv(p.params, address, ids);
    }
  }

  lemma NodeRunFollows(p: Peer, es: seq<GossipMembership.Event>, ids: set<string>)
    requires NodeFollows(p, ids) && GossipMembership.Within(es, ids)
    ensures NodeFollows(p.(view := GossipMembership.Run(p.view, p.params, es)), ids)
  {
    GossipMembership.RingFollowsTable(p.view, p.params, es, ids);
  }

  /** What a step does to the view of the node that takes it, as that node's own events. */
  function EventsOf(step: Step): seq<GossipMembership.Event> {
    match step
    case Deliver(_, msg, times) => GossipMembership.Updates(msg, times)
    case Seed(_, peer, address, at) => [GossipMembership.Seed(peer, address, at)]
    case Sweep(_, at) => [GossipMembership.Sweep(at)]
    case _ => []
  }

  /** Each step is its node's own events; only a beat moves a heartbeat, and by one. */
  lemma ViewAfterStep(s: Net, step: Step, id: string)
    requires Enabled(s, step) && id in s.nodes
    ensures id in Next(s, step).nodes
    ensures var p, p' := s.nodes[id], Next(s, step).nodes[id];
            && p'.params == p.params
            && p'.heartbeat == p.heartbeat + (if step.Beat? && step.id == id then 1 else 0)
            && p'.view == GossipMembership.Run(p.view, p.params, if step.id == id then EventsOf(step) else [])
  {
    if step.id == id {
      var p := s.nodes[id];
      match step
      case Deliver(_, msg, times) => GossipMembership.MessageIsUpdates(p.view, p.params, msg, times);
      case Seed(_, peer, address, at) =>
        GossipMembership.RunOne(p.view, p.params, GossipMembership.Seed(peer, address, at));
      case Sweep(_, at) => GossipMembership.RunOne(p.view, p.params, GossipMembership.Sweep(at));
      case _ =>
    }
  }

  /** Only a send adds a message: the report, then self with status 0, the heartbeat and generation 1. */
  lemma SentAfterStep(s: Net, step: Step)
    requires Enabled(s, step)
    ensures Next(s, step).sent == s.sent +
            (if step.Send? then {step.report + [WireState(step.id, "", 0, s.nodes[step.id].heartbeat, 1)]} else {})
  {}

  lemma ReportWithin(p: Peer, report: seq<WireState>, id: string, ids: set<string>)
    requires NodeFollows(p, ids) && Reports(report, p.view.peers) && id in ids
    ensures MessageWithin(report + [SelfRecord(id, p)], ids)
  {
    forall ns | ns in report ensures ns.nodeId in ids {
      var k :| k in p.view.peers && ns == Encode(p.view.peers[k]);
    }
  }

  lemma StepEventsWithin(step: Step, ids: set<string>)
    requires (step.Deliver? ==> MessageWithin(step.msg, ids)) && (step.Seed? ==> step.peer in ids)
    ensures GossipMembership.Within(EventsOf(step), ids)
  {}

  lemma StepFollows(s: Net, step: Step, ids: set<string>)
    requires NetFollows(s, ids) && (step.Seed? ==> step.peer in ids)
    ensures NetFollows(Next(s, step), ids)
  {
    if Enabled(s, step) {
      var s' := Next(s, step);
      StepEventsWithin(step, ids);
      forall id | id in s'.nodes ensures s'.nodes[id].params.self == id && NodeFollows(s'.nodes[id], ids) {
        ViewAfterStep(s, step, id);
        var es := if step.id == id then EventsOf(step) else [];
        NodeRunFollows(s.nodes[id], es, ids);
      }
      if step.Send? { ReportWithin(s.nodes[step.id], step.report, step.id, ids); }
    }
  }

  ghost predicate SeedsWithin(steps: seq<Step>, ids: set<string>) {
    forall step :: step in steps && step.Seed? ==> step.peer in ids
  }

  /**
   In every run of the network, with loss, duplication, delay and reordering, and self-seeding,
   every node's ring follows its table.
   */
  lemma {:induction false} EveryRingFollowsItsTable(s: Net, steps: seq<Step>, ids: set<string>)
    requires NetFollows(s, ids) && SeedsWithin(steps, ids)
    ensures NetFollows(After(s, steps), ids)
    decreases |steps|
  {
    if steps != [] {
      assert steps[0] in steps;
      StepFollows(s, steps[0], ids);
      assert forall step :: step in steps[1..] ==> step in steps;
      EveryRingFollowsItsTable(Next(s, steps[0]), steps[1..], ids);
    }
  }
}
