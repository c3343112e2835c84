/**
 Quorum reads and writes (src/replication/coordinator.rs, src/replication/quorum.rs).  A
 cluster is a map from node id to that node's table; which peers answer an RPC is a
 parameter.  Between a put and a get the replicas may evict, restart and take other writes.
 */
module Coordinators {
  import opened Options
  import opened Ordered
  import opened VectorClocks
  import opened Values
  import opened MemTables
  import opened HashRings
  import opened RingMembership
  import opened Conflicts
  import opened ResolutionOrders
  import Durability

  // ------------------------------------------------------------------------------
  // Quorum configuration

  datatype QuorumConfig = QuorumConfig(replicationFactor: nat, readQuorum: nat, writeQuorum: nat) {
    predicate IsStronglyConsistent() {
      readQuorum + writeQuorum > replicationFactor
    }

    function EffectiveReadQuorum(overrideR: nat): nat {
      if overrideR > 0 then overrideR else readQuorum
    }

    function EffectiveWriteQuorum(overrideW: nat): nat {
      if overrideW > 0 then overrideW else writeQuorum
    }
  }

  datatype QuorumResult<+T> = QuorumResult(value: Option<T>, successes: nat, failures: nat, required: nat) {
    predicate IsSuccess() {
      successes >= required
    }
  }

  // ------------------------------------------------------------------------------
  // Wire form

  datatype ProtoValue = ProtoValue(value: Bytes, clock: Option<Clock>, timestamp: int, ttl: int)

  function ToProto(v: VersionedValue): ProtoValue {
    ProtoValue(v.value, Some(v.clock), v.timestamp, v.ttl)
  }

  function FromProto(p: ProtoValue): VersionedValue {
    VersionedValue(p.value, if p.clock.Some? then p.clock.value else map[], p.timestamp, p.ttl, false)
  }

  function OverWire(v: VersionedValue): VersionedValue {
    FromProto(ToProto(v))
  }

  /** The round trip loses exactly the tombstone flag. */
  lemma WireRoundTrip(v: VersionedValue, now: int)
    ensures OverWire(v) == v <==> !v.deleted
    ensures OverWire(v) == v.(deleted := false)
    ensures Live(OverWire(v), now) <==> !Expired(v, now)
  {}

  // ------------------------------------------------------------------------------
  // The cluster

  type Cluster = map<string, Table>

  /** What became of one replica's write. */
  datatype Outcome = Acked | StoredSilently | Lost

  ghost predicate Hosts(c: Cluster, nodes: seq<Node>) {
    forall n :: n in nodes ==> n.id in c
  }

  /** The put's value at each listed replica it reached; peers receive it over the wire. */
  function Replicated(c: Cluster, nodes: seq<Node>, me: string, key: Key, v: VersionedValue,
                      outcome: string -> Outcome): Cluster {
    map id | id in c ::
      if HasId(nodes, id) && outcome(id) != Lost
      then c[id][key := if id == me then v else OverWire(v)]
      else c[id]
  }

  /** A delete's tombstones: each replica stamps its own, over its own clock. */
  function Deleted(c: Cluster, nodes: seq<Node>, key: Key, outcome: string -> Outcome, now: int): Cluster {
    map id | id in c ::
      if HasId(nodes, id) && outcome(id) != Lost
      then c[id][key := DeleteValue(c[id], key, id, now)]
      else c[id]
  }

  function AckedIds(nodes: seq<Node>, outcome: string -> Outcome): set<string> {
    set n | n in nodes && outcome(n.id).Acked? :: n.id
  }

  function Ids(nodes: seq<Node>): set<string> {
    set n | n in nodes :: n.id
  }

  lemma IdsAppend(nodes: seq<Node>, n: Node, outcome: string -> Outcome)
    ensures Ids(nodes + [n]) == Ids(nodes) + {n.id}
    ensures AckedIds(nodes + [n], outcome) ==
            AckedIds(nodes, outcome) + (if outcome(n.id).Acked? then {n.id} else {})
  {}

  lemma WithoutMe(nodes: seq<Node>, me: string, outcome: string -> Outcome)
    requires DistinctIds(nodes)
    ensures |nodes| == |Without(nodes, me)| + if HasId(nodes, me) then 1 else 0
    ensures |AckedIds(nodes, outcome)| == |AckedIds(Without(nodes, me), outcome)| +
            if HasId(nodes, me) && outcome(me).Acked? then 1 else 0
    ensures DistinctIds(Without(nodes, me))
  {
    WithoutShape(nodes, me);
    var acked, others := AckedIds(nodes, outcome), AckedIds(Without(nodes, me), outcome);
    assert me !in others;
    if HasId(nodes, me) && outcome(me).Acked? {
      assert acked == others + {me};
    } else {
      assert acked == others;
    }
  }

  lemma {:induction false} WithoutShape(nodes: seq<Node>, me: string)
    requires DistinctIds(nodes)
    ensures forall n :: n in Without(nodes, me) <==> n in nodes && n.id != me
    ensures DistinctIds(Without(nodes, me))
    ensures |nodes| == |Without(nodes, me)| + if HasId(nodes, me) then 1 else 0
  {
    if nodes != [] {
      var front, last := nodes[..|nodes| - 1], nodes[|nodes| - 1];
      assert nodes == front + [last];
      WithoutShape(front, me);
      HasIdConcat(front, [last]);
      HasIdSingle(last);
      DistinctSplits(front, last);
      if last.id != me { DistinctGrows(Without(front, me), last); }
    }
  }

  lemma DistinctSplits(front: seq<Node>, last: Node)
    requires DistinctIds(front + [last])
    ensures DistinctIds(front) && forall n :: n in front ==> n.id != last.id
  {
    var all := front + [last];
    assert forall i :: 0 <= i < |front| ==> all[i] == front[i];
    assert all[|front|] == last;
  }

  lemma DistinctGrows(ns: seq<Node>, last: Node)
    requires DistinctIds(ns) && forall n :: n in ns ==> n.id != last.id
    ensures DistinctIds(ns + [last])
  {
    assert forall i :: 0 <= i < |ns| ==> ns[i] in ns;
  }

  /** Nothing but `key` changes, and that only at listed replicas that were reached. */
  ghost predicate OnlyWrites(c: Cluster, c': Cluster, nodes: seq<Node>, key: Key, outcome: string -> Outcome) {
    && c'.Keys == c.Keys
    && (forall id, k :: id in c && k != key ==> Lookup(c'[id], k) == Lookup(c[id], k))
    && (forall id :: id in c && (!HasId(nodes, id) || outcome(id).Lost?) ==> c'[id] == c[id])
  }

  /** `t` holds at `key` a live-born entry of these bytes, time-to-live and clock, stamped `now`. */
  ghost predicate HoldsPut(t: Table, key: Key, value: Bytes, ttl: int, clock: Clock, now: int) {
    && key in t && !t[key].deleted
    && t[key].value == value && t[key].ttl == ttl && t[key].clock == clock && t[key].timestamp == now
  }

  /** `t` holds at `key` an empty five-minute tombstone of `id` over what `was` held there. */
  ghost predicate HoldsTombstone(t: Table, was: Table, key: Key, id: string, now: int) {
    && key in t && t[key].deleted
    && t[key].value == [] && t[key].ttl == 300_000 && t[key].timestamp == now
    && (forall n :: Count(t[key].clock, n) ==
          Count(if key in was then was[key].clock else map[], n) + if n == id then 1 else 0)
  }

  /** Every listed replica reached holds the put, whether it acknowledged or not. */
  ghost predicate PutHeld(c: Cluster, nodes: seq<Node>, key: Key, value: Bytes, ttl: int, clock: Clock, now: int,
                          outcome: string -> Outcome) {
    forall id :: id in c && HasId(nodes, id) && !outcome(id).Lost? ==> HoldsPut(c[id], key, value, ttl, clock, now)
  }

  /** Every listed replica reached holds its own tombstone, whether it acknowledged or not. */
  ghost predicate TombstonesHeld(c: Cluster, was: Cluster, nodes: seq<Node>, key: Key, now: int,
                                 outcome: string -> Outcome)
    requires c.Keys == was.Keys
  {
    forall id :: id in c && HasId(nodes, id) && !outcome(id).Lost? ==> HoldsTombstone(c[id], was[id], key, id, now)
  }

  lemma AckedAre(nodes: seq<Node>, outcome: string -> Outcome)
    ensures AckedIds(nodes, outcome) == set n | n in nodes && outcome(n.id) == Acked :: n.id
  {}

  lemma ReplicatedHolds(c: Cluster, nodes: seq<Node>, me: string, key: Key, value: Bytes, ttl: int, now: int,
                        outcome: string -> Outcome)
    requires me in c
    ensures var v := PutRawValue(c[me], key, value, me, ttl, now);
            var c' := Replicated(c, nodes, me, key, v, outcome);
            && OnlyWrites(c, c', nodes, key, outcome)
            && PutHeld(c', nodes, key, value, ttl, v.clock, now, outcome)
  {
    PutRawStores(c[me], key, value, me, ttl, now);
  }

  lemma DeletedHolds(c: Cluster, nodes: seq<Node>, key: Key, outcome: string -> Outcome, now: int)
    ensures var c' := Deleted(c, nodes, key, outcome, now);
            && OnlyWrites(c, c', nodes, key, outcome)
            && TombstonesHeld(c', c, nodes, key, now, outcome)
  {
    var c' := Deleted(c, nodes, key, outcome, now);
    forall id | id in c && HasId(nodes, id) && !outcome(id).Lost?
      ensures HoldsTombstone(c'[id], c[id], key, id, now)
    {
      DeleteStores(c[id], key, id, now);
    }
  }

  /** Coordinated put: local write first, then the peers', whose answers are counted. */
  method Put(c: Cluster, nodes: seq<Node>, me: string, key: Key, value: Bytes, ttl: int, now: int,
             quorum: QuorumConfig, overrideW: nat, outcome: string -> Outcome)
    returns (result: QuorumResult<Clock>, c': Cluster)
    requires Hosts(c, nodes) && me in c && DistinctIds(nodes)
    ensures var v := PutRawValue(c[me], key, value, me, ttl, now);
            && c' == Replicated(c, nodes, me, key, v, outcome)
            && result.value == Some(v.clock)
    ensures OnlyWrites(c, c', nodes, key, outcome)
    ensures PutHeld(c', nodes, key, value, ttl, result.value.value, now, outcome)
    ensures result.successes == |set n | n in nodes && outcome(n.id) == Acked :: n.id|
    ensures result.successes + result.failures == |nodes|
    ensures result.required == if overrideW > 0 then overrideW else quorum.writeQuorum
    ensures result.IsSuccess() <==> result.successes >= result.required
  {
    var versioned := PutRawValue(c[me], key, value, me, ttl, now);
    var successes, failures := 0, 0;
    WithoutMe(nodes, me, outcome);
    AckedAre(nodes, outcome);
    WithoutSubset(nodes, me);
    ReplicatedHolds(c, nodes, me, key, value, ttl, now, outcome);
    ReplicatedInSteps(c, nodes, me, key, versioned, outcome);
    c' := c;
    if HasId(nodes, me) {
      if !outcome(me).Lost? { c' := c'[me := c'[me][key := versioned]]; }
      if outcome(me).Acked? { successes := 1; } else { failures := 1; }
    }
    c' := SendPuts(c', Without(nodes, me), key, versioned, outcome);
    var s, f := CountAnswers(Without(nodes, me), outcome);
    result := QuorumResult(Some(versioned.clock), successes + s, failures + f,
                           quorum.EffectiveWriteQuorum(overrideW));
  }

  /** Each peer reached puts what came over the wire. */
  method SendPuts(c: Cluster, peers: seq<Node>, key: Key, v: VersionedValue, outcome: string -> Outcome)
    returns (c': Cluster)
    requires Hosts(c, peers)
    ensures c' == SentPuts(c, peers, key, v, outcome)
  {
    c' := c;
    for i := 0 to |peers|
      invariant c' == SentPuts(c, peers[..i], key, v, outcome)
    {
      var id := peers[i].id;
      SentPutsNext(c, peers, i, key, v, outcome);
      assert peers[i] in peers;
      if !outcome(id).Lost? {
        c' := c'[id := c'[id][key := OverWire(v)]];
      }
    }
    assert peers[..|peers|] == peers;
  }

  function SentPuts(c: Cluster, peers: seq<Node>, key: Key, v: VersionedValue, outcome: string -> Outcome): Cluster {
    map id | id in c :: if HasId(peers, id) && !outcome(id).Lost? then c[id][key := OverWire(v)] else c[id]
  }

  lemma SentPutsNext(c: Cluster, peers: seq<Node>, i: nat, key: Key, v: VersionedValue, outcome: string -> Outcome)
    requires i < |peers| && peers[i].id in c
    ensures var before, id := SentPuts(c, peers[..i], key, v, outcome), peers[i].id;
            SentPuts(c, peers[..i + 1], key, v, outcome) ==
            if outcome(id).Lost? then before else before[id := before[id][key := OverWire(v)]]
  {
    HasIdNext(peers, i);
    var id, w := peers[i].id, OverWire(v);
    assert c[id][key := w][key := w] == c[id][key := w];
  }

  lemma ReplicatedInSteps(c: Cluster, nodes: seq<Node>, me: string, key: Key, v: VersionedValue,
                          outcome: string -> Outcome)
    requires me in c
    ensures var local := if HasId(nodes, me) && !outcome(me).Lost? then c[me := c[me][key := v]] else c;
            SentPuts(local, Without(nodes, me), key, v, outcome) == Replicated(c, nodes, me, key, v, outcome)
  {
    WithoutIds(nodes, me);
  }

  lemma DeletedInSteps(c: Cluster, nodes: seq<Node>, me: string, key: Key, outcome: string -> Outcome, now: int)
    requires me in c
    ensures var local := if HasId(nodes, me) && !outcome(me).Lost?
                         then c[me := c[me][key := DeleteValue(c[me], key, me, now)]] else c;
            Deleted(local, Without(nodes, me), key, outcome, now) == Deleted(c, nodes, key, outcome, now)
  {
    WithoutIds(nodes, me);
  }

  lemma HasIdNext(ns: seq<Node>, i: nat)
    requires i < |ns|
    ensures forall id :: HasId(ns[..i + 1], id) <==> HasId(ns[..i], id) || id == ns[i].id
  {
    assert ns[..i + 1] == ns[..i] + [ns[i]];
    HasIdConcat(ns[..i], [ns[i]]);
    HasIdSingle(ns[i]);
  }

  /** Coordinated delete: the same counting; every reached replica stamps its own tombstone. */
  method Delete(c: Cluster, nodes: seq<Node>, me: string, key: Key, now: int,
                quorum: QuorumConfig, overrideW: nat, outcome: string -> Outcome)
    returns (result: QuorumResult<()>, c': Cluster)
    requires Hosts(c, nodes) && me in c && DistinctIds(nodes)
    ensures c' == Deleted(c, nodes, key, outcome, now)
    ensures OnlyWrites(c, c', nodes, key, outcome)
    ensures TombstonesHeld(c', c, nodes, key, now, outcome)
    ensures result.successes == |set n | n in nodes && outcome(n.id) == Acked :: n.id|
    ensures result.successes + result.failures == |nodes|
    ensures result.required == if overrideW > 0 then overrideW else quorum.writeQuorum
  {
    var successes, failures := 0, 0;
    WithoutMe(nodes, me, outcome);
    AckedAre(nodes, outcome);
    WithoutSubset(nodes, me);
    DeletedHolds(c, nodes, key, outcome, now);
    DeletedInSteps(c, nodes, me, key, outcome, now);
    c' := c;
    if HasId(nodes, me) {
      if !outcome(me).Lost? { c' := c'[me := c'[me][key := DeleteValue(c[me], key, me, now)]]; }
      if outcome(me).Acked? { successes := 1; } else { failures := 1; }
    }
    c' := SendDeletes(c', Without(nodes, me), key, outcome, now);
    var s, f := CountAnswers(Without(nodes, me), outcome);
    result := QuorumResult(Some(()), successes + s, failures + f, quorum.EffectiveWriteQuorum(overrideW));
  }

  /** Each peer reached deletes for itself; the clock sent along is not used. */
  method SendDeletes(c: Cluster, peers: seq<Node>, key: Key, outcome: string -> Outcome, now: int)
    returns (c': Cluster)
    requires DistinctIds(peers) && Hosts(c, peers)
    ensures c' == Deleted(c, peers, key, outcome, now)
  {
    c' := c;
    for i := 0 to |peers|
      invariant c' == Deleted(c, peers[..i], key, outcome, now)
    {
      var id := peers[i].id;
      DeletedNext(c, peers, i, key, outcome, now);
      assert peers[i] in peers;
      if !outcome(id).Lost? {
        c' := c'[id := c'[id][key := DeleteValue(c'[id], key, id, now)]];
      }
    }
    assert peers[..|peers|] == peers;
  }

  lemma DeletedNext(c: Cluster, peers: seq<Node>, i: nat, key: Key, outcome: string -> Outcome, now: int)
    requires DistinctIds(peers) && i < |peers| && peers[i].id in c
    ensures var before, id := Deleted(c, peers[..i], key, outcome, now), peers[i].id;
            Deleted(c, peers[..i + 1], key, outcome, now) ==
            if outcome(id).Lost? then before else before[id := before[id][key := DeleteValue(before[id], key, id, now)]]
  {
    HasIdNext(peers, i);
    assert !HasId(peers[..i], peers[i].id);
  }

  method CountAnswers(peers: seq<Node>, outcome: string -> Outcome) returns (successes: nat, failures: nat)
    requires DistinctIds(peers)
    ensures successes == |AckedIds(peers, outcome)| && successes + failures == |peers|
  {
    successes, failures := 0, 0;
    for i := 0 to |peers|
      invariant successes == |AckedIds(peers[..i], outcome)| && successes + failures == i
    {
      assert peers[..i + 1] == peers[..i] + [peers[i]];
      IdsAppend(peers[..i], peers[i], outcome);
      forall n | n in peers[..i] ensures n.id != peers[i].id {
        var j :| 0 <= j < i && peers[j] == n;
      }
      if outcome(peers[i].id).Acked? {
        successes := successes + 1;
      } else {
        failures := failures + 1;
      }
    }
    assert peers[..|peers|] == peers;
  }

  // ------------------------------------------------------------------------------
  // Reads

  /** One peer's contribution: nothing if it does not answer, else its raw entry over the wire. */
  function PeerResponse(c: Cluster, id: string, key: Key, answers: string -> bool): Option<VersionedValue>
    requires id in c
  {
    if answers(id) && key in c[id] then Some(OverWire(c[id][key])) else None
  }

  function PeerResponses(c: Cluster, peers: seq<Node>, key: Key, answers: string -> bool)
    : seq<Option<VersionedValue>>
    requires forall n :: n in peers ==> n.id in c
  {
    seq(|peers|, i requires 0 <= i < |peers| => assert peers[i] in peers; PeerResponse(c, peers[i].id, key, answers))
  }

  /** All responses of a get: the coordinator's own raw entry if it is listed, then the peers'. */
  function Responses(c: Cluster, nodes: seq<Node>, me: string, key: Key, answers: string -> bool)
    : seq<Option<VersionedValue>>
    requires (forall n :: n in nodes ==> n.id in c) && me in c
  {
    WithoutSubset(nodes, me);
    (if HasId(nodes, me) then [Lookup(c[me], key)] else [])
      + PeerResponses(c, Without(nodes, me), key, answers)
  }

  lemma {:induction false} WithoutSubset(nodes: seq<Node>, me: string)
    ensures forall n :: n in Without(nodes, me) ==> n in nodes
  {
    if nodes != [] { WithoutSubset(nodes[..|nodes| - 1], me); }
  }

  method Get(c: Cluster, nodes: seq<Node>, me: string, key: Key, now: int,
             quorum: QuorumConfig, overrideR: nat, answers: string -> bool)
    returns (result: QuorumResult<VersionedValue>)
    requires Hosts(c, nodes) && me in c && DistinctIds(nodes)
    ensures result.value == Resolved(Responses(c, nodes, me, key, answers), now)
    ensures result.successes == |nodes| && result.failures == 0
    ensures result.required == if overrideR > 0 then overrideR else quorum.readQuorum
    ensures result.IsSuccess() <==> |nodes| >= result.required
  {
    WithoutMe(nodes, me, _ => Acked);
    WithoutSubset(nodes, me);
    var responses: seq<Option<VersionedValue>>, successes := [], 0;
    if HasId(nodes, me) {
      responses, successes := [Lookup(c[me], key)], 1;
    }
    var peerResponses, attempts := AskPeers(c, Without(nodes, me), key, answers);
    responses := responses + peerResponses;
    var value := ResolveConflicts(responses, now);
    result := QuorumResult(value, successes + attempts, 0, quorum.EffectiveReadQuorum(overrideR));
  }

  /** Every attempt is counted, answered or not. */
  method AskPeers(c: Cluster, peers: seq<Node>, key: Key, answers: string -> bool)
    returns (responses: seq<Option<VersionedValue>>, attempts: nat)
    requires Hosts(c, peers)
    ensures responses == PeerResponses(c, peers, key, answers) && attempts == |peers|
  {
    responses, attempts := [], 0;
    for i := 0 to |peers|
      invariant attempts == i && responses == PeerResponses(c, peers, key, answers)[..i]
    {
      assert peers[i] in peers;
      attempts := attempts + 1;
      responses := responses + [PeerResponse(c, peers[i].id, key, answers)];
    }
  }

  /** A response is the coordinator's own entry or an answering peer's entry over the wire. */
  lemma ResponseOrigin(c: Cluster, nodes: seq<Node>, me: string, key: Key, answers: string -> bool, r: VersionedValue)
    requires Hosts(c, nodes) && me in c
    ensures Some(r) in Responses(c, nodes, me, key, answers) <==>
            || (HasId(nodes, me) && key in c[me] && r == c[me][key])
            || (exists id :: HasId(nodes, id) && id != me && id in c && answers(id)
                             && key in c[id] && r == OverWire(c[id][key]))
  {
    var peers := Without(nodes, me);
    WithoutSubset(nodes, me);
    WithoutIds(nodes, me);
    var rs := PeerResponses(c, peers, key, answers);
    var all := Responses(c, nodes, me, key, answers);
    if Some(r) in all && !(HasId(nodes, me) && key in c[me] && r == c[me][key]) {
      assert Some(r) in rs;
      var i :| 0 <= i < |rs| && rs[i] == Some(r);
      assert peers[i] in peers && HasId(peers, peers[i].id);
    }
    if id :| HasId(nodes, id) && id != me && id in c && answers(id) && key in c[id] && r == OverWire(c[id][key]) {
      assert HasId(peers, id);
      var i :| 0 <= i < |peers| && peers[i].id == id;
      assert rs[i] == Some(r);
      assert Some(r) in rs;
    }
  }

  /**
   What a get finds: it returns a value exactly when the listed coordinator holds a live entry
   or an answering peer holds an unexpired one, tombstones included.
   */
  lemma GetFindsIff(c: Cluster, nodes: seq<Node>, me: string, key: Key, answers: string -> bool, now: int)
    requires Hosts(c, nodes) && me in c
    ensures Resolved(Responses(c, nodes, me, key, answers), now).Some? <==>
            || (HasId(nodes, me) && key in c[me] && Live(c[me][key], now))
            || (exists id :: HasId(nodes, id) && id != me && id in c && answers(id)
                             && key in c[id] && !Expired(c[id][key], now))
  {
    var rs := Responses(c, nodes, me, key, answers);
    ResolvedIsLiveResponse(rs, now);
    if Resolved(rs, now).Some? {
      ResponseOrigin(c, nodes, me, key, answers, Resolved(rs, now).value);
    }
    if HasId(nodes, me) && key in c[me] && Live(c[me][key], now) {
      ResponseOrigin(c, nodes, me, key, answers, c[me][key]);
      assert LiveIn(c[me][key], rs, now);
    }
    if id :| HasId(nodes, id) && id != me && id in c && answers(id) && key in c[id] && !Expired(c[id][key], now) {
      ResponseOrigin(c, nodes, me, key, answers, OverWire(c[id][key]));
      assert LiveIn(OverWire(c[id][key]), rs, now);
    }
  }

  /**
   A key deleted at every replica is still found, with an empty value, by a coordinator that
   is not one of them, until the tombstones expire.
   */
  lemma DeletedKeyFoundRemotely(c: Cluster, nodes: seq<Node>, me: string, key: Key, answers: string -> bool,
                                deletedAt: int, now: int)
    requires Hosts(c, nodes) && me in c && !HasId(nodes, me)
    requires exists id :: HasId(nodes, id) && answers(id)
    ensures var c' := Deleted(c, nodes, key, _ => Acked, deletedAt);
            var r := Resolved(Responses(c', nodes, me, key, answers), now);
            && (r.Some? <==> now <= deletedAt + 300_000)
            && (r.Some? ==> r.value.value == [] && !r.value.deleted)
  {
    var c' := Deleted(c, nodes, key, _ => Acked, deletedAt);
    GetFindsIff(c', nodes, me, key, answers, now);
    var id :| HasId(nodes, id) && answers(id);
    assert id in c' && key in c'[id];
    var rs := Responses(c', nodes, me, key, answers);
    if Resolved(rs, now).Some? {
      ResolvedIsLiveResponse(rs, now);
      ResponseOrigin(c', nodes, me, key, answers, Resolved(rs, now).value);
    }
  }

  // ------------------------------------------------------------------------------
  // Between a put and a get

  /** What may happen at the replicas without another write of the key. */
  datatype Event =
    | OtherWrite(id: string, key: Key, value: VersionedValue)
    | EvictAt(id: string)
    | ReopenAt(id: string, engine: Durability.State)
    | Elapse(later: int)

  datatype World = World(cluster: Cluster, now: int)

  function After1(w: World, e: Event): World {
    match e
    case OtherWrite(id, k, v) =>
      if id in w.cluster then w.(cluster := w.cluster[id := w.cluster[id][k := v]]) else w
    case EvictAt(id) =>
      if id in w.cluster then w.(cluster := w.cluster[id := Evicted(w.cluster[id], w.now)]) else w
    case ReopenAt(id, engine) =>
      if id in w.cluster then w.(cluster := w.cluster[id := Durability.Recovered(engine.disk)]) else w
    case Elapse(later) => if later > w.now then w.(now := later) else w
  }

  /** `engine` is what holds `t`: in its invariant, at most now, with no write of `key` in flight. */
  ghost predicate RunsOn(engine: Durability.State, t: Table, key: Key, now: int) {
    Durability.Inv(engine) && engine.mem == t && engine.now <= now && !Durability.KeyPending(engine.pending, key)
  }

  /** No write of `key`; a replica reopens on the disk of the engine it ran on. */
  ghost predicate Harmless(w: World, e: Event, key: Key) {
    match e
    case OtherWrite(id, k, v) => k != key
    case ReopenAt(id, engine) => id in w.cluster ==> RunsOn(engine, w.cluster[id], key, w.now)
    case _ => true
  }

  /** What an event at a known replica does there; the others and, but for the clock's own event, the time stay. */
  lemma EventDoes(w: World, e: Event, k: Key)
    requires e.Elapse? || e.id in w.cluster
    ensures var w' := After1(w, e);
            match e
            case Elapse(later) => w'.cluster == w.cluster && w'.now == if later > w.now then later else w.now
            case OtherWrite(id, key, v) =>
              w'.now == w.now && w'.cluster - {id} == w.cluster - {id} && id in w'.cluster
              && Lookup(w'.cluster[id], k) == if k == key then Some(v) else Lookup(w.cluster[id], k)
            case EvictAt(id) =>
              w'.now == w.now && w'.cluster - {id} == w.cluster - {id} && id in w'.cluster
              && Lookup(w'.cluster[id], k) ==
                 if k in w.cluster[id] && Expired(w.cluster[id][k], w.now) then None else Lookup(w.cluster[id], k)
            case ReopenAt(id, engine) =>
              w'.now == w.now && w'.cluster - {id} == w.cluster - {id} && id in w'.cluster
              && w'.cluster[id] == Durability.Recovered(engine.disk)
  {}

  function AfterAll(w: World, es: seq<Event>): World
    decreases |es|
  {
    if es == [] then w else AfterAll(After1(w, es[0]), es[1..])
  }

  ghost predicate AllHarmless(w: World, es: seq<Event>, key: Key)
    decreases |es|
  {
    es == [] || (Harmless(w, es[0], key) && AllHarmless(After1(w, es[0]), es[1..], key))
  }

  /** What an engine recovers still has every unexpired entry it held. */
  lemma RestartKeepsUnexpired(engine: Durability.State, t: Table, key: Key, v: VersionedValue, now: int)
    requires RunsOn(engine, t, key, now) && Lookup(t, key) == Some(v) && !Expired(v, now)
    ensures Lookup(Durability.Recovered(engine.disk), key) == Some(v)
  {
    Durability.RecoveredCoversMemory(engine, key, now);
  }

  lemma {:induction false} UnexpiredEntryStays(w: World, es: seq<Event>, key: Key, id: string, v: VersionedValue)
    requires AllHarmless(w, es, key)
    requires id in w.cluster && Lookup(w.cluster[id], key) == Some(v)
    requires !Expired(v, AfterAll(w, es).now)
    ensures var w' := AfterAll(w, es);
            && w'.cluster.Keys == w.cluster.Keys && w'.now >= w.now
            && Lookup(w'.cluster[id], key) == Some(v)
    decreases |es|
  {
    if es != [] {
      var w1 := After1(w, es[0]);
      TimeMovesForward(w1, es[1..]);
      assert !Expired(v, w1.now) && !Expired(v, w.now);
      if es[0].ReopenAt? && es[0].id == id {
        RestartKeepsUnexpired(es[0].engine, w.cluster[id], key, v, w.now);
      }
      UnexpiredEntryStays(w1, es[1..], key, id, v);
    }
  }

  lemma {:induction false} TimeMovesForward(w: World, es: seq<Event>)
    ensures AfterAll(w, es).now >= w.now && AfterAll(w, es).cluster.Keys == w.cluster.Keys
    decreases |es|
  {
    if es != [] { TimeMovesForward(After1(w, es[0]), es[1..]); }
  }

  // ------------------------------------------------------------------------------
  // Quorum intersection

  /** The listed replicas whose table a get really sees. */
  function Answering(nodes: seq<Node>, me: string, answers: string -> bool): set<string> {
    set n | n in nodes && (n.id == me || answers(n.id)) :: n.id
  }

  lemma {:induction false} Pigeonhole(a: set<string>, b: set<string>, all: set<string>)
    requires a <= all && b <= all && |a| + |b| > |all|
    ensures a * b != {}
  {
    assert |a + b| == |a| + |b| - |a * b|;
    SubsetSize(a + b, all);
  }

  /** A set has subsets of every size up to its own. */
  lemma {:induction false} SubsetOfSize(all: set<string>, n: nat) returns (s: set<string>)
    requires n <= |all|
    ensures s <= all && |s| == n
  {
    s := {};
    if n > 0 {
      var x :| x in all;
      var rest := SubsetOfSize(all - {x}, n - 1);
      s := rest + {x};
    }
  }

  /**
   The configuration's test is exact: no write quorum and read quorum of N replicas are disjoint
   if and only if R + W > N.
   */
  lemma StronglyConsistentIff(quorum: QuorumConfig, all: set<string>)
    requires |all| == quorum.replicationFactor
    ensures quorum.IsStronglyConsistent() <==>
            forall a, b :: a <= all && b <= all && |a| == quorum.writeQuorum && |b| == quorum.readQuorum ==> a * b != {}
  {
    if quorum.IsStronglyConsistent() {
      forall a, b | a <= all && b <= all && |a| == quorum.writeQuorum && |b| == quorum.readQuorum ensures a * b != {} {
        Pigeonhole(a, b, all);
      }
    } else {
      var a := SubsetOfSize(all, quorum.writeQuorum);
      assert |all - a| == |all| - |a|;
      var b := SubsetOfSize(all - a, quorum.readQuorum);
      assert a * b == {};
    }
  }

  /** Some replica both acknowledged the put and answers the get. */
  lemma QuorumsMeet(nodes: seq<Node>, n: nat, reader: string, outcome: string -> Outcome, answers: string -> bool)
    returns (id: string)
    requires DistinctIds(nodes) && |nodes| <= n
    requires |AckedIds(nodes, outcome)| + |Answering(nodes, reader, answers)| > n
    ensures HasId(nodes, id) && outcome(id).Acked? && (id == reader || answers(id))
  {
    DistinctIdCount(nodes);
    var a, b := AckedIds(nodes, outcome), Answering(nodes, reader, answers);
    Pigeonhole(a, b, Ids(nodes));
    id :| id in a * b;
  }

  /** The world right after a put of `v` through `writer`. */
  function AfterPut(w: World, nodes: seq<Node>, writer: string, key: Key, v: VersionedValue,
                    outcome: string -> Outcome): World {
    w.(cluster := Replicated(w.cluster, nodes, writer, key, v, outcome))
  }

  /** `got` is at least as new as `v` and not dominated by it. */
  ghost predicate NotOlder(got: VersionedValue, v: VersionedValue) {
    got.timestamp >= v.timestamp && !After(v.clock, got.clock)
  }

  /** Overlapping quorums over any list of at most `n` distinct replicas. */
  lemma QuorumIntersection(
    nodes: seq<Node>, n: nat, w: World, writer: string, key: Key, v: VersionedValue, outcome: string -> Outcome,
    events: seq<Event>, reader: string, answers: string -> bool, w': World)
    requires DistinctIds(nodes) && |nodes| <= n && Hosts(w.cluster, nodes) && reader in w.cluster && !v.deleted
    requires |AckedIds(nodes, outcome)| + |Answering(nodes, reader, answers)| > n
    requires AllHarmless(AfterPut(w, nodes, writer, key, v, outcome), events, key)
    requires w' == AfterAll(AfterPut(w, nodes, writer, key, v, outcome), events) && !Expired(v, w'.now)
    ensures Hosts(w'.cluster, nodes) && reader in w'.cluster
    ensures var rs := Responses(w'.cluster, nodes, reader, key, answers);
            var got := Resolved(rs, w'.now);
            Some(v) in rs && got.Some? && (ChainsCovered(rs, w'.now) ==> NotOlder(got.value, v))
  {
    var w1 := AfterPut(w, nodes, writer, key, v, outcome);
    var id := QuorumsMeet(nodes, n, reader, outcome, answers);
    TimeMovesForward(w1, events);
    WireRoundTrip(v, w'.now);
    UnexpiredEntryStays(w1, events, key, id, v);
    ReadSeesEntry(w'.cluster, nodes, reader, key, answers, w'.now, id, v);
  }

  /**
   Quorum intersection.  After a put that reports success, with no other write of the key
   and whatever evictions, restarts and other writes the replicas go through, a get that at
   least R listed replicas really answer has the written value among its responses while it
   is unexpired; when the losing ones among them are covered, as they are where dominance agrees
   with timestamps, the value returned is at least as new and not dominated by it.
   */
  lemma QuorumReadSeesWrite(
    ring: Ring, h: nat, nodes: seq<Node>, quorum: QuorumConfig, overrideW: nat, overrideR: nat,
    w: World, writer: string, key: Key, value: Bytes, ttl: int, v: VersionedValue, outcome: string -> Outcome,
    events: seq<Event>, reader: string, answers: string -> bool, w': World)
    requires quorum.replicationFactor >= 1 && nodes == PreferenceList(ring, h, quorum.replicationFactor)
    requires quorum.EffectiveReadQuorum(overrideR) + quorum.EffectiveWriteQuorum(overrideW) > quorum.replicationFactor
    requires |AckedIds(nodes, outcome)| >= quorum.EffectiveWriteQuorum(overrideW)
    requires |Answering(nodes, reader, answers)| >= quorum.EffectiveReadQuorum(overrideR)
    requires Hosts(w.cluster, nodes) && writer in w.cluster && reader in w.cluster
    requires v == PutRawValue(w.cluster[writer], key, value, writer, ttl, w.now)
    requires AllHarmless(AfterPut(w, nodes, writer, key, v, outcome), events, key)
    requires w' == AfterAll(AfterPut(w, nodes, writer, key, v, outcome), events) && !Expired(v, w'.now)
    ensures Hosts(w'.cluster, nodes) && reader in w'.cluster
    ensures var rs := Responses(w'.cluster, nodes, reader, key, answers);
            var got := Resolved(rs, w'.now);
            && v.value == value && v.timestamp == w.now && v.ttl == ttl
            && Some(v) in rs && got.Some? && (ChainsCovered(rs, w'.now) ==> NotOlder(got.value, v))
  {
    PutRawStores(w.cluster[writer], key, value, writer, ttl, w.now);
    PreferenceListShape(ring, h, quorum.replicationFactor);
    QuorumIntersection(nodes, quorum.replicationFactor, w, writer, key, v, outcome, events, reader, answers, w');
  }

  /** Under the configuration's own test, with no overrides. */
  lemma StronglyConsistentReadSeesWrite(
    ring: Ring, h: nat, nodes: seq<Node>, quorum: QuorumConfig,
    w: World, writer: string, key: Key, value: Bytes, ttl: int, v: VersionedValue, outcome: string -> Outcome,
    events: seq<Event>, reader: string, answers: string -> bool, w': World)
    requires quorum.IsStronglyConsistent()
    requires quorum.replicationFactor >= 1 && nodes == PreferenceList(ring, h, quorum.replicationFactor)
    requires |AckedIds(nodes, outcome)| >= quorum.writeQuorum
    requires |Answering(nodes, reader, answers)| >= quorum.readQuorum
    requires Hosts(w.cluster, nodes) && writer in w.cluster && reader in w.cluster
    requires v == PutRawValue(w.cluster[writer], key, value, writer, ttl, w.now)
    requires AllHarmless(AfterPut(w, nodes, writer, key, v, outcome), events, key)
    requires w' == AfterAll(AfterPut(w, nodes, writer, key, v, outcome), events) && !Expired(v, w'.now)
    ensures Hosts(w'.cluster, nodes) && reader in w'.cluster
    ensures var rs := Responses(w'.cluster, nodes, reader, key, answers);
            var got := Resolved(rs, w'.now);
            && v.value == value && v.timestamp == w.now && v.ttl == ttl
            && Some(v) in rs && got.Some? && (ChainsCovered(rs, w'.now) ==> NotOlder(got.value, v))
  {
    QuorumReadSeesWrite(
      ring, h, nodes, quorum, 0, 0, w, writer, key, value, ttl, v, outcome, events, reader, answers, w');
  }

  lemma ReadSeesEntry(c: Cluster, nodes: seq<Node>, reader: string, key: Key, answers: string -> bool, now: int,
                      id: string, v: VersionedValue)
    requires Hosts(c, nodes) && reader in c && id in c
    requires HasId(nodes, id) && (id == reader || answers(id))
    requires Lookup(c[id], key) == Some(v) && Live(v, now)
    ensures var rs := Responses(c, nodes, reader, key, answers);
            var got := Resolved(rs, now);
            Some(v) in rs && got.Some? && (ChainsCovered(rs, now) ==> NotOlder(got.value, v))
  {
    var rs := Responses(c, nodes, reader, key, answers);
    ResponseOrigin(c, nodes, reader, key, answers, v);
    assert LiveIn(v, rs, now);
    ResolvedIsLiveResponse(rs, now);
    if ChainsCovered(rs, now) { CoveredThenGreatest(rs, rs, now); }
  }

  /**
   With nobody answering a get finds nothing, although `Get` reports success on any list that
   is long enough.
   */
  lemma SilentReplicasFindNothing(c: Cluster, nodes: seq<Node>, me: string, key: Key, now: int)
    requires Hosts(c, nodes) && me in c && !HasId(nodes, me)
    ensures Resolved(Responses(c, nodes, me, key, _ => false), now).None?
  {
    GetFindsIff(c, nodes, me, key, _ => false, now);
  }
}
