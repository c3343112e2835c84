/**
 The consistent-hash ring (src/ring/consistent_hash.rs).  The hash is a parameter; positions
 are numbers.  The reference for a preference list is one clockwise rotation of the ring from
 the key's position, with repeated ids dropped.
 */
module HashRings {
  import opened Options
  import opened Ordered
  import Decimal

  datatype Node = Node(id: string, address: string)

  type Ring = map<nat, Node>
  type Hash = string -> nat

  // ------------------------------------------------------------------------------
  // Virtual nodes

  const INFIX := ":vnode:"

  function Label(id: string, i: nat): string {
    id + INFIX + Decimal.Render(i)
  }

  /** Distinct (id, index) pairs have distinct labels, whatever characters ids contain. */
  lemma LabelInjective(id: string, i: nat, id': string, i': nat)
    requires Label(id, i) == Label(id', i')
    ensures id == id' && i == i'
  {
    var d, d' := Decimal.Render(i), Decimal.Render(i');
    DigitsAtEnd(id, i, id', i');
    DigitsAtEnd(id', i', id, i);
    var s := Label(id, i);
    assert s[|s| - |d|..] == d && s[|s| - |d'|..] == d';
    Decimal.RenderInjective(i, i');
    assert s[..|s| - |d| - |INFIX|] == id && Label(id', i')[..|s| - |d'| - |INFIX|] == id';
  }

  lemma DigitsAtEnd(id: string, i: nat, id': string, i': nat)
    requires Label(id, i) == Label(id', i')
    ensures |Decimal.Render(i)| >= |Decimal.Render(i')|
  {
    var s, d := Label(id, i), Decimal.Render(i);
    assert s[|s| - 1 - |d|] == INFIX[|INFIX| - 1] == ':';
    if |d| < |Decimal.Render(i')| { DigitNearEnd(id', i', |d|); }
  }

  lemma DigitNearEnd(id: string, i: nat, k: nat)
    requires k < |Decimal.Render(i)|
    ensures var s := Label(id, i); k < |s| && '0' <= s[|s| - 1 - k] <= '9'
  {
    var s, d := Label(id, i), Decimal.Render(i);
    assert s[|s| - 1 - k] == d[|d| - 1 - k] && d[|d| - 1 - k] in d;
  }

  /** The positions of a node's first `n` virtual nodes. */
  function Positions(hash: Hash, id: string, n: nat): set<nat> {
    set i | 0 <= i < n :: hash(Label(id, i))
  }

  /** Inserting a node's virtual nodes, replacing whatever is at their positions. */
  function Placed(ring: Ring, node: Node, hash: Hash, n: nat): Ring {
    var ps := Positions(hash, node.id, n);
    map p | p in ring.Keys + ps :: if p in ps then node else ring[p]
  }

  function Removed(ring: Ring, id: string): Ring {
    map p | p in ring && ring[p].id != id :: ring[p]
  }

  /** Some virtual node of `id`, numbered from 0, hashes to `p`. */
  ghost predicate VirtualNodeAt(hash: Hash, id: string, n: nat, p: nat) {
    exists i: nat :: i < n && p == hash(id + ":vnode:" + Decimal.Render(i))
  }

  lemma PositionsIff(hash: Hash, id: string, n: nat, p: nat)
    ensures p in Positions(hash, id, n) <==> VirtualNodeAt(hash, id, n, p)
  {
    if p in Positions(hash, id, n) {
      var i :| 0 <= i < n && p == hash(Label(id, i));
      assert p == hash(id + ":vnode:" + Decimal.Render(i));
    }
    if i: nat :| i < n && p == hash(id + ":vnode:" + Decimal.Render(i)) {
      assert p == hash(Label(id, i));
    }
  }

  /** Placing a node puts it at each of its virtual nodes and changes nothing else. */
  lemma PlacedExactly(ring: Ring, node: Node, hash: Hash, n: nat)
    ensures var ring' := Placed(ring, node, hash, n);
            forall p ::
              if VirtualNodeAt(hash, node.id, n, p)
              then p in ring' && ring'[p] == node
              else (p in ring' <==> p in ring) && (p in ring ==> ring'[p] == ring[p])
  {
    forall p ensures p in Positions(hash, node.id, n) <==> VirtualNodeAt(hash, node.id, n, p) {
      PositionsIff(hash, node.id, n, p);
    }
  }

  // ------------------------------------------------------------------------------
  // Walks

  function From(ring: Ring, h: nat): (ps: seq<nat>)
    ensures Increasing(ps, Less) && forall p :: p in ps <==> p in ring && p >= h
  {
    LessStrictTotal();
    Sorted((set p: nat | p in ring && p >= h), Less)
  }

  function Before(ring: Ring, h: nat): (ps: seq<nat>)
    ensures Increasing(ps, Less) && forall p :: p in ps <==> p in ring && p < h
  {
    LessStrictTotal();
    Sorted((set p: nat | p in ring && p < h), Less)
  }

  function All(ring: Ring): (ps: seq<nat>)
    ensures Increasing(ps, Less) && forall p :: p in ps <==> p in ring
  {
    LessStrictTotal();
    Sorted(ring.Keys, Less)
  }

  lemma AllSplits(ring: Ring, h: nat)
    ensures All(ring) == Before(ring, h) + From(ring, h)
  {
    var a, b := Before(ring, h), From(ring, h);
    forall i, j | 0 <= i < j < |a + b| ensures Less((a + b)[i], (a + b)[j]) {
      assert i < |a| ==> a[i] in a;
      assert j >= |a| ==> b[j - |a|] in b;
    }
    LessStrictTotal();
    SortedUnique(All(ring), a + b, Less);
  }

  function NodesAt(ring: Ring, ps: seq<nat>): seq<Node>
    requires forall p :: p in ps ==> p in ring
  {
    seq(|ps|, i requires 0 <= i < |ps| => assert ps[i] in ps; ring[ps[i]])
  }

  /** The source's walk: clockwise to the end, then the whole ring again. */
  function Walk(ring: Ring, h: nat): seq<Node> {
    NodesAt(ring, From(ring, h)) + NodesAt(ring, All(ring))
  }

  /** One turn of the ring, clockwise from `h`. */
  function Rotation(ring: Ring, h: nat): seq<Node> {
    NodesAt(ring, From(ring, h)) + NodesAt(ring, Before(ring, h))
  }

  // ------------------------------------------------------------------------------
  // Dropping repeated ids

  predicate HasId(ns: seq<Node>, id: string) {
    exists n :: n in ns && n.id == id
  }

  ghost predicate DistinctIds(ns: seq<Node>) {
    forall i, j :: 0 <= i < j < |ns| ==> ns[i].id != ns[j].id
  }

  /** First occurrences, in order. */
  function Distinct(ns: seq<Node>): seq<Node> {
    if ns == [] then [] else
    var last, d := ns[|ns| - 1], Distinct(ns[..|ns| - 1]);
    if HasId(d, last.id) then d else d + [last]
  }

  lemma {:induction false} DistinctFacts(ns: seq<Node>)
    ensures DistinctIds(Distinct(ns))
    ensures forall id :: HasId(Distinct(ns), id) <==> HasId(ns, id)
    ensures forall n :: n in Distinct(ns) ==> n in ns
  {
    if ns != [] {
      var last, front := ns[|ns| - 1], ns[..|ns| - 1];
      var d := Distinct(front);
      DistinctFacts(front);
      assert ns == front + [last];
      HasIdConcat(front, [last]);
      HasIdConcat(d, [last]);
      HasIdSingle(last);
      assert forall i :: 0 <= i < |d| ==> d[i] in d;
    }
  }

  lemma HasIdSingle(n: Node)
    ensures forall id :: HasId([n], id) <==> n.id == id
  {
    forall id | n.id == id ensures HasId([n], id) { assert n in [n]; }
  }

  lemma HasIdConcat(a: seq<Node>, b: seq<Node>)
    ensures forall id :: HasId(a + b, id) <==> HasId(a, id) || HasId(b, id)
  {
    forall id ensures HasId(a + b, id) <==> HasId(a, id) || HasId(b, id) {
      if HasId(a, id) {
        var n :| n in a && n.id == id;
        assert n in a + b;
      }
      if HasId(b, id) {
        var n :| n in b && n.id == id;
        assert n in a + b;
      }
    }
  }

  lemma {:induction false} DistinctPrefix(ns: seq<Node>, i: nat)
    requires i <= |ns|
    ensures Distinct(ns[..i]) <= Distinct(ns)
  {
    if i == |ns| {
      assert ns[..i] == ns;
    } else {
      assert ns[..|ns| - 1][..i] == ns[..i];
      DistinctPrefix(ns[..|ns| - 1], i);
    }
  }

  /** Walking on over ids already seen adds nothing. */
  lemma {:induction false} DistinctAbsorbs(a: seq<Node>, b: seq<Node>)
    requires forall n :: n in b ==> HasId(a, n.id)
    ensures Distinct(a + b) == Distinct(a)
  {
    if b == [] {
      assert a + b == a;
    } else {
      var front := b[..|b| - 1];
      assert (a + b)[..|a + b| - 1] == a + front;
      DistinctAbsorbs(a, front);
      DistinctFacts(a);
      assert b[|b| - 1] in b;
    }
  }

  lemma DistinctSecondTurn(a: seq<Node>, b: seq<Node>)
    ensures Distinct(a + (b + a)) == Distinct(a + b)
  {
    assert a + (b + a) == (a + b) + a;
    forall n | n in a ensures HasId(a + b, n.id) { assert n in a + b; }
    DistinctAbsorbs(a + b, a);
  }

  lemma NodesAtConcat(ring: Ring, ps: seq<nat>, qs: seq<nat>)
    requires (forall p :: p in ps ==> p in ring) && (forall p :: p in qs ==> p in ring)
    ensures (forall p :: p in ps + qs ==> p in ring)
    ensures NodesAt(ring, ps + qs) == NodesAt(ring, ps) + NodesAt(ring, qs)
  {}

  /** The source's longer walk has the same first occurrences as one rotation. */
  lemma WalkIsOneRotation(ring: Ring, h: nat)
    ensures Distinct(Walk(ring, h)) == Distinct(Rotation(ring, h))
  {
    AllSplits(ring, h);
    NodesAtConcat(ring, Before(ring, h), From(ring, h));
    DistinctSecondTurn(NodesAt(ring, From(ring, h)), NodesAt(ring, Before(ring, h)));
  }

  // ------------------------------------------------------------------------------
  // Preference lists

  /** At least one node is listed even for a replication factor of 0. */
  function Wanted(rf: nat): nat { if rf == 0 then 1 else rf }

  function PreferenceList(ring: Ring, h: nat, rf: nat): seq<Node> {
    Take(Distinct(Rotation(ring, h)), Wanted(rf))
  }

  /** The first node at or after `h`, or else the first on the ring. */
  function Primary(ring: Ring, h: nat): Option<Node> {
    if ring == map[] then None
    else if From(ring, h) != [] then
      assert From(ring, h)[0] in From(ring, h);
      Some(ring[From(ring, h)[0]])
    else
      assert All(ring) != [] by { var p :| p in ring; assert p in All(ring); }
      assert All(ring)[0] in All(ring);
      Some(ring[All(ring)[0]])
  }

  function RingIds(ring: Ring): set<string> {
    set p | p in ring :: ring[p].id
  }

  lemma {:induction false} DistinctIdCount(ns: seq<Node>)
    requires DistinctIds(ns)
    ensures |set n | n in ns :: n.id| == |ns|
  {
    if ns != [] {
      var last, front := ns[|ns| - 1], ns[..|ns| - 1];
      DistinctIdCount(front);
      var ids := set n | n in front :: n.id;
      assert last.id !in ids;
      assert ns == front + [last];
      assert (set n | n in ns :: n.id) == ids + {last.id};
    }
  }

  lemma NodesAtIds(ring: Ring, ps: seq<nat>, id: string)
    requires forall p :: p in ps ==> p in ring
    ensures HasId(NodesAt(ring, ps), id) <==> exists p :: p in ps && ring[p].id == id
  {
    var ns := NodesAt(ring, ps);
    if HasId(ns, id) {
      var i :| 0 <= i < |ns| && ns[i].id == id;
      assert ps[i] in ps && ring[ps[i]].id == id;
    }
    if p :| p in ps && ring[p].id == id {
      var i :| 0 <= i < |ps| && ps[i] == p;
      assert ns[i] in ns;
    }
  }

  lemma RotationIds(ring: Ring, h: nat)
    ensures forall id :: HasId(Rotation(ring, h), id) <==> id in RingIds(ring)
  {
    forall id ensures HasId(Rotation(ring, h), id) <==> id in RingIds(ring) {
      HasIdConcat(NodesAt(ring, From(ring, h)), NodesAt(ring, Before(ring, h)));
      NodesAtIds(ring, From(ring, h), id);
      NodesAtIds(ring, Before(ring, h), id);
      if id in RingIds(ring) {
        var p :| p in ring && ring[p].id == id;
        assert p in From(ring, h) || p in Before(ring, h);
      }
    }
  }

  /** Ids are distinct, and there are min(rf, number of ids) of them. */
  lemma PreferenceListShape(ring: Ring, h: nat, rf: nat)
    ensures DistinctIds(PreferenceList(ring, h, rf))
    ensures forall n :: n in PreferenceList(ring, h, rf) ==> n.id in RingIds(ring)
    ensures rf >= 1 ==> |PreferenceList(ring, h, rf)| == if |RingIds(ring)| <= rf then |RingIds(ring)| else rf
    ensures rf == 0 ==> |PreferenceList(ring, h, rf)| == if ring == map[] then 0 else 1
    ensures PreferenceList(ring, h, rf) <= PreferenceList(ring, h, rf + 1)
  {
    var d := Distinct(Rotation(ring, h));
    RotationIds(ring, h);
    DistinctFacts(Rotation(ring, h));
    DistinctIdCount(d);
    forall n | n in d ensures n.id in RingIds(ring) {
      assert HasId(d, n.id);
    }
    forall id | id in RingIds(ring) ensures id in (set n | n in d :: n.id) {
      assert HasId(d, id);
    }
    assert (set n | n in d :: n.id) == RingIds(ring);
    if p :| p in ring { assert ring[p].id in RingIds(ring); }
  }

  lemma DistinctHead(ns: seq<Node>)
    requires ns != []
    ensures Distinct(ns) != [] && Distinct(ns)[0] == ns[0]
  {
    DistinctPrefix(ns, 1);
    assert ns[..1][..0] == [] && Distinct(ns[..1]) == [ns[0]];
  }

  /** The head of the preference list is the primary. */
  lemma PreferenceListHead(ring: Ring, h: nat, rf: nat)
    requires ring != map[]
    ensures PreferenceList(ring, h, rf) != []
    ensures Primary(ring, h) == Some(PreferenceList(ring, h, rf)[0])
  {
    AllSplits(ring, h);
    var p :| p in ring;
    assert p in All(ring);
    DistinctHead(Rotation(ring, h));
  }

  // ------------------------------------------------------------------------------
  // The ring object

  /** `seen` holds the ids of `ns`. */
  ghost predicate Tracks(seen: set<string>, ns: seq<Node>) {
    forall id :: id in seen <==> HasId(ns, id)
  }

  lemma TracksNext(seen: set<string>, walk: seq<Node>, i: nat)
    requires i < |walk| && Tracks(seen, Distinct(walk[..i]))
    ensures Distinct(walk[..i + 1]) ==
            Distinct(walk[..i]) + if walk[i].id in seen then [] else [walk[i]]
    ensures Tracks(seen + {walk[i].id}, Distinct(walk[..i + 1]))
  {
    assert walk[..i + 1][..i] == walk[..i];
    HasIdConcat(Distinct(walk[..i]), [walk[i]]);
    HasIdSingle(walk[i]);
  }

  /** Walk until `target` distinct ids are found; the test follows the push. */
  method FirstDistinct(walk: seq<Node>, target: nat) returns (result: seq<Node>)
    ensures result == Take(Distinct(walk), if target == 0 then 1 else target)
  {
    result := [];
    var seen: set<string> := {};
    for i := 0 to |walk|
      invariant result == Distinct(walk[..i]) && |result| < Wanted(target) && Tracks(seen, result)
    {
      TracksNext(seen, walk, i);
      if walk[i].id in seen {
        assert seen + {walk[i].id} == seen;
        continue;
      }
      seen := seen + {walk[i].id};
      result := result + [walk[i]];
      if |result| >= target {
        DistinctPrefix(walk, i + 1);
        return;
      }
    }
    assert walk[..|walk|] == walk;
  }

  method AllDistinct(walk: seq<Node>) returns (nodes: seq<Node>)
    ensures nodes == Distinct(walk)
  {
    nodes := [];
    var seen: set<string> := {};
    for i := 0 to |walk|
      invariant nodes == Distinct(walk[..i]) && Tracks(seen, nodes)
    {
      TracksNext(seen, walk, i);
      if walk[i].id !in seen {
        nodes := nodes + [walk[i]];
      }
      seen := seen + {walk[i].id};
    }
    assert walk[..|walk|] == walk;
  }

  class HashRing {
    var ring: Ring
    const vnodes: nat
    const rf: nat
    const hash: Hash

    constructor (vnodes: nat, rf: nat, hash: Hash)
      ensures ring == map[] && this.vnodes == vnodes && this.rf == rf && this.hash == hash
    {
      ring, this.vnodes, this.rf, this.hash := map[], vnodes, rf, hash;
    }

    method AddNode(node: Node)
      modifies this
      ensures ring == Placed(old(ring), node, hash, vnodes)
    {
      assert Placed(ring, node, hash, 0) == ring;
      for i := 0 to vnodes
        invariant ring == Placed(old(ring), node, hash, i)
      {
        assert Positions(hash, node.id, i + 1) == Positions(hash, node.id, i) + {hash(Label(node.id, i))};
        ring := ring[hash(Label(node.id, i)) := node];
      }
    }

    method RemoveNode(id: string)
      modifies this
      ensures ring == Removed(old(ring), id)
      ensures forall p :: p in ring <==> p in old(ring) && old(ring)[p].id != id
      ensures forall p :: p in ring ==> ring[p] == old(ring)[p]
    {
      ring := map p | p in ring && ring[p].id != id :: ring[p];
    }

    function GetNode(key: string): Option<Node>
      reads this
    {
      Primary(ring, hash(key))
    }

    method GetNodes(key: string) returns (result: seq<Node>)
      ensures result == PreferenceList(ring, hash(key), rf)
      ensures DistinctIds(result) && forall n :: n in result ==> n.id in RingIds(ring)
      ensures rf >= 1 ==> |result| == if |RingIds(ring)| <= rf then |RingIds(ring)| else rf
      ensures rf == 0 ==> |result| == if ring == map[] then 0 else 1
    {
      PreferenceListShape(ring, hash(key), rf);
      WalkIsOneRotation(ring, hash(key));
      if ring == map[] {
        assert Rotation(ring, hash(key)) == [];
        return [];
      }
      result := FirstDistinct(Walk(ring, hash(key)), rf);
    }

    method GetAllNodes() returns (nodes: seq<Node>)
      ensures nodes == Distinct(NodesAt(ring, All(ring)))
      ensures DistinctIds(nodes) && forall id :: HasId(nodes, id) <==> id in RingIds(ring)
    {
      DistinctFacts(NodesAt(ring, All(ring)));
      forall id ensures HasId(NodesAt(ring, All(ring)), id) <==> id in RingIds(ring) {
        NodesAtIds(ring, All(ring), id);
      }
      nodes := AllDistinct(NodesAt(ring, All(ring)));
    }

    method IsResponsible(id: string, key: string) returns (r: bool)
      ensures r <==> HasId(PreferenceList(ring, hash(key), rf), id)
    {
      var nodes := GetNodes(key);
      r := exists n :: n in nodes && n.id == id;
    }
  }
}
