/** The ring as the image of a membership map, and how far a change of members disturbs it. */
module RingMembership {
  import opened Options
  import opened Ordered
  import opened HashRings

  // ------------------------------------------------------------------------------
  // The ring refines a map from id to node

  type Members = map<string, Node>

  /** No virtual nodes of two of these ids collide. */
  ghost predicate NoCollision(hash: Hash, vnodes: nat, ids: set<string>) {
    forall a, b :: a in ids && b in ids && a != b ==> Positions(hash, a, vnodes) !! Positions(hash, b, vnodes)
  }

  /** Every member owns all its positions, with its one address, and nothing else is on the ring. */
  ghost predicate IsImage(ring: Ring, members: Members, hash: Hash, vnodes: nat) {
    && (forall id :: id in members ==> members[id].id == id)
    && (forall id, p :: id in members && p in Positions(hash, id, vnodes) ==> p in ring && ring[p] == members[id])
    && (forall p :: p in ring ==> ring[p].id in members && p in Positions(hash, ring[p].id, vnodes))
  }

  lemma ImageAdd(ring: Ring, members: Members, node: Node, hash: Hash, vnodes: nat)
    requires IsImage(ring, members, hash, vnodes) && NoCollision(hash, vnodes, members.Keys + {node.id})
    ensures IsImage(Placed(ring, node, hash, vnodes), members[node.id := node], hash, vnodes)
  {
    var ring', members' := Placed(ring, node, hash, vnodes), members[node.id := node];
    forall id, p | id in members' && p in Positions(hash, id, vnodes)
      ensures p in ring' && ring'[p] == members'[id]
    {
      PlacedPosition(ring, members, node, hash, vnodes, id, p);
    }
    forall p | p in ring' ensures ring'[p].id in members' && p in Positions(hash, ring'[p].id, vnodes) {
      PlacedEntry(ring, members, node, hash, vnodes, p);
    }
  }

  lemma PlacedEntry(ring: Ring, members: Members, node: Node, hash: Hash, vnodes: nat, p: nat)
    requires IsImage(ring, members, hash, vnodes) && p in Placed(ring, node, hash, vnodes)
    ensures var n := Placed(ring, node, hash, vnodes)[p];
            (n.id in members || n.id == node.id) && p in Positions(hash, n.id, vnodes)
  {}

  lemma PlacedPosition(ring: Ring, members: Members, node: Node, hash: Hash, vnodes: nat, id: string, p: nat)
    requires IsImage(ring, members, hash, vnodes) && NoCollision(hash, vnodes, members.Keys + {node.id})
    requires (id in members || id == node.id) && p in Positions(hash, id, vnodes)
    ensures var ring' := Placed(ring, node, hash, vnodes); p in ring' && ring'[p] == members[node.id := node][id]
  {
    if id != node.id {
      assert Positions(hash, id, vnodes) !! Positions(hash, node.id, vnodes);
    }
  }

  lemma ImageRemove(ring: Ring, members: Members, id: string, hash: Hash, vnodes: nat)
    requires IsImage(ring, members, hash, vnodes)
    ensures IsImage(Removed(ring, id), members - {id}, hash, vnodes)
  {}

  datatype RingOp = Add(node: Node) | Remove(id: string)

  function RingAfter(ops: seq<RingOp>, hash: Hash, vnodes: nat): Ring {
    if ops == [] then map[] else
    var ring := RingAfter(ops[..|ops| - 1], hash, vnodes);
    match ops[|ops| - 1]
    case Add(node) => Placed(ring, node, hash, vnodes)
    case Remove(id) => Removed(ring, id)
  }

  function MembersAfter(ops: seq<RingOp>): Members {
    if ops == [] then map[] else
    var members := MembersAfter(ops[..|ops| - 1]);
    match ops[|ops| - 1]
    case Add(node) => members[node.id := node]
    case Remove(id) => members - {id}
  }

  function AddedIds(ops: seq<RingOp>): set<string> {
    set op | op in ops && op.Add? :: op.node.id
  }

  lemma NoCollisionSubset(hash: Hash, vnodes: nat, ids: set<string>, some: set<string>)
    requires NoCollision(hash, vnodes, ids) && some <= ids
    ensures NoCollision(hash, vnodes, some)
  {}

  /** After any run of additions and removals the ring is the image of the final membership. */
  lemma {:induction false} RingIsImage(ops: seq<RingOp>, hash: Hash, vnodes: nat)
    requires NoCollision(hash, vnodes, AddedIds(ops))
    ensures IsImage(RingAfter(ops, hash, vnodes), MembersAfter(ops), hash, vnodes)
    ensures MembersAfter(ops).Keys <= AddedIds(ops)
  {
    if ops != [] {
      var front, last := ops[..|ops| - 1], ops[|ops| - 1];
      assert ops == front + [last];
      assert AddedIds(front) <= AddedIds(ops);
      NoCollisionSubset(hash, vnodes, AddedIds(ops), AddedIds(front));
      RingIsImage(front, hash, vnodes);
      var ring, members := RingAfter(front, hash, vnodes), MembersAfter(front);
      match last
      case Add(node) =>
        assert last in ops && node.id in AddedIds(ops);
        NoCollisionSubset(hash, vnodes, AddedIds(ops), members.Keys + {node.id});
        ImageAdd(ring, members, node, hash, vnodes);
      case Remove(id) =>
        ImageRemove(ring, members, id, hash, vnodes);
    }
  }

  lemma ImageUnique(r: Ring, s: Ring, members: Members, hash: Hash, vnodes: nat)
    requires IsImage(r, members, hash, vnodes) && IsImage(s, members, hash, vnodes)
    ensures r == s
  {
    forall p | p in r ensures p in s && s[p] == r[p] {
      assert p in Positions(hash, r[p].id, vnodes);
    }
    forall p | p in s ensures p in r {
      assert p in Positions(hash, s[p].id, vnodes);
    }
  }

  /** Final membership alone decides the ring, whatever history led to it. */
  lemma MembershipDecidesRing(ops: seq<RingOp>, ops': seq<RingOp>, hash: Hash, vnodes: nat)
    requires NoCollision(hash, vnodes, AddedIds(ops)) && NoCollision(hash, vnodes, AddedIds(ops'))
    requires MembersAfter(ops) == MembersAfter(ops')
    ensures RingAfter(ops, hash, vnodes) == RingAfter(ops', hash, vnodes)
  {
    RingIsImage(ops, hash, vnodes);
    RingIsImage(ops', hash, vnodes);
    ImageUnique(RingAfter(ops, hash, vnodes), RingAfter(ops', hash, vnodes), MembersAfter(ops), hash, vnodes);
  }

  /** With at least one virtual node each, an id is on the ring exactly when it is a member. */
  lemma ImageIds(ring: Ring, members: Members, hash: Hash, vnodes: nat)
    requires IsImage(ring, members, hash, vnodes) && vnodes >= 1
    ensures RingIds(ring) == members.Keys
  {
    forall id | id in members ensures id in RingIds(ring) {
      var p := hash(Label(id, 0));
      assert p in Positions(hash, id, vnodes);
      assert ring[p].id == id;
    }
  }

  /** Removing a node just added restores the ring exactly when it displaced nothing. */
  lemma RemoveUndoesAdd(ring: Ring, node: Node, hash: Hash, vnodes: nat)
    requires node.id !in RingIds(ring)
    ensures Removed(Placed(ring, node, hash, vnodes), node.id) == ring <==>
            Positions(hash, node.id, vnodes) !! ring.Keys
  {
    var back := Removed(Placed(ring, node, hash, vnodes), node.id);
    forall p | p in ring ensures ring[p].id != node.id {
      assert ring[p].id in RingIds(ring);
    }
    if p :| p in Positions(hash, node.id, vnodes) && p in ring {
      assert p !in back;
    }
    assert forall p :: p in back ==> p in ring && back[p] == ring[p];
  }

  // ------------------------------------------------------------------------------
  // Minimal disruption

  /** A list of nodes without those of one id. */
  function Without(ns: seq<Node>, id: string): seq<Node> {
    if ns == [] then [] else
    var last := ns[|ns| - 1];
    Without(ns[..|ns| - 1], id) + (if last.id == id then [] else [last])
  }

  lemma {:induction false} WithoutIds(ns: seq<Node>, id: string)
    ensures forall x :: HasId(Without(ns, id), x) <==> HasId(ns, x) && x != id
  {
    if ns != [] {
      var last, front := ns[|ns| - 1], ns[..|ns| - 1];
      WithoutIds(front, id);
      assert ns == front + [last];
      HasIdConcat(front, [last]);
      HasIdConcat(Without(front, id), [last]);
      HasIdSingle(last);
      assert Without(front, id) + [] == Without(front, id);
    }
  }

  lemma {:induction false} WithoutPrefix(ns: seq<Node>, id: string, m: nat)
    requires m <= |ns|
    ensures Without(ns[..m], id) <= Without(ns, id) && |Without(ns[..m], id)| <= m
    decreases |ns|
  {
    if m == |ns| {
      assert ns[..m] == ns;
      if m > 0 { WithoutPrefix(ns[..m - 1], id, m - 1); assert ns[..m - 1][..m - 1] == ns[..m - 1]; }
    } else {
      assert ns[..|ns| - 1][..m] == ns[..m];
      WithoutPrefix(ns[..|ns| - 1], id, m);
    }
  }

  /** A list of distinct ids loses at most one member. */
  lemma {:induction false} WithoutLosesOne(ns: seq<Node>, id: string)
    requires DistinctIds(ns)
    ensures |Without(ns, id)| >= |ns| - 1
    ensures !HasId(ns, id) ==> Without(ns, id) == ns
  {
    if ns != [] {
      var last, front := ns[|ns| - 1], ns[..|ns| - 1];
      assert ns == front + [last];
      HasIdConcat(front, [last]);
      HasIdSingle(last);
      WithoutLosesOne(front, id);
      if last.id == id {
        assert !HasId(front, id);
      }
    }
  }

  /** Dropping repeats and dropping an id commute. */
  lemma {:induction false} DistinctWithout(ns: seq<Node>, id: string)
    ensures Distinct(Without(ns, id)) == Without(Distinct(ns), id)
  {
    if ns != [] {
      var last, front := ns[|ns| - 1], ns[..|ns| - 1];
      var d := Distinct(front);
      DistinctWithout(front, id);
      WithoutIds(d, id);
      assert (d + [last])[..|d|] == d;
      var w := Without(front, id);
      assert (w + [last])[..|w|] == w;
      assert w + [] == w;
    }
  }

  /** Positions whose node is not `id`. */
  function Kept(ps: seq<nat>, ring: Ring, id: string): (r: seq<nat>)
    requires forall p :: p in ps ==> p in ring
    ensures forall p :: p in r ==> p in Removed(ring, id)
  {
    if ps == [] then [] else
    var last := ps[|ps| - 1];
    assert forall p :: p in ps[..|ps| - 1] ==> p in ps;
    Kept(ps[..|ps| - 1], ring, id) + (if ring[last].id == id then [] else [last])
  }

  lemma {:induction false} KeptElements(ps: seq<nat>, ring: Ring, id: string)
    requires forall p :: p in ps ==> p in ring
    requires Increasing(ps, Less)
    ensures Increasing(Kept(ps, ring, id), Less)
    ensures forall p :: p in Kept(ps, ring, id) <==> p in ps && ring[p].id != id
  {
    if ps != [] {
      var last, front := ps[|ps| - 1], ps[..|ps| - 1];
      assert ps == front + [last];
      KeptElements(front, ring, id);
      forall p | p in front ensures p < last {
        var i :| 0 <= i < |front| && front[i] == p;
        assert Less(ps[i], ps[|ps| - 1]);
      }
      var k := Kept(front, ring, id);
      assert forall i :: 0 <= i < |k| ==> k[i] in k;
    }
  }

  lemma {:induction false} KeptNodes(ps: seq<nat>, ring: Ring, id: string)
    requires forall p :: p in ps ==> p in ring
    ensures NodesAt(Removed(ring, id), Kept(ps, ring, id)) == Without(NodesAt(ring, ps), id)
  {
    if ps != [] {
      var last, front := ps[|ps| - 1], ps[..|ps| - 1];
      assert forall p :: p in front ==> p in ps;
      KeptNodes(front, ring, id);
      assert NodesAt(ring, ps)[..|ps| - 1] == NodesAt(ring, front);
      assert last in ps;
      assert Kept(front, ring, id) + [] == Kept(front, ring, id);
      if ring[last].id != id {
        NodesAtConcat(Removed(ring, id), Kept(front, ring, id), [last]);
      }
    }
  }

  /** Removing an id removes it from every rotation and changes nothing else. */
  lemma RotationRemoved(ring: Ring, h: nat, id: string)
    ensures Rotation(Removed(ring, id), h) == Without(Rotation(ring, h), id)
  {
    var ring' := Removed(ring, id);
    LessStrictTotal();
    KeptElements(From(ring, h), ring, id);
    KeptElements(Before(ring, h), ring, id);
    SortedUnique(From(ring', h), Kept(From(ring, h), ring, id), Less);
    SortedUnique(Before(ring', h), Kept(Before(ring, h), ring, id), Less);
    KeptNodes(From(ring, h), ring, id);
    KeptNodes(Before(ring, h), ring, id);
    WithoutConcat(NodesAt(ring, From(ring, h)), NodesAt(ring, Before(ring, h)), id);
  }

  lemma {:induction false} WithoutConcat(a: seq<Node>, b: seq<Node>, id: string)
    ensures Without(a + b, id) == Without(a, id) + Without(b, id)
  {
    if b == [] {
      assert a + b == a;
    } else {
      assert (a + b)[..|a + b| - 1] == a + b[..|b| - 1];
      WithoutConcat(a, b[..|b| - 1], id);
    }
  }

  lemma DistinctRotationRemoved(ring: Ring, h: nat, id: string)
    ensures Distinct(Rotation(Removed(ring, id), h)) == Without(Distinct(Rotation(ring, h)), id)
  {
    RotationRemoved(ring, h, id);
    DistinctWithout(Rotation(ring, h), id);
  }

  lemma TakeWithout(d: seq<Node>, m: nat, id: string)
    ensures Without(Take(d, m), id) <= Take(Without(d, id), m)
    ensures DistinctIds(d) ==> |Take(Without(d, id), m)| <= |Without(Take(d, m), id)| + 1
  {
    var n := if |d| <= m then |d| else m;
    assert d[..|d|] == d;
    assert Take(d, m) == d[..n];
    WithoutPrefix(d, id, n);
    if DistinctIds(d) {
      assert DistinctIds(d[..n]);
      WithoutLosesOne(d[..n], id);
    }
  }

  /** After a removal the old list without the node is a prefix of the new list. */
  lemma RemovalDisruption(ring: Ring, h: nat, rf: nat, id: string)
    ensures Without(PreferenceList(ring, h, rf), id) <= PreferenceList(Removed(ring, id), h, rf)
  {
    DistinctRotationRemoved(ring, h, id);
    TakeWithout(Distinct(Rotation(ring, h)), Wanted(rf), id);
  }

  /** The first position met clockwise from `h`. */
  ghost predicate IsFirst(ring: Ring, h: nat, p: nat) {
    && p in ring
    && (forall q :: q in ring && q >= h ==> p >= h && p <= q)
    && (p < h ==> forall q :: q in ring ==> p <= q)
  }

  lemma PrimaryIsFirst(ring: Ring, h: nat) returns (p: nat)
    requires ring != map[]
    ensures IsFirst(ring, h, p) && Primary(ring, h) == Some(ring[p])
  {
    var from, all := From(ring, h), All(ring);
    var q :| q in ring;
    assert q in all;
    p := if from != [] then from[0] else all[0];
    assert from != [] ==> from[0] in from;
    assert all[0] in all;
    forall q | q in ring ensures (q >= h ==> q in from) && q in all {}
    forall q | q in from ensures from[0] <= q {
      var i :| 0 <= i < |from| && from[i] == q;
      assert i > 0 ==> Less(from[0], from[i]);
    }
    forall q | q in all ensures all[0] <= q {
      var i :| 0 <= i < |all| && all[i] == q;
      assert i > 0 ==> Less(all[0], all[i]);
    }
  }

  /** Adding a node, colliding or not, leaves a key's primary id as it was or makes it that node's. */
  lemma AdditionMovesPrimaryOnlyToNewNode(ring: Ring, h: nat, node: Node, hash: Hash, vnodes: nat)
    requires ring != map[]
    ensures var ring' := Placed(ring, node, hash, vnodes);
            && ring' != map[]
            && (Primary(ring', h).value.id == node.id || Primary(ring', h) == Primary(ring, h))
  {
    var ring' := Placed(ring, node, hash, vnodes);
    var p := PrimaryIsFirst(ring, h);
    assert p in ring';
    var p' := PrimaryIsFirst(ring', h);
    if p' !in Positions(hash, node.id, vnodes) {
      assert p' in ring && IsFirst(ring, h, p');
      assert p' == p;
    }
  }
}
