/**
 How far adding a node disturbs preference lists (src/ring/consistent_hash.rs).  Its virtual
 nodes replace whatever is at their positions; lists of what is left change by that node alone,
 and lists of the whole ring do exactly when every position taken was sheltered.
 */
module RingAdditions {
  import opened Options
  import opened Ordered
  import opened HashRings
  import opened RingMembership

  /** What is left of a ring once `node` is placed on it. */
  function Undisplaced(ring: Ring, node: Node, hash: Hash, vnodes: nat): Ring {
    map p | p in ring && p !in Positions(hash, node.id, vnodes) && ring[p].id != node.id :: ring[p]
  }

  lemma PlacedThenRemoved(ring: Ring, node: Node, hash: Hash, vnodes: nat)
    ensures Removed(Placed(ring, node, hash, vnodes), node.id) == Undisplaced(ring, node, hash, vnodes)
  {}

  lemma NothingDisplaced(ring: Ring, node: Node, hash: Hash, vnodes: nat)
    requires node.id !in RingIds(ring) && Positions(hash, node.id, vnodes) !! ring.Keys
    ensures Undisplaced(ring, node, hash, vnodes) == ring
  {
    RemoveUndoesAdd(ring, node, hash, vnodes);
    PlacedThenRemoved(ring, node, hash, vnodes);
  }

  /** The new list without the node is the old one, up to its last member. */
  ghost predicate OnlyLastLost(before: seq<Node>, after: seq<Node>, id: string) {
    Without(after, id) <= before && |before| <= |Without(after, id)| + 1
  }

  /**
   Adding a node pushes at most the last member out of the list of what it did not displace,
   which is the whole ring if it displaced nothing.
   */
  lemma AdditionDisruption(ring: Ring, h: nat, rf: nat, node: Node, hash: Hash, vnodes: nat)
    ensures var left, ring' := Undisplaced(ring, node, hash, vnodes), Placed(ring, node, hash, vnodes);
            && OnlyLastLost(PreferenceList(left, h, rf), PreferenceList(ring', h, rf), node.id)
            && (node.id !in RingIds(ring) && Positions(hash, node.id, vnodes) !! ring.Keys ==> left == ring)
  {
    var ring' := Placed(ring, node, hash, vnodes);
    PlacedThenRemoved(ring, node, hash, vnodes);
    DistinctRotationRemoved(ring', h, node.id);
    DistinctFacts(Rotation(ring', h));
    TakeWithout(Distinct(Rotation(ring', h)), Wanted(rf), node.id);
    if node.id !in RingIds(ring) && Positions(hash, node.id, vnodes) !! ring.Keys {
      NothingDisplaced(ring, node, hash, vnodes);
    }
  }

  // ------------------------------------------------------------------------------
  // Lists are primaries, one after the other

  lemma {:induction false} WithoutHead(d: seq<Node>)
    requires d != [] && DistinctIds(d)
    ensures Without(d, d[0].id) == d[1..]
  {
    var front, last := d[..|d| - 1], d[|d| - 1];
    if front == [] {
      assert d[1..] == [] && Without(front, d[0].id) == [];
    } else {
      WithoutHead(front);
      assert front[1..] + [last] == d[1..];
    }
  }

  lemma PrimaryHeads(ring: Ring, h: nat)
    requires ring != map[]
    ensures var d := Distinct(Rotation(ring, h)); d != [] && DistinctIds(d) && Primary(ring, h) == Some(d[0])
  {
    PreferenceListHead(ring, h, 1);
    DistinctFacts(Rotation(ring, h));
  }

  /** The distinct nodes from `h` on are the primary, then those of the ring without it. */
  lemma PrimaryThenRest(ring: Ring, h: nat)
    requires ring != map[]
    ensures Primary(ring, h).Some?
    ensures var x := Primary(ring, h).value;
            Distinct(Rotation(ring, h)) == [x] + Distinct(Rotation(Removed(ring, x.id), h))
  {
    var d := Distinct(Rotation(ring, h));
    PrimaryHeads(ring, h);
    DistinctRotationRemoved(ring, h, d[0].id);
    WithoutHead(d);
    HeadAndTail(d);
  }

  lemma HeadAndTail(d: seq<Node>)
    requires d != []
    ensures d == [d[0]] + d[1..]
  {}

  lemma FirstUnique(ring: Ring, h: nat, p: nat, q: nat)
    requires IsFirst(ring, h, p) && IsFirst(ring, h, q)
    ensures p == q
  {}

  lemma PrimaryAt(ring: Ring, h: nat, p: nat)
    requires IsFirst(ring, h, p)
    ensures Primary(ring, h) == Some(ring[p])
  {
    var q := PrimaryIsFirst(ring, h);
    FirstUnique(ring, h, p, q);
  }

  /** From each position that `left` lacks, clockwise, the first that it has holds the same node. */
  ghost predicate Sheltered(ring: Ring, left: Ring) {
    && (forall p :: p in left ==> p in ring && ring[p] == left[p])
    && (forall p :: p in ring && p !in left ==> Primary(left, p) == Some(ring[p]))
  }

  lemma FirstBeyond(ring: Ring, left: Ring, h: nat, p: nat, r: nat)
    requires forall q :: q in left ==> q in ring
    requires IsFirst(ring, h, p) && IsFirst(left, p, r)
    ensures IsFirst(left, h, r)
  {}

  lemma ShelteredPrimary(ring: Ring, left: Ring, h: nat)
    requires Sheltered(ring, left) && left != map[] && ring != map[]
    ensures Primary(ring, h) == Primary(left, h)
  {
    var p := PrimaryIsFirst(ring, h);
    var r := PrimaryIsFirst(left, p);
    FirstBeyond(ring, left, h, p, r);
    PrimaryAt(left, h, r);
    if p in left {
      assert IsFirst(left, p, p);
      PrimaryAt(left, p, p);
    }
  }

  lemma RemovedPrimary(ring: Ring, p: nat, id: string)
    requires ring != map[] && Primary(ring, p).Some? && Primary(ring, p).value.id != id
    ensures Removed(ring, id) != map[] && Primary(Removed(ring, id), p) == Primary(ring, p)
  {
    var r := PrimaryIsFirst(ring, p);
    assert r in Removed(ring, id);
    assert IsFirst(Removed(ring, id), p, r);
    PrimaryAt(Removed(ring, id), p, r);
  }

  lemma ShelteredRemoved(ring: Ring, left: Ring, id: string)
    requires Sheltered(ring, left) && left != map[]
    ensures Sheltered(Removed(ring, id), Removed(left, id))
    ensures Removed(left, id) == map[] ==> Removed(ring, id) == map[]
  {
    forall p | p in Removed(ring, id) && p !in Removed(left, id)
      ensures Removed(left, id) != map[] && Primary(Removed(left, id), p) == Some(ring[p])
    {
      RemovedPrimary(left, p, id);
    }
    if p :| p in Removed(ring, id) && p in left { assert p in Removed(left, id); }
  }

  lemma {:induction false} ShelteredSameNodes(ring: Ring, left: Ring, h: nat)
    requires Sheltered(ring, left) && left != map[]
    ensures Distinct(Rotation(ring, h)) == Distinct(Rotation(left, h))
    decreases |left|
  {
    var p :| p in left;
    ShelteredPrimary(ring, left, h);
    PrimaryThenRest(ring, h);
    PrimaryThenRest(left, h);
    var x := Primary(left, h).value;
    ShelteredRemoved(ring, left, x.id);
    var ring', left' := Removed(ring, x.id), Removed(left, x.id);
    if left' != map[] {
      RemovedIsSmaller(left, h);
      ShelteredSameNodes(ring', left', h);
    }
  }

  lemma RemovedIsSmaller(ring: Ring, h: nat)
    requires ring != map[]
    ensures Primary(ring, h).Some? && |Removed(ring, Primary(ring, h).value.id)| < |ring|
  {
    var p := PrimaryIsFirst(ring, h);
    var id := ring[p].id;
    assert Removed(ring, id).Keys <= ring.Keys - {p};
    SubsetSize(Removed(ring, id).Keys, ring.Keys - {p});
  }

  // ------------------------------------------------------------------------------
  // The exact condition

  ghost predicate OnlyLastEverLost(ring: Ring, ring': Ring, id: string) {
    forall h, rf :: OnlyLastLost(PreferenceList(ring, h, rf), PreferenceList(ring', h, rf), id)
  }

  /** Each position taken was sheltered, or the node took all of the ring and that was one node's. */
  ghost predicate TakesSheltered(ring: Ring, left: Ring) {
    if left == map[] then |RingIds(ring)| <= 1 else Sheltered(ring, left)
  }

  lemma EmptyList(h: nat, rf: nat)
    ensures PreferenceList(map[], h, rf) == []
  {
    PreferenceListShape(map[], h, rf);
    assert RingIds(map[]) == {};
  }

  lemma ShelteredLosesLast(ring: Ring, node: Node, hash: Hash, vnodes: nat, h: nat, rf: nat)
    requires TakesSheltered(ring, Undisplaced(ring, node, hash, vnodes))
    ensures OnlyLastLost(PreferenceList(ring, h, rf), PreferenceList(Placed(ring, node, hash, vnodes), h, rf), node.id)
  {
    var left := Undisplaced(ring, node, hash, vnodes);
    AdditionDisruption(ring, h, rf, node, hash, vnodes);
    if left == map[] {
      EmptyList(h, rf);
      PreferenceListShape(ring, h, rf);
    } else {
      ShelteredSameNodes(ring, left, h);
    }
  }

  lemma PrimaryAtTaken(ring: Ring, node: Node, hash: Hash, vnodes: nat, p: nat)
    requires p in Positions(hash, node.id, vnodes)
    ensures var ring' := Placed(ring, node, hash, vnodes); ring' != map[] && Primary(ring', p) == Some(node)
  {
    var ring' := Placed(ring, node, hash, vnodes);
    assert p in ring' && IsFirst(ring', p, p);
    PrimaryAt(ring', p, p);
  }

  lemma WithoutFirstOfTwo(a: Node, b: Node, rest: seq<Node>)
    requires a.id != b.id
    ensures Without(Take([a] + ([b] + rest), 2), a.id) == [b]
  {
    assert Take([a] + ([b] + rest), 2) == [a, b];
    WithoutHead([a, b]);
  }

  /** At a position it takes, the new node is listed first, then what is left from there on. */
  lemma ListAtTaken(ring: Ring, node: Node, hash: Hash, vnodes: nat, p: nat)
    requires p in Positions(hash, node.id, vnodes) && Undisplaced(ring, node, hash, vnodes) != map[]
    ensures var left := Undisplaced(ring, node, hash, vnodes);
            && Primary(left, p).Some?
            && Without(PreferenceList(Placed(ring, node, hash, vnodes), p, 2), node.id) == [Primary(left, p).value]
  {
    var left, ring' := Undisplaced(ring, node, hash, vnodes), Placed(ring, node, hash, vnodes);
    PrimaryAtTaken(ring, node, hash, vnodes, p);
    PlacedThenRemoved(ring, node, hash, vnodes);
    PrimaryThenRest(ring', p);
    PrimaryThenRest(left, p);
    UndisplacedPrimary(ring, node, hash, vnodes, p);
    var x := Primary(left, p).value;
    WithoutFirstOfTwo(node, x, Distinct(Rotation(Removed(left, x.id), p)));
  }

  lemma UndisplacedPrimary(ring: Ring, node: Node, hash: Hash, vnodes: nat, p: nat)
    requires Undisplaced(ring, node, hash, vnodes) != map[]
    ensures var first := Primary(Undisplaced(ring, node, hash, vnodes), p); first.Some? && first.value.id != node.id
  {
    var q := PrimaryIsFirst(Undisplaced(ring, node, hash, vnodes), p);
  }

  lemma LosesLastThenSheltered(ring: Ring, node: Node, hash: Hash, vnodes: nat)
    requires node.id !in RingIds(ring)
    requires OnlyLastEverLost(ring, Placed(ring, node, hash, vnodes), node.id)
    ensures TakesSheltered(ring, Undisplaced(ring, node, hash, vnodes))
  {
    var left, ring' := Undisplaced(ring, node, hash, vnodes), Placed(ring, node, hash, vnodes);
    if left == map[] {
      var rf := |RingIds(ring)|;
      AdditionDisruption(ring, 0, rf, node, hash, vnodes);
      EmptyList(0, rf);
      PreferenceListShape(ring, 0, rf);
      assert OnlyLastLost(PreferenceList(ring, 0, rf), PreferenceList(ring', 0, rf), node.id);
    } else {
      forall p | p in ring && p !in left ensures Primary(left, p) == Some(ring[p]) {
        assert ring[p].id in RingIds(ring);
        ListAtTaken(ring, node, hash, vnodes, p);
        PreferenceListHead(ring, p, 2);
        assert IsFirst(ring, p, p);
        PrimaryAt(ring, p, p);
        assert OnlyLastLost(PreferenceList(ring, p, 2), PreferenceList(ring', p, 2), node.id);
      }
    }
  }

  /**
   Adding a new node pushes at most the last member out of every list, for every key and
   replication factor, exactly when each position it took from another node is followed,
   clockwise, by one that this other node keeps before any of a third.
   */
  lemma AdditionDisruptionIff(ring: Ring, node: Node, hash: Hash, vnodes: nat)
    requires node.id !in RingIds(ring)
    ensures OnlyLastEverLost(ring, Placed(ring, node, hash, vnodes), node.id) <==>
            TakesSheltered(ring, Undisplaced(ring, node, hash, vnodes))
  {
    var ring' := Placed(ring, node, hash, vnodes);
    if TakesSheltered(ring, Undisplaced(ring, node, hash, vnodes)) {
      forall h, rf ensures OnlyLastLost(PreferenceList(ring, h, rf), PreferenceList(ring', h, rf), node.id)
      {
        ShelteredLosesLast(ring, node, hash, vnodes, h, rf);
      }
    }
    if OnlyLastEverLost(ring, ring', node.id) {
      LosesLastThenSheltered(ring, node, hash, vnodes);
    }
  }
}
