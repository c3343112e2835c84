/**
 Vector clocks (src/storage/memtable.rs).  A stored clock is an owned, immutable copy, so
 the value is a finite map `Clock`; `VectorClock` is the mutable struct whose methods
 update such a map in place.  The reference definition of causality is the pointwise order
 on counters, absent counters reading as 0.
 */
module VectorClocks {

  type Clock = map<string, nat>

  function Count(c: Clock, node: string): nat {
    if node in c then c[node] else 0
  }

  /** Pointwise order. */
  ghost predicate Leq(a: Clock, b: Clock) {
    forall n :: Count(a, n) <= Count(b, n)
  }

  /** Strict pointwise order: `a` is causally after `b`. */
  ghost predicate After(a: Clock, b: Clock) {
    Leq(b, a) && !Leq(a, b)
  }

  ghost predicate Comparable(a: Clock, b: Clock) {
    After(a, b) || After(b, a) || (Leq(a, b) && Leq(b, a))
  }

  ghost predicate ZeroFree(c: Clock) {
    forall n :: n in c ==> c[n] > 0
  }

  function Incremented(c: Clock, node: string): Clock {
    c[node := Count(c, node) + 1]
  }

  function Merged(a: Clock, b: Clock): Clock {
    map n | n in a.Keys + b.Keys :: if Count(a, n) > Count(b, n) then Count(a, n) else Count(b, n)
  }

  class VectorClock {
    var clocks: Clock

    constructor (c: Clock)
      ensures clocks == c
    {
      clocks := c;
    }

    method Increment(node: string)
      modifies this
      ensures clocks == Incremented(old(clocks), node)
    {
      var counter := if node in clocks then clocks[node] else 0;
      clocks := clocks[node := counter + 1];
    }

    /** Entry-by-entry maximum; the entries of `other` arrive in no particular order. */
    method Merge(other: Clock)
      modifies this
      ensures clocks == Merged(old(clocks), other)
    {
      var rest := other.Keys;
      ghost var before := clocks;
      while rest != {}
        invariant rest <= other.Keys && MergedOutside(before, other, rest, clocks)
        decreases rest
      {
        var node :| node in rest;
        var entry := if node in clocks then clocks[node] else 0;
        clocks := clocks[node := if entry > other[node] then entry else other[node]];
        rest := rest - {node};
      }
    }
  }

  /** `c` is `a` merged with the entries of `b` outside `rest`. */
  ghost predicate MergedOutside(a: Clock, b: Clock, rest: set<string>, c: Clock) {
    && c.Keys == a.Keys + (b.Keys - rest)
    && forall n :: n in c ==>
         c[n] == if n in b && n !in rest && b[n] > Count(a, n) then b[n] else Count(a, n)
  }

  /**
   The two loops of `dominates`, over both maps in any iteration order, decide the strict
   pointwise order.
   */
  method Dominates(self: Clock, other: Clock) returns (r: bool)
    ensures r <==> After(self, other)
  {
    var dominated := false;
    var rest := other.Keys;
    while rest != {}
      invariant rest <= other.Keys
      invariant forall n :: n in other.Keys - rest ==> Count(other, n) <= Count(self, n)
      invariant dominated <==> exists n :: n in other.Keys - rest && Count(other, n) < Count(self, n)
      decreases rest
    {
      var node :| node in rest;
      var selfCount := if node in self then self[node] else 0;
      if selfCount < other[node] {
        assert Count(self, node) < Count(other, node);
        return false;
      }
      if selfCount > other[node] {
        dominated := true;
        assert Count(other, node) < Count(self, node);
      }
      rest := rest - {node};
    }
    rest := self.Keys;
    while rest != {}
      invariant rest <= self.Keys
      invariant dominated <==>
                || (exists n :: n in other.Keys && Count(other, n) < Count(self, n))
                || (exists n :: n in self.Keys - rest && n !in other && Count(other, n) < Count(self, n))
      decreases rest
    {
      var node :| node in rest;
      if self[node] > 0 && node !in other {
        dominated := true;
        assert Count(other, node) < Count(self, node);
      }
      rest := rest - {node};
    }
    return dominated;
  }

  /** Concurrency as the source tests it: neither dominates and the maps differ. */
  ghost predicate ConcurrentWith(a: Clock, b: Clock) {
    !After(a, b) && !After(b, a) && a != b
  }

  method IsConcurrentWith(self: Clock, other: Clock) returns (r: bool)
    ensures r <==> ConcurrentWith(self, other)
  {
    var d := Dominates(self, other);
    var e := Dominates(other, self);
    return !d && !e && self != other;
  }

  lemma AfterIsStrictOrder(a: Clock, b: Clock, c: Clock)
    ensures !After(a, a)
    ensures After(a, b) ==> !After(b, a)
    ensures After(a, b) && Leq(c, b) ==> After(a, c)
    ensures Leq(b, a) && After(b, c) ==> After(a, c)
  {
    if After(a, b) && Leq(c, b) {
      var n :| Count(a, n) > Count(b, n);
      assert Count(a, n) > Count(c, n);
    }
    if Leq(b, a) && After(b, c) {
      var n :| Count(b, n) > Count(c, n);
      assert Count(a, n) > Count(c, n);
    }
  }

  /** `Merged` is the least upper bound of its arguments. */
  lemma MergeIsLeastUpperBound(a: Clock, b: Clock, c: Clock)
    ensures Leq(a, Merged(a, b)) && Leq(b, Merged(a, b))
    ensures Leq(Merged(a, b), c) <==> Leq(a, c) && Leq(b, c)
  {
    var m := Merged(a, b);
    assert forall n :: Count(m, n) == if Count(a, n) > Count(b, n) then Count(a, n) else Count(b, n);
    if Leq(m, c) {
      forall n ensures Count(a, n) <= Count(c, n) && Count(b, n) <= Count(c, n) {
        assert Count(m, n) <= Count(c, n);
      }
    }
  }

  /** Operations that build clocks from the empty one. */
  datatype ClockOp = Inc(node: string) | Join(left: seq<ClockOp>)

  ghost function Build(ops: seq<ClockOp>): Clock
    decreases ops
  {
    if ops == [] then map[] else
    var c := Build(ops[..|ops| - 1]);
    match ops[|ops| - 1]
    case Inc(node) => Incremented(c, node)
    case Join(other) => Merged(c, Build(other))
  }

  lemma {:induction false} BuiltClocksAreZeroFree(ops: seq<ClockOp>)
    ensures ZeroFree(Build(ops))
    decreases ops
  {
    if ops != [] {
      BuiltClocksAreZeroFree(ops[..|ops| - 1]);
      match ops[|ops| - 1]
      case Inc(node) =>
      case Join(other) => BuiltClocksAreZeroFree(other);
    }
  }

  predicate ExactlyOne(p: bool, q: bool, r: bool, s: bool) {
    && (p || q || r || s)
    && !(p && q) && !(p && r) && !(p && s) && !(q && r) && !(q && s) && !(r && s)
  }

  /**
   Exactly one of equal, after, before, concurrent holds of any two clocks; for zero-free
   clocks "concurrent" means that each is ahead of the other somewhere.
   */
  lemma CausalityIsFourWay(a: Clock, b: Clock)
    requires ZeroFree(a) && ZeroFree(b)
    ensures a == b <==> Leq(a, b) && Leq(b, a)
    ensures ConcurrentWith(a, b) <==> !Leq(a, b) && !Leq(b, a)
    ensures ExactlyOne(a == b, After(a, b), After(b, a), ConcurrentWith(a, b))
  {
    if Leq(a, b) && Leq(b, a) {
      assert forall n :: n in a ==> Count(a, n) == Count(b, n);
      assert forall n :: n in b ==> Count(a, n) == Count(b, n);
      assert a.Keys == b.Keys;
    }
  }

  /** In general, pointwise-equal clocks are called concurrent exactly when their key sets differ. */
  lemma EqualClocksLookConcurrentIff(a: Clock, b: Clock)
    requires Leq(a, b) && Leq(b, a)
    ensures ConcurrentWith(a, b) <==> a.Keys != b.Keys
  {
    if a.Keys == b.Keys {
      forall n | n in a ensures a[n] == b[n] { assert Count(a, n) == Count(b, n); }
      assert a == b;
    }
  }

  /** Such clocks: one with a zero entry more. */
  lemma ZeroEntryLooksConcurrent(c: Clock, node: string)
    requires node !in c
    ensures Leq(c, c[node := 0]) && Leq(c[node := 0], c) && ConcurrentWith(c, c[node := 0])
  {
    assert node in c[node := 0];
  }
}
