/**
 Sorted enumeration of a finite set under a strict total order: the order in which the
 store's sorted maps are walked.  A strictly increasing sequence is determined by its
 elements (`SortedUnique`), which is what every proof about walks rests on.
 */
module Ordered {

  ghost predicate StrictTotal<T(!new)>(lt: (T, T) -> bool) {
    && (forall x :: !lt(x, x))
    && (forall x, y, z :: lt(x, y) && lt(y, z) ==> lt(x, z))
    && (forall x, y :: x != y ==> lt(x, y) || lt(y, x))
  }

  ghost predicate Increasing<T>(s: seq<T>, lt: (T, T) -> bool) {
    forall i, j :: 0 <= i < j < |s| ==> lt(s[i], s[j])
  }

  ghost predicate SameElements<T(!new)>(a: seq<T>, b: seq<T>) {
    forall x :: x in a <==> x in b
  }

  lemma {:induction false} LeastExists<T(!new)>(s: set<T>, lt: (T, T) -> bool) returns (m: T)
    requires StrictTotal(lt) && s != {}
    ensures m in s && forall y :: y in s && y != m ==> lt(m, y)
    decreases s
  {
    m :| m in s;
    if s != {m} {
      var rest := s - {m};
      var m' := LeastExists(rest, lt);
      if lt(m', m) {
        m := m';
      } else {
        assert forall y :: y in s && y != m ==> y in rest;
      }
    }
  }

  /** The elements of `s` in increasing order. */
  function Sorted<T(==, !new)>(s: set<T>, lt: (T, T) -> bool): (r: seq<T>)
    requires StrictTotal(lt)
    ensures Increasing(r, lt)
    ensures forall x :: x in r <==> x in s
    decreases |s|
  {
    if s == {} then [] else
    assert exists m :: m in s && forall y :: y in s && y != m ==> lt(m, y) by {
      var m := LeastExists(s, lt);
    }
    var m :| m in s && forall y :: y in s && y != m ==> lt(m, y);
    [m] + Sorted(s - {m}, lt)
  }

  /** A strictly increasing sequence is determined by the set of its elements. */
  lemma {:induction false} SortedUnique<T(!new)>(a: seq<T>, b: seq<T>, lt: (T, T) -> bool)
    requires StrictTotal(lt)
    requires Increasing(a, lt) && Increasing(b, lt) && SameElements(a, b)
    ensures a == b
  {
    assert a == [] || a[0] in b;
    assert b == [] || b[0] in a;
    if a != [] {
      assert a[0] == b[0];
      forall x ensures x in a[1..] <==> x in b[1..] {
        if x in a[1..] { assert x in a && x != a[0]; assert x in b; }
        if x in b[1..] { assert x in b && x != b[0]; assert x in a; }
      }
      SortedUnique(a[1..], b[1..], lt);
      assert a == [a[0]] + a[1..] && b == [b[0]] + b[1..];
    }
  }

  /** The first `n` elements, or all of them. */
  function Take<T>(s: seq<T>, n: nat): (r: seq<T>)
    ensures r <= s && |r| == if |s| <= n then |s| else n
  {
    if |s| <= n then s else s[..n]
  }

  /** Lexicographic order on strings, the order of a `BTreeMap<String, _>`. */
  predicate LexLess(a: string, b: string) {
    b != [] && (a == [] || a[0] < b[0] || (a[0] == b[0] && LexLess(a[1..], b[1..])))
  }

  lemma {:induction false} LexTransitive(a: string, b: string, c: string)
    requires LexLess(a, b) && LexLess(b, c)
    ensures LexLess(a, c)
  {
    if a != [] && a[0] == b[0] == c[0] {
      LexTransitive(a[1..], b[1..], c[1..]);
    }
  }

  lemma {:induction false} LexConnected(a: string, b: string)
    ensures a == b || LexLess(a, b) || LexLess(b, a)
  {
    if a != [] && b != [] && a[0] == b[0] {
      LexConnected(a[1..], b[1..]);
      assert a == [a[0]] + a[1..] && b == [b[0]] + b[1..];
    }
  }

  lemma {:induction false} LexIrreflexive(a: string)
    ensures !LexLess(a, a)
  {
    if a != [] { LexIrreflexive(a[1..]); }
  }

  /** With heads of equal length, the heads decide unless they are equal. */
  lemma {:induction false} LexHeads(a: string, b: string, x: string, y: string)
    requires |a| == |b|
    ensures LexLess(a + x, b + y) <==> LexLess(a, b) || (a == b && LexLess(x, y))
  {
    if a == [] {
      assert a + x == x && b + y == y;
    } else {
      assert (a + x)[1..] == a[1..] + x && (b + y)[1..] == b[1..] + y;
      LexHeads(a[1..], b[1..], x, y);
      assert a == [a[0]] + a[1..] && b == [b[0]] + b[1..];
    }
  }

  lemma LexStrictTotal()
    ensures StrictTotal(LexLess)
  {
    forall x ensures !LexLess(x, x) { LexIrreflexive(x); }
    forall x, y, z | LexLess(x, y) && LexLess(y, z) ensures LexLess(x, z) { LexTransitive(x, y, z); }
    forall x, y | x != y ensures LexLess(x, y) || LexLess(y, x) { LexConnected(x, y); }
  }

  lemma LexNotLess(a: string, b: string)
    ensures !LexLess(a, b) <==> a == b || LexLess(b, a)
  {
    LexConnected(a, b);
    LexIrreflexive(a);
    if LexLess(a, b) && LexLess(b, a) { LexTransitive(a, b, a); }
  }

  /** Equal up to `i`, where `a` ends or has the smaller char. */
  ghost predicate SmallerAt(a: string, b: string, i: nat) {
    i < |b| && i <= |a| && a[..i] == b[..i] && (i == |a| || a[i] < b[i])
  }

  /** A string is smaller when it is a proper prefix or has the smaller char where they first differ. */
  lemma {:induction false} LexLessIff(a: string, b: string)
    ensures LexLess(a, b) <==> exists i: nat :: SmallerAt(a, b, i)
  {
    if b != [] && (a == [] || a[0] < b[0]) {
      assert SmallerAt(a, b, 0);
    } else if a != [] && b != [] && a[0] == b[0] {
      LexLessIff(a[1..], b[1..]);
      if i: nat :| SmallerAt(a[1..], b[1..], i) {
        assert a[..i + 1] == [a[0]] + a[1..][..i] && b[..i + 1] == [b[0]] + b[1..][..i];
        assert SmallerAt(a, b, i + 1);
      }
      if i: nat :| SmallerAt(a, b, i) {
        assert a[1..][..i - 1] == a[..i][1..] && b[1..][..i - 1] == b[..i][1..];
        assert SmallerAt(a[1..], b[1..], i - 1);
      }
    } else {
      forall i: nat | 0 < i <= |a| && i < |b| ensures a[..i] != b[..i] {
        assert a[..i][0] == a[0] && b[..i][0] == b[0];
      }
    }
  }

  predicate Less(a: nat, b: nat) { a < b }

  lemma LessStrictTotal()
    ensures StrictTotal(Less)
  {}

  lemma {:induction false} SubsetSize<T>(a: set<T>, b: set<T>)
    requires a <= b
    ensures |a| <= |b|
  {
    if a != {} {
      var x :| x in a;
      SubsetSize(a - {x}, b - {x});
    }
  }
}
