/** Conflict resolution among replica responses (src/replication/coordinator.rs). */
module Conflicts {
  import opened Options
  import opened VectorClocks
  import opened Values

  /** `val` takes the place of `current`: a later clock, or no earlier one and a later timestamp. */
  ghost predicate Beats(val: VersionedValue, current: VersionedValue) {
    After(val.clock, current.clock)
      || (!After(current.clock, val.clock) && val.timestamp > current.timestamp)
  }

  ghost function Survivor(current: VersionedValue, val: VersionedValue): VersionedValue {
    if Beats(val, current) then val else current
  }

  ghost function Resolved(rs: seq<Option<VersionedValue>>, now: int): Option<VersionedValue> {
    if rs == [] then None else
    var best, last := Resolved(rs[..|rs| - 1], now), rs[|rs| - 1];
    if last.None? || !Live(last.value, now) then best
    else if best.None? then last
    else Some(Survivor(best.value, last.value))
  }

  method ResolveConflicts(rs: seq<Option<VersionedValue>>, now: int) returns (best: Option<VersionedValue>)
    ensures best == Resolved(rs, now)
  {
    best := None;
    for i := 0 to |rs|
      invariant best == Resolved(rs[..i], now)
    {
      assert rs[..i + 1][..i] == rs[..i];
      if rs[i].None? || rs[i].value.deleted || Expired(rs[i].value, now) {
        continue;
      }
      var val := rs[i].value;
      if best.None? {
        best := Some(val);
      } else {
        var after := Dominates(val.clock, best.value.clock);
        var before := Dominates(best.value.clock, val.clock);
        if after || (!before && val.timestamp > best.value.timestamp) {
          best := Some(val);
        }
      }
    }
    assert rs[..|rs|] == rs;
  }

  // ------------------------------------------------------------------------------
  // What resolution guarantees

  predicate LiveIn(v: VersionedValue, rs: seq<Option<VersionedValue>>, now: int) {
    Some(v) in rs && Live(v, now)
  }

  /** Nothing is returned exactly when nothing is live; otherwise a live response is. */
  lemma {:induction false} ResolvedIsLiveResponse(rs: seq<Option<VersionedValue>>, now: int)
    ensures Resolved(rs, now).None? <==> forall v :: !LiveIn(v, rs, now)
    ensures Resolved(rs, now).Some? ==> LiveIn(Resolved(rs, now).value, rs, now)
  {
    if rs != [] {
      var front, last := rs[..|rs| - 1], rs[|rs| - 1];
      assert rs == front + [last];
      ResolvedIsLiveResponse(front, now);
      assert forall v :: LiveIn(v, front, now) ==> LiveIn(v, rs, now);
      forall v ensures LiveIn(v, rs, now) <==> LiveIn(v, front, now) || (last == Some(v) && Live(v, now)) {}
      if last.Some? && Live(last.value, now) {
        assert LiveIn(last.value, rs, now);
      }
    }
  }

  /** Dominance never contradicts timestamps. */
  ghost predicate Consistent(rs: seq<Option<VersionedValue>>, now: int) {
    forall a, b :: LiveIn(a, rs, now) && LiveIn(b, rs, now) && After(a.clock, b.clock) ==> a.timestamp >= b.timestamp
  }

  ghost predicate PairwiseComparable(rs: seq<Option<VersionedValue>>, now: int) {
    forall a, b :: LiveIn(a, rs, now) && LiveIn(b, rs, now) ==> Comparable(a.clock, b.clock)
  }

  ghost predicate Greatest(r: VersionedValue, rs: seq<Option<VersionedValue>>, now: int) {
    forall w :: LiveIn(w, rs, now) ==> r.timestamp >= w.timestamp && !After(w.clock, r.clock)
  }

  /** The (clock, timestamp) order, clocks first. */
  ghost predicate LexAtLeast(a: VersionedValue, b: VersionedValue) {
    After(a.clock, b.clock) || (Leq(a.clock, b.clock) && Leq(b.clock, a.clock) && a.timestamp >= b.timestamp)
  }

  ghost predicate LexGreatest(r: VersionedValue, rs: seq<Option<VersionedValue>>, now: int) {
    forall w :: LiveIn(w, rs, now) ==> LexAtLeast(r, w)
  }

  lemma SurvivorGreatest(best: VersionedValue, val: VersionedValue, w: VersionedValue)
    requires After(best.clock, val.clock) ==> best.timestamp >= val.timestamp
    requires After(val.clock, best.clock) ==> val.timestamp >= best.timestamp
    requires After(w.clock, val.clock) ==> w.timestamp >= val.timestamp
    requires best.timestamp >= w.timestamp && !After(w.clock, best.clock)
    ensures var r := Survivor(best, val);
            r.timestamp >= w.timestamp && !After(w.clock, r.clock)
  {
    AfterIsStrictOrder(w.clock, val.clock, best.clock);
  }

  /**
   When dominance agrees with timestamps, no live response is newer than the result or
   dominates it.
   */
  lemma {:induction false} ResolvedIsGreatest(rs: seq<Option<VersionedValue>>, now: int)
    requires Consistent(rs, now) && Resolved(rs, now).Some?
    ensures Greatest(Resolved(rs, now).value, rs, now)
  {
    var front, last := rs[..|rs| - 1], rs[|rs| - 1];
    var best, r := Resolved(front, now), Resolved(rs, now).value;
    assert rs == front + [last];
    assert forall v :: LiveIn(v, front, now) ==> LiveIn(v, rs, now);
    ResolvedIsLiveResponse(front, now);
    if best.Some? { ResolvedIsGreatest(front, now); }
    forall w | LiveIn(w, rs, now) ensures r.timestamp >= w.timestamp && !After(w.clock, r.clock) {
      if last.Some? && Live(last.value, now) && best.Some? {
        assert LiveIn(last.value, rs, now);
        AfterIsStrictOrder(w.clock, w.clock, w.clock);
        AfterIsStrictOrder(r.clock, best.value.clock, r.clock);
        if Some(w) in front {
          assert LiveIn(w, front, now);
          SurvivorGreatest(best.value, last.value, w);
        }
      } else if last.None? || !Live(last.value, now) {
        assert LiveIn(w, front, now);
      } else {
        assert Some(w) in front ==> LiveIn(w, front, now);
        AfterIsStrictOrder(w.clock, w.clock, w.clock);
      }
    }
  }

  lemma SurvivorLex(best: VersionedValue, val: VersionedValue, w: VersionedValue)
    requires Comparable(best.clock, val.clock)
    ensures LexAtLeast(Survivor(best, val), val)
    ensures LexAtLeast(best, w) ==> LexAtLeast(Survivor(best, val), w)
  {
    AfterIsStrictOrder(val.clock, best.clock, w.clock);
    AfterIsStrictOrder(best.clock, val.clock, w.clock);
  }

  /** When live clocks are pairwise comparable the result is the (clock, timestamp) maximum. */
  lemma {:induction false} ResolvedIsLexGreatest(rs: seq<Option<VersionedValue>>, now: int)
    requires PairwiseComparable(rs, now) && Resolved(rs, now).Some?
    ensures LexGreatest(Resolved(rs, now).value, rs, now)
  {
    var front, last := rs[..|rs| - 1], rs[|rs| - 1];
    var best, r := Resolved(front, now), Resolved(rs, now).value;
    assert rs == front + [last];
    assert forall v :: LiveIn(v, front, now) ==> LiveIn(v, rs, now);
    ResolvedIsLiveResponse(front, now);
    if best.Some? { ResolvedIsLexGreatest(front, now); }
    forall w | LiveIn(w, rs, now) ensures LexAtLeast(r, w) {
      assert Some(w) in front ==> LiveIn(w, front, now);
      if last.Some? && Live(last.value, now) && best.Some? {
        assert LiveIn(last.value, rs, now);
        SurvivorLex(best.value, last.value, w);
      }
    }
  }

  /** The order of comparable responses decides neither the clock nor the timestamp returned. */
  lemma ResolutionOrderIrrelevant(rs: seq<Option<VersionedValue>>, rs': seq<Option<VersionedValue>>, now: int)
    requires multiset(rs) == multiset(rs') && PairwiseComparable(rs, now)
    ensures var r, r' := Resolved(rs, now), Resolved(rs', now);
            && r.Some? == r'.Some?
            && (r.Some? ==> Leq(r.value.clock, r'.value.clock) && Leq(r'.value.clock, r.value.clock)
                            && r.value.timestamp == r'.value.timestamp)
  {
    forall v ensures LiveIn(v, rs, now) <==> LiveIn(v, rs', now) {
      assert Some(v) in multiset(rs) <==> Some(v) in multiset(rs');
    }
    ResolvedIsLiveResponse(rs, now);
    ResolvedIsLiveResponse(rs', now);
    if Resolved(rs, now).Some? {
      ResolvedIsLexGreatest(rs, now);
      ResolvedIsLexGreatest(rs', now);
      var r, r' := Resolved(rs, now).value, Resolved(rs', now).value;
      assert LexAtLeast(r, r') && LexAtLeast(r', r);
    }
  }

  lemma ResolvedAppend(rs: seq<Option<VersionedValue>>, v: VersionedValue, now: int)
    requires Live(v, now)
    ensures Resolved(rs + [Some(v)], now) ==
            if Resolved(rs, now).None? then Some(v) else Some(Survivor(Resolved(rs, now).value, v))
  {
    assert (rs + [Some(v)])[..|rs|] == rs;
  }
}
