/**
 Which sets of replica responses the resolver (src/replication/coordinator.rs) resolves to a
 newest and undominated one in every order.  "Beats" is no order, so what decides is how far a
 chain of responses, each beating the one before, can get past the winners.
 */
module ResolutionOrders {
  import opened Options
  import opened VectorClocks
  import opened Values
  import opened Conflicts

  type Responses = seq<Option<VersionedValue>>

  // ------------------------------------------------------------------------------
  // Sequences and multisets

  ghost function Filtered(rs: Responses, keep: Option<VersionedValue> -> bool): Responses {
    if rs == [] then [] else
    Filtered(rs[..|rs| - 1], keep) + if keep(rs[|rs| - 1]) then [rs[|rs| - 1]] else []
  }

  lemma {:induction false} FilteredCount(
    rs: Responses, keep: Option<VersionedValue> -> bool, x: Option<VersionedValue>)
    ensures multiset(Filtered(rs, keep))[x] == if keep(x) then multiset(rs)[x] else 0
  {
    if rs != [] {
      var front, last := rs[..|rs| - 1], rs[|rs| - 1];
      assert rs == front + [last];
      FilteredCount(front, keep, x);
    }
  }

  ghost function Listed(m: multiset<Option<VersionedValue>>): (rs: Responses)
    ensures multiset(rs) == m
    decreases |m|
  {
    if m == multiset{} then [] else
    var x :| x in m;
    Listed(m - multiset{x}) + [x]
  }

  function Somes(vs: seq<VersionedValue>): Responses {
    seq(|vs|, i requires 0 <= i < |vs| => Some(vs[i]))
  }

  lemma SomesAppend(vs: seq<VersionedValue>, v: VersionedValue)
    ensures Somes(vs + [v]) == Somes(vs) + [Some(v)]
  {}

  // ------------------------------------------------------------------------------
  // Chains and winners

  /** A live response that no live response outdates or dominates. */
  ghost predicate Winner(v: VersionedValue, rs: Responses, now: int) {
    LiveIn(v, rs, now) && Greatest(v, rs, now)
  }

  /** Each beats the one before. */
  ghost predicate Climbs(chain: seq<VersionedValue>) {
    forall i :: 0 < i < |chain| ==> Beats(chain[i], chain[i - 1])
  }

  /** A chain of live responses, each used no more often than it was received. */
  ghost predicate IsChain(chain: seq<VersionedValue>, rs: Responses, now: int) {
    && Climbs(chain) && multiset(Somes(chain)) <= multiset(rs)
    && forall v :: v in chain ==> LiveIn(v, rs, now)
  }

  ghost predicate WinnerFree(chain: seq<VersionedValue>, rs: Responses, now: int) {
    forall v :: v in chain ==> !Winner(v, rs, now)
  }

  ghost predicate BeatsAll(w: VersionedValue, chain: seq<VersionedValue>) {
    forall v :: v in chain ==> Beats(w, v)
  }

  /** Every chain of losing responses is beaten, member by member, by one winner. */
  ghost predicate ChainsCovered(rs: Responses, now: int) {
    forall chain :: chain != [] && IsChain(chain, rs, now) && WinnerFree(chain, rs, now) ==>
      exists w :: Winner(w, rs, now) && BeatsAll(w, chain)
  }

  /** A winner beats what is older than it or what it dominates. */
  lemma WinnerBeatsIff(w: VersionedValue, v: VersionedValue, rs: Responses, now: int)
    requires Winner(w, rs, now) && LiveIn(v, rs, now)
    ensures Beats(w, v) <==> v.timestamp < w.timestamp || After(w.clock, v.clock)
    ensures !Beats(v, w)
  {}

  // ------------------------------------------------------------------------------
  // The successive bests of a run form a chain

  ghost function Champions(rs: Responses, now: int): seq<VersionedValue> {
    if rs == [] then [] else
    var champs, last := Champions(rs[..|rs| - 1], now), rs[|rs| - 1];
    if last.None? || !Live(last.value, now) then champs
    else if champs == [] || Beats(last.value, champs[|champs| - 1]) then champs + [last.value]
    else champs
  }

  lemma {:induction false} ChampionsClimb(rs: Responses, now: int)
    ensures var champs := Champions(rs, now);
            && Climbs(champs)
            && Resolved(rs, now) == if champs == [] then None else Some(champs[|champs| - 1])
  {
    if rs != [] { ChampionsClimb(rs[..|rs| - 1], now); }
  }

  lemma {:induction false} ChampionsDrawn(rs: Responses, now: int)
    ensures multiset(Somes(Champions(rs, now))) <= multiset(rs)
    ensures forall v :: v in Champions(rs, now) ==> LiveIn(v, rs, now)
  {
    if rs != [] {
      var front, last := rs[..|rs| - 1], rs[|rs| - 1];
      assert rs == front + [last];
      ChampionsDrawn(front, now);
      if last.Some? { SomesAppend(Champions(front, now), last.value); }
    }
  }

  /** A live response became the best, or failed to beat one that was. */
  lemma {:induction false} ChampionsOrRejected(rs: Responses, now: int, v: VersionedValue)
    requires LiveIn(v, rs, now)
    ensures v in Champions(rs, now) || exists c :: c in Champions(rs, now) && !Beats(v, c)
  {
    var front, last := rs[..|rs| - 1], rs[|rs| - 1];
    assert rs == front + [last];
    if Some(v) in front { ChampionsOrRejected(front, now, v); }
  }

  lemma SameLive(p: Responses, rs: Responses, now: int)
    requires multiset(p) == multiset(rs)
    ensures forall v :: LiveIn(v, p, now) <==> LiveIn(v, rs, now)
  {
    forall v ensures LiveIn(v, p, now) <==> LiveIn(v, rs, now) {
      assert Some(v) in multiset(p) <==> Some(v) in multiset(rs);
    }
  }

  /** A chain that does not end in a winner has none. */
  lemma NoWinnerInside(chain: seq<VersionedValue>, rs: Responses, now: int)
    requires chain != [] && IsChain(chain, rs, now) && !Winner(chain[|chain| - 1], rs, now)
    ensures WinnerFree(chain, rs, now)
  {
    forall i | 0 <= i < |chain| ensures !Winner(chain[i], rs, now) {
      if i + 1 < |chain| {
        assert Beats(chain[i + 1], chain[i]) && LiveIn(chain[i + 1], rs, now);
      }
    }
  }

  lemma ChampionsAreChain(rs: Responses, p: Responses, now: int)
    requires multiset(p) == multiset(rs)
    ensures IsChain(Champions(p, now), rs, now)
  {
    ChampionsClimb(p, now);
    ChampionsDrawn(p, now);
    SameLive(p, rs, now);
  }

  /** A winner that would beat every best of a run is one of them. */
  lemma WinnerGetsIn(rs: Responses, p: Responses, now: int, w: VersionedValue)
    requires multiset(p) == multiset(rs) && Winner(w, rs, now) && BeatsAll(w, Champions(p, now))
    ensures w in Champions(p, now)
  {
    SameLive(p, rs, now);
    ChampionsOrRejected(p, now, w);
  }

  lemma CoveredThenGreatest(rs: Responses, p: Responses, now: int)
    requires ChainsCovered(rs, now) && multiset(p) == multiset(rs) && Resolved(p, now).Some?
    ensures Greatest(Resolved(p, now).value, rs, now)
  {
    var champs := Champions(p, now);
    ChampionsClimb(p, now);
    ChampionsAreChain(rs, p, now);
    if !Winner(champs[|champs| - 1], rs, now) {
      NoWinnerInside(champs, rs, now);
      var w :| Winner(w, rs, now) && BeatsAll(w, champs);
      WinnerGetsIn(rs, p, now, w);
      assert false;
    }
  }

  // ------------------------------------------------------------------------------
  // An uncovered chain is some run's

  /** Responses that fail to beat the best leave it. */
  lemma {:induction false} FailingLeave(p: Responses, q: Responses, now: int, c: VersionedValue)
    requires Resolved(p, now) == Some(c)
    requires forall x :: x in q ==> x.Some? && !Beats(x.value, c)
    ensures Resolved(p + q, now) == Some(c)
  {
    if q == [] {
      assert p + q == p;
    } else {
      assert (p + q)[..|p + q| - 1] == p + q[..|q| - 1];
      FailingLeave(p, q[..|q| - 1], now, c);
    }
  }

  /** Whatever follows, the best stays or comes from what follows. */
  lemma {:induction false} StaysOrFollows(p: Responses, q: Responses, now: int)
    requires Resolved(p, now).Some?
    ensures Resolved(p + q, now) == Resolved(p, now) || (Resolved(p + q, now).Some? && Resolved(p + q, now) in q)
  {
    if q == [] {
      assert p + q == p;
    } else {
      var front, last := q[..|q| - 1], q[|q| - 1];
      assert (p + q)[..|p + q| - 1] == p + front;
      assert q == front + [last];
      StaysOrFollows(p, front, now);
    }
  }

  /** A winner that some member of the chain withstands. */
  ghost predicate Withstood(x: Option<VersionedValue>, chain: seq<VersionedValue>, rs: Responses, now: int) {
    x.Some? && Winner(x.value, rs, now) && !BeatsAll(x.value, chain)
  }

  /** `p` arranges the chain and the winners it withstands. */
  ghost predicate Arranges(p: Responses, chain: seq<VersionedValue>, rs: Responses, now: int) {
    forall x :: multiset(p)[x] ==
                multiset(Somes(chain))[x] + if Withstood(x, chain, rs, now) then multiset(rs)[x] else 0
  }

  /** The chain can be run past the winners it withstands: each follows the member it fails to beat. */
  lemma {:induction false} Arranged(chain: seq<VersionedValue>, rs: Responses, now: int) returns (p: Responses)
    requires chain != [] && IsChain(chain, rs, now) && WinnerFree(chain, rs, now)
    ensures Arranges(p, chain, rs, now) && Resolved(p, now) == Some(chain[|chain| - 1])
    decreases |chain|
  {
    var front, last := chain[..|chain| - 1], chain[|chain| - 1];
    var before: Responses := [];
    FrontIsChain(chain, rs, now);
    if front != [] { before := Arranged(front, rs, now); }
    ResolvedAppend(before, last, now);
    var failing := x => Withstood(x, [last], rs, now) && !Withstood(x, front, rs, now);
    var q := Filtered(rs, failing);
    forall x | x in q ensures failing(x) { FilteredCount(rs, failing, x); }
    FailingLeave(before + [Some(last)], q, now, last);
    p := before + [Some(last)] + q;
    forall x ensures multiset(q)[x] == if failing(x) then multiset(rs)[x] else 0 { FilteredCount(rs, failing, x); }
    ArrangeNext(before, q, chain, rs, now);
  }

  lemma FrontIsChain(chain: seq<VersionedValue>, rs: Responses, now: int)
    requires chain != [] && IsChain(chain, rs, now) && WinnerFree(chain, rs, now)
    ensures var front, last := chain[..|chain| - 1], chain[|chain| - 1];
            && IsChain(front, rs, now) && WinnerFree(front, rs, now) && Live(last, now)
            && (front != [] ==> Beats(last, front[|front| - 1]))
  {
    var front, last := chain[..|chain| - 1], chain[|chain| - 1];
    assert chain == front + [last];
    SomesAppend(front, last);
    assert LiveIn(last, rs, now);
  }

  lemma ArrangeNext(before: Responses, q: Responses, chain: seq<VersionedValue>, rs: Responses, now: int)
    requires chain != []
    requires var front, last := chain[..|chain| - 1], chain[|chain| - 1];
             && (if front == [] then before == [] else Arranges(before, front, rs, now))
             && forall x :: multiset(q)[x] ==
                  if Withstood(x, [last], rs, now) && !Withstood(x, front, rs, now) then multiset(rs)[x] else 0
    ensures Arranges(before + [Some(chain[|chain| - 1])] + q, chain, rs, now)
  {
    var front, last := chain[..|chain| - 1], chain[|chain| - 1];
    assert chain == front + [last];
    SomesAppend(front, last);
    forall x
      ensures Withstood(x, chain, rs, now) <==> Withstood(x, front, rs, now) || Withstood(x, [last], rs, now)
    {}
  }

  lemma UncoveredThenBeaten(rs: Responses, chain: seq<VersionedValue>, now: int) returns (p: Responses)
    requires chain != [] && IsChain(chain, rs, now) && WinnerFree(chain, rs, now)
    requires forall w :: Winner(w, rs, now) ==> !BeatsAll(w, chain)
    ensures multiset(p) == multiset(rs)
    ensures Resolved(p, now).Some? && !Greatest(Resolved(p, now).value, rs, now)
  {
    var first := Arranged(chain, rs, now);
    forall x ensures multiset(first)[x] <= multiset(rs)[x] {
      if x in Somes(chain) { assert !Withstood(x, chain, rs, now); }
    }
    var rest := Listed(multiset(rs) - multiset(first));
    p := first + rest;
    StaysOrFollows(first, rest, now);
    ResolvedIsLiveResponse(p, now);
    SameLive(p, rs, now);
    var r := Resolved(p, now).value;
    assert Some(r) in rest ==> multiset(rest)[Some(r)] > 0;
    assert !Winner(r, rs, now);
  }

  /** In whatever order the responses arrive, the result is newest and undominated. */
  ghost predicate AlwaysGreatest(rs: Responses, now: int) {
    forall p :: multiset(p) == multiset(rs) && Resolved(p, now).Some? ==> Greatest(Resolved(p, now).value, rs, now)
  }

  /** The exact condition for that, for all responses. */
  lemma AlwaysGreatestIff(rs: Responses, now: int)
    ensures AlwaysGreatest(rs, now) <==> ChainsCovered(rs, now)
  {
    if ChainsCovered(rs, now) {
      forall p | multiset(p) == multiset(rs) && Resolved(p, now).Some?
        ensures Greatest(Resolved(p, now).value, rs, now)
      {
        CoveredThenGreatest(rs, p, now);
      }
    } else {
      var chain :| chain != [] && IsChain(chain, rs, now) && WinnerFree(chain, rs, now)
        && forall w :: Winner(w, rs, now) ==> !BeatsAll(w, chain);
      var p := UncoveredThenBeaten(rs, chain, now);
    }
  }

  /** With one winner it is enough to look at the responses one by one. */
  lemma OneWinnerDecides(rs: Responses, now: int, w: VersionedValue)
    requires Winner(w, rs, now) && forall v :: Winner(v, rs, now) ==> v == w
    ensures AlwaysGreatest(rs, now) <==>
            forall v :: LiveIn(v, rs, now) && v != w ==> v.timestamp < w.timestamp || After(w.clock, v.clock)
  {
    AlwaysGreatestIff(rs, now);
    forall v | LiveIn(v, rs, now) ensures Beats(w, v) <==> v.timestamp < w.timestamp || After(w.clock, v.clock) {
      WinnerBeatsIff(w, v, rs, now);
    }
    if ChainsCovered(rs, now) {
      forall v | LiveIn(v, rs, now) && v != w ensures Beats(w, v) { var x := LoserBeaten(rs, now, v); }
    } else {
      var chain :| chain != [] && IsChain(chain, rs, now) && WinnerFree(chain, rs, now)
        && forall x :: Winner(x, rs, now) ==> !BeatsAll(x, chain);
      var v :| v in chain && !Beats(w, v);
      assert LiveIn(v, rs, now) && v != w;
    }
  }

  /** Every losing response is beaten by some winner: necessary, and by itself not enough. */
  lemma LoserBeaten(rs: Responses, now: int, v: VersionedValue) returns (w: VersionedValue)
    requires ChainsCovered(rs, now) && LiveIn(v, rs, now) && !Winner(v, rs, now)
    ensures Winner(w, rs, now) && Beats(w, v)
  {
    var chain := [v];
    assert Somes(chain) == [Some(v)] && Some(v) in multiset(rs);
    assert IsChain(chain, rs, now) && WinnerFree(chain, rs, now);
    w :| Winner(w, rs, now) && BeatsAll(w, chain);
    assert v in chain;
  }

  // ------------------------------------------------------------------------------
  // Whoever answers

  /** Whichever of the responses arrive, in whatever order, the result is greatest among them. */
  ghost predicate AlwaysGreatestOfThoseHeard(rs: Responses, now: int) {
    forall p :: multiset(p) <= multiset(rs) && Resolved(p, now).Some? ==> Greatest(Resolved(p, now).value, p, now)
  }

  /** A response dominating a newer one is returned when just these two answer. */
  lemma OlderDominatorWins(a: VersionedValue, b: VersionedValue, now: int)
    requires Live(a, now) && Live(b, now) && After(a.clock, b.clock) && a.timestamp < b.timestamp
    ensures Resolved([Some(a), Some(b)], now) == Some(a) && !Greatest(a, [Some(a), Some(b)], now)
  {
    ResolvedAppend([], a, now);
    ResolvedAppend([Some(a)], b, now);
    assert [] + [Some(a)] == [Some(a)] && [Some(a)] + [Some(b)] == [Some(a), Some(b)];
    AfterIsStrictOrder(a.clock, b.clock, a.clock);
    assert LiveIn(b, [Some(a), Some(b)], now);
  }

  lemma FewerStayConsistent(p: Responses, rs: Responses, now: int)
    requires Consistent(rs, now) && multiset(p) <= multiset(rs)
    ensures Consistent(p, now)
  {
    forall v | LiveIn(v, p, now) ensures LiveIn(v, rs, now) { assert Some(v) in multiset(p); }
  }

  lemma TwoOfThem(a: VersionedValue, b: VersionedValue, rs: Responses)
    requires Some(a) in rs && Some(b) in rs && a != b
    ensures multiset([Some(a), Some(b)]) <= multiset(rs)
  {
    assert Some(a) in multiset(rs) && Some(b) in multiset(rs);
  }

  /** That holds exactly when no response dominates a newer one. */
  lemma AlwaysGreatestOfThoseHeardIff(rs: Responses, now: int)
    ensures AlwaysGreatestOfThoseHeard(rs, now) <==> Consistent(rs, now)
  {
    if Consistent(rs, now) {
      forall p | multiset(p) <= multiset(rs) && Resolved(p, now).Some?
        ensures Greatest(Resolved(p, now).value, p, now)
      {
        FewerStayConsistent(p, rs, now);
        ResolvedIsGreatest(p, now);
      }
    } else {
      var a, b :| LiveIn(a, rs, now) && LiveIn(b, rs, now) && After(a.clock, b.clock) && a.timestamp < b.timestamp;
      OlderDominatorWins(a, b, now);
      TwoOfThem(a, b, rs);
    }
  }

  /** Responses whose dominance agrees with their timestamps have all their chains covered. */
  lemma ConsistentIsCovered(rs: Responses, now: int)
    requires Consistent(rs, now)
    ensures ChainsCovered(rs, now)
  {
    AlwaysGreatestOfThoseHeardIff(rs, now);
    AlwaysGreatestIff(rs, now);
    forall p | multiset(p) == multiset(rs) && Resolved(p, now).Some?
      ensures Greatest(Resolved(p, now).value, rs, now)
    {
      SameLive(p, rs, now);
      assert Greatest(Resolved(p, now).value, p, now);
    }
  }

  // ------------------------------------------------------------------------------
  // Responses that fail

  function At(clock: Clock, timestamp: int): VersionedValue {
    VersionedValue([], clock, timestamp, 0, false)
  }

  lemma BestOfThree(a: VersionedValue, b: VersionedValue, c: VersionedValue, now: int)
    requires Live(a, now) && Live(b, now) && Live(c, now)
    ensures Resolved([Some(a), Some(b), Some(c)], now) == Some(Survivor(Survivor(a, b), c))
  {
    ResolvedAppend([], a, now);
    ResolvedAppend([Some(a)], b, now);
    ResolvedAppend([Some(a), Some(b)], c, now);
    assert [] + [Some(a)] == [Some(a)];
    assert [Some(a)] + [Some(b)] == [Some(a), Some(b)];
    assert [Some(a), Some(b)] + [Some(c)] == [Some(a), Some(b), Some(c)];
  }

  /** Each beats the next and is not beaten back, and the last beats the first. */
  ghost predicate Cycle(a: VersionedValue, b: VersionedValue, c: VersionedValue) {
    && Beats(a, b) && Beats(b, c) && Beats(c, a)
    && !Beats(b, a) && !Beats(c, b) && !Beats(a, c)
  }

  /** Whichever of the three comes last is the result. */
  lemma CycleResolves(a: VersionedValue, b: VersionedValue, c: VersionedValue, now: int)
    requires Cycle(a, b, c) && Live(a, now) && Live(b, now) && Live(c, now)
    ensures Resolved([Some(a), Some(b), Some(c)], now) == Some(c)
    ensures Resolved([Some(c), Some(a), Some(b)], now) == Some(b)
    ensures Resolved([Some(b), Some(c), Some(a)], now) == Some(a)
  {
    BestOfThree(a, b, c, now);
    BestOfThree(c, a, b, now);
    BestOfThree(b, c, a, now);
  }

  /**
   "Beats" can be a cycle: `a` dominates `b`, `b` outdates the concurrent `c`, and `c` outdates
   the concurrent `a`.  The result depends on order and may be dominated.
   */
  lemma ResolutionCycle(now: int)
    ensures var a, b, c := At(map["x" := 2], 1), At(map["x" := 1], 3), At(map["y" := 1], 2);
            var rs := [Some(a), Some(b), Some(c)];
            && Resolved(rs, now) == Some(c) && Resolved([Some(c), Some(a), Some(b)], now) == Some(b)
            && Resolved([Some(b), Some(c), Some(a)], now) == Some(a)
            && After(a.clock, b.clock) && !AlwaysGreatest(rs, now)
  {
    var a, b, c := At(map["x" := 2], 1), At(map["x" := 1], 3), At(map["y" := 1], 2);
    assert Count(a.clock, "x") == 2 && Count(b.clock, "x") == 1 && Count(c.clock, "x") == 0;
    assert Count(a.clock, "y") == 0 && Count(b.clock, "y") == 0 && Count(c.clock, "y") == 1;
    CycleResolves(a, b, c, now);
    assert LiveIn(b, [Some(a), Some(b), Some(c)], now);
  }

  /** A newest live response that no other newest one dominates. */
  ghost predicate NewestTop(t: VersionedValue, rs: Responses, now: int) {
    && LiveIn(t, rs, now)
    && forall v :: LiveIn(v, rs, now) ==>
         v.timestamp <= t.timestamp && (v.timestamp == t.timestamp ==> !After(v.clock, t.clock))
  }

  ghost predicate NewestTopsUndominated(rs: Responses, now: int) {
    forall t, v :: NewestTop(t, rs, now) && LiveIn(v, rs, now) ==> !After(v.clock, t.clock)
  }

  lemma NewestTopsAreNecessary(rs: Responses, now: int)
    requires AlwaysGreatest(rs, now)
    ensures NewestTopsUndominated(rs, now)
  {
    AlwaysGreatestIff(rs, now);
    forall t, v | NewestTop(t, rs, now) && LiveIn(v, rs, now) ensures !After(v.clock, t.clock) {
      if !Winner(t, rs, now) {
        var w := LoserBeaten(rs, now, t);
        WinnerBeatsIff(w, t, rs, now);
        assert false;
      }
    }
  }

  /** `v` and `n` dominate `c`, `m` dominates `u`, and nothing else is dominated. */
  ghost predicate ClocksSlipPast(c: Clock, m: Clock, v: Clock, u: Clock, n: Clock) {
    && After(v, c) && After(n, c) && After(m, u)
    && !After(u, v) && !After(v, u) && !After(n, u) && !After(m, c)
    && !After(c, m) && !After(v, m) && !After(u, m) && !After(n, m)
    && !After(c, n) && !After(v, n) && !After(u, n) && !After(m, n)
  }

  /** Five responses with such clocks, all but the third of one age. */
  ghost predicate SlipsPast(five: seq<VersionedValue>) {
    && |five| == 5
    && ClocksSlipPast(five[0].clock, five[1].clock, five[2].clock, five[3].clock, five[4].clock)
    && five[2].timestamp < five[0].timestamp == five[1].timestamp == five[3].timestamp == five[4].timestamp
  }

  lemma SlippedPast(five: seq<VersionedValue>, now: int)
    requires SlipsPast(five) && forall x :: x in five ==> Live(x, now)
    ensures Resolved(Somes(five), now) == Some(five[3])
  {
    BestOfThree(five[0], five[1], five[2], now);
    var three := [Some(five[0]), Some(five[1]), Some(five[2])];
    ResolvedAppend(three, five[3], now);
    ResolvedAppend(three + [Some(five[3])], five[4], now);
    assert three + [Some(five[3])] + [Some(five[4])] == Somes(five);
  }

  lemma SomesLive(vs: seq<VersionedValue>, now: int)
    requires forall x :: x in vs ==> Live(x, now)
    ensures forall x :: LiveIn(x, Somes(vs), now) <==> x in vs
  {
    forall x | x in vs ensures Some(x) in Somes(vs) {
      var i :| 0 <= i < |vs| && vs[i] == x;
      assert Somes(vs)[i] == Some(x);
    }
  }

  lemma SlippedPastTops(five: seq<VersionedValue>, t: VersionedValue, x: VersionedValue, now: int)
    requires SlipsPast(five) && forall y :: y in five ==> LiveIn(y, Somes(five), now)
    requires NewestTop(t, Somes(five), now) && t in five && x in five
    ensures !After(x.clock, t.clock)
  {
    assert five[0] in five && five[1] in five && five[4] in five;
    assert t.timestamp >= five[0].timestamp;
    AfterIsStrictOrder(t.clock, t.clock, t.clock);
  }

  /**
   Looking at the newest responses alone is not enough: `u` outdates `v`, which dominates `c`,
   so `u` comes through after `m`, which dominates it, was turned away by `c`.
   */
  lemma NewestTopsAreNotEnough(five: seq<VersionedValue>, now: int)
    requires SlipsPast(five) && forall x :: x in five ==> Live(x, now)
    ensures NewestTopsUndominated(Somes(five), now) && !AlwaysGreatest(Somes(five), now)
  {
    SlippedPast(five, now);
    SomesLive(five, now);
    forall t, x | NewestTop(t, Somes(five), now) && LiveIn(x, Somes(five), now) ensures !After(x.clock, t.clock) {
      SlippedPastTops(five, t, x, now);
    }
    assert LiveIn(five[1], Somes(five), now);
  }

  lemma Ahead(x: Clock, y: Clock, n: string)
    requires Count(x, n) > Count(y, n)
    ensures !Leq(x, y) && !After(y, x)
  {}

  lemma FiveClocks() returns (c: Clock, m: Clock, v: Clock, u: Clock, n: Clock)
    ensures ClocksSlipPast(c, m, v, u, n)
  {
    c, m, v, u, n := map["a" := 1], map["b" := 2], map["a" := 1, "d" := 1], map["b" := 1], map["a" := 2];
    Ahead(v, c, "d");
    Ahead(n, c, "a");
    Ahead(m, u, "b");
    Ahead(v, u, "a");
    Ahead(u, v, "b");
    Ahead(u, n, "b");
    Ahead(c, m, "a");
    Ahead(m, c, "b");
    Ahead(m, v, "b");
    Ahead(m, n, "b");
    Ahead(n, v, "a");
    Ahead(n, u, "a");
    Ahead(n, m, "a");
  }

  /** There are such responses. */
  lemma NewestTopsFail(now: int) returns (five: seq<VersionedValue>)
    ensures SlipsPast(five) && NewestTopsUndominated(Somes(five), now) && !AlwaysGreatest(Somes(five), now)
  {
    var c, m, v, u, n := FiveClocks();
    five := [At(c, 5), At(m, 5), At(v, 4), At(u, 5), At(n, 5)];
    NewestTopsAreNotEnough(five, now);
  }
}
