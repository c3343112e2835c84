/**
 The snapshot directory (src/storage/snapshot.rs).  Files are found by sorting their names, so
 "latest" is a fact about strings.  The directory refines a map from save time to table; the
 order of names is the order of times exactly when no digit count gets in the way.
 */
module Snapshots {
  import opened Options
  import opened Ordered
  import opened Values
  import Decimal

  type Saves = map<nat, Table>

  const PREFIX := "snapshot_"
  const SUFFIX := ".dat"

  function FileName(stamp: nat): string {
    PREFIX + Decimal.Render(stamp) + SUFFIX
  }

  predicate IsSnapshotName(name: string) {
    PREFIX <= name && |name| >= |SUFFIX| && name[|name| - |SUFFIX|..] == SUFFIX
  }

  // ------------------------------------------------------------------------------
  // Reference: a map from save time to table, with its keys in some order

  function TimesBy(saves: Saves, lt: (nat, nat) -> bool): (times: seq<nat>)
    requires StrictTotal(lt)
    ensures Increasing(times, lt) && forall t :: t in times <==> t in saves
  {
    Sorted(saves.Keys, lt)
  }

  function LastBy(saves: Saves, lt: (nat, nat) -> bool): (t: nat)
    requires StrictTotal(lt) && saves != map[]
    ensures t in saves && forall u :: u in saves ==> u == t || lt(u, t)
  {
    var times := TimesBy(saves, lt);
    assert times != [] by {
      var t :| t in saves;
      assert t in times;
    }
    assert forall u :: u in saves ==> u == times[|times| - 1] || lt(u, times[|times| - 1]) by {
      forall u | u in saves ensures u == times[|times| - 1] || lt(u, times[|times| - 1]) {
        var i :| 0 <= i < |times| && times[i] == u;
      }
    }
    assert times[|times| - 1] in times;
    times[|times| - 1]
  }

  /** The saves later than `t`. */
  function Beyond(saves: Saves, t: nat, lt: (nat, nat) -> bool): set<nat> {
    set u | u in saves && lt(t, u)
  }

  /** Keep a save when fewer than `keep` are later. */
  function CleanedBy(saves: Saves, keep: nat, lt: (nat, nat) -> bool): Saves {
    map t | t in saves && |Beyond(saves, t, lt)| < keep :: saves[t]
  }

  function Newest(saves: Saves): (t: nat)
    requires saves != map[]
    ensures t in saves && forall u :: u in saves ==> u <= t
  {
    LessStrictTotal();
    LastBy(saves, Less)
  }

  lemma NewestUnique(saves: Saves, t: nat)
    requires t in saves && forall u :: u in saves ==> u <= t
    ensures Newest(saves) == t
  {}

  /** The table recovery starts from: the newest snapshot, or nothing. */
  function Latest(saves: Saves): Table {
    if saves == map[] then map[] else saves[Newest(saves)]
  }

  function Cleaned(saves: Saves, keep: nat): Saves {
    CleanedBy(saves, keep, Less)
  }

  /** Cleaning up keeps the newest snapshot exactly when at least one is to be kept. */
  lemma CleanupKeepsLatest(saves: Saves, keep: nat)
    ensures Cleaned(saves, 0) == map[]
    ensures keep >= 1 ==> Latest(Cleaned(saves, keep)) == Latest(saves)
  {
    if saves != map[] && keep >= 1 {
      var t := Newest(saves);
      assert Beyond(saves, t, Less) == {};
      NewestUnique(Cleaned(saves, keep), t);
    }
  }

  // ------------------------------------------------------------------------------
  // When names sort like their timestamps

  predicate NameLess(t: nat, u: nat) {
    LexLess(FileName(t), FileName(u))
  }

  /** Of two times, the digits of the earlier are no larger than the leading digits of the later. */
  predicate NamesInOrder(t: nat, u: nat) {
    var n, m := |Decimal.Render(t)|, |Decimal.Render(u)|;
    n <= m && t <= Decimal.Leading(u, m - n)
  }

  lemma FileNameOrder(t: nat, u: nat, k: nat)
    requires |Decimal.Render(u)| == |Decimal.Render(t)| + k
    ensures var lead := Decimal.Leading(u, k);
            NameLess(t, u) <==> t < lead || (t == lead && k > 0)
  {
    var a, b := Decimal.Render(t), Decimal.Render(u);
    NameTails(t, u);
    assert forall c :: c in b[|a|..] ==> c in b;
    assert b == b[..|a|] + b[|a|..];
    DigitsThenSuffix(a, b[..|a|], b[|a|..]);
    HeadOrder(t, u, k);
  }

  lemma HeadOrder(t: nat, u: nat, k: nat)
    requires |Decimal.Render(u)| == |Decimal.Render(t)| + k
    ensures var a, head, lead := Decimal.Render(t), Decimal.Render(u)[..|Decimal.Render(t)|], Decimal.Leading(u, k);
            (LexLess(a, head) <==> t < lead) && (a == head <==> t == lead)
  {
    var lead := Decimal.Leading(u, k);
    Decimal.LeadingDigits(u, k);
    Decimal.EqualLengthOrder(t, lead);
    if Decimal.Render(t) == Decimal.Render(lead) { Decimal.RenderInjective(t, lead); }
  }

  /** Names compare as their digits followed by the suffix. */
  lemma NameTails(t: nat, u: nat)
    ensures NameLess(t, u) <==> LexLess(Decimal.Render(t) + SUFFIX, Decimal.Render(u) + SUFFIX)
  {
    var a, b := Decimal.Render(t), Decimal.Render(u);
    assert FileName(t) == PREFIX + (a + SUFFIX) && FileName(u) == PREFIX + (b + SUFFIX);
    LexHeads(PREFIX, PREFIX, a + SUFFIX, b + SUFFIX);
    LexIrreflexive(PREFIX);
  }

  lemma DigitsThenSuffix(a: string, head: string, tail: string)
    requires |a| == |head| && forall c :: c in tail ==> '0' <= c <= '9'
    ensures LexLess(a + SUFFIX, head + tail + SUFFIX) <==> LexLess(a, head) || (a == head && tail != [])
  {
    assert head + tail + SUFFIX == head + (tail + SUFFIX);
    LexHeads(a, head, SUFFIX, tail + SUFFIX);
    SuffixBelowDigits(tail);
  }

  /** The dot that ends a name sorts below every digit. */
  lemma SuffixBelowDigits(tail: string)
    requires forall c :: c in tail ==> '0' <= c <= '9'
    ensures LexLess(SUFFIX, tail + SUFFIX) <==> tail != []
  {
    if tail == [] {
      assert tail + SUFFIX == SUFFIX;
      LexIrreflexive(SUFFIX);
    } else {
      assert (tail + SUFFIX)[0] == tail[0] && tail[0] in tail;
    }
  }

  /** The exact condition under which an earlier save's name sorts before a later one's. */
  lemma NamesSortByTimeIff(t: nat, u: nat)
    requires t < u
    ensures NameLess(t, u) <==> NamesInOrder(t, u)
  {
    Decimal.LongerIsNotSmaller(t, u);
    FileNameOrder(t, u, |Decimal.Render(u)| - |Decimal.Render(t)|);
    Decimal.LeadingStep(u, 0);
  }

  /** The order of two names, as a condition on the times, whichever is earlier. */
  predicate NamedBefore(t: nat, u: nat) {
    if t < u then NamesInOrder(t, u) else t > u && !NamesInOrder(u, t)
  }

  lemma NamedBeforeIff(t: nat, u: nat)
    ensures NameLess(t, u) <==> NamedBefore(t, u)
  {
    NameStrictTotal();
    if t < u { NamesSortByTimeIff(t, u); }
    if u < t { NamesSortByTimeIff(u, t); }
  }

  lemma FileNameInjective(t: nat, u: nat)
    requires FileName(t) == FileName(u)
    ensures t == u
  {
    var a, b := Decimal.Render(t), Decimal.Render(u);
    assert FileName(t)[|PREFIX|..][..|a|] == a && FileName(u)[|PREFIX|..][..|b|] == b;
    Decimal.RenderInjective(t, u);
  }

  lemma NameStrictTotal()
    ensures StrictTotal(NameLess)
  {
    LexStrictTotal();
    forall t, u | t != u ensures NameLess(t, u) || NameLess(u, t) {
      if FileName(t) == FileName(u) { FileNameInjective(t, u); }
    }
  }

  function TimesByName(saves: Saves): seq<nat> {
    NameStrictTotal();
    TimesBy(saves, NameLess)
  }

  /** The save whose name sorts last. */
  function LastByName(saves: Saves): (t: nat)
    requires saves != map[]
    ensures t in saves && forall u :: u in saves ==> u == t || NameLess(u, t)
  {
    NameStrictTotal();
    LastBy(saves, NameLess)
  }

  /** Every earlier save's name sorts before every later one's. */
  predicate InTimeOrder(saves: Saves) {
    forall t, u :: t in saves && u in saves && t < u ==> NamesInOrder(t, u)
  }

  /** Times of one digit count are in order. */
  lemma EqualDigitsInTimeOrder(saves: Saves, digits: nat)
    requires forall t :: t in saves ==> |Decimal.Render(t)| == digits
    ensures InTimeOrder(saves)
  {
    forall t, u | t in saves && u in saves && t < u ensures NamesInOrder(t, u) { Decimal.LeadingStep(u, 0); }
  }

  lemma NameOrderIsTimeOrder(saves: Saves, t: nat, u: nat)
    requires InTimeOrder(saves) && t in saves && u in saves
    ensures NameLess(t, u) <==> Less(t, u)
  {
    if t < u { NamesSortByTimeIff(t, u); }
    if u < t { NamesSortByTimeIff(u, t); }
    NameStrictTotal();
  }

  /** While the saves are in time order, picking by name is picking by time. */
  lemma NameChoicesAreTimeChoices(saves: Saves, keep: nat)
    ensures InTimeOrder(saves) && saves != map[] ==> LastByName(saves) == Newest(saves)
    ensures InTimeOrder(saves) ==> CleanedBy(saves, keep, NameLess) == Cleaned(saves, keep)
  {
    NameStrictTotal();
    if InTimeOrder(saves) {
      forall t, u | t in saves && u in saves ensures NameLess(t, u) <==> Less(t, u) {
        NameOrderIsTimeOrder(saves, t, u);
      }
      forall t | t in saves ensures Beyond(saves, t, NameLess) == Beyond(saves, t, Less) {}
    }
  }

  /** The name sorting last is the newest save's exactly when every other name sorts before it. */
  lemma LastNameIsNewestIff(saves: Saves)
    requires saves != map[]
    ensures LastByName(saves) == Newest(saves) <==>
            forall t :: t in saves && t != Newest(saves) ==> NamesInOrder(t, Newest(saves))
  {
    var last, newest := LastByName(saves), Newest(saves);
    NameStrictTotal();
    forall t | t in saves && t != newest ensures NameLess(t, newest) <==> NamesInOrder(t, newest) {
      NamesSortByTimeIff(t, newest);
    }
  }

  lemma LastNameFollowsAll(saves: Saves, now: nat)
    requires now in saves
    ensures LastByName(saves) == now <==> forall t :: t in saves && t != now ==> NameLess(t, now)
  {
    NameStrictTotal();
  }

  /** A save's name sorts last exactly when every other name sorts before it. */
  lemma LastNameIsIff(saves: Saves, now: nat)
    requires now in saves
    ensures LastByName(saves) == now <==> forall t :: t in saves && t != now ==> NamedBefore(t, now)
  {
    LastNameFollowsAll(saves, now);
    forall t ensures NameLess(t, now) <==> NamedBefore(t, now) { NamedBeforeIff(t, now); }
  }

  /** Cleaning up by name keeps the save whose name sorts last, if any is kept. */
  lemma CleanupKeepsLastName(saves: Saves, keep: nat)
    requires saves != map[]
    ensures var kept := CleanedBy(saves, keep, NameLess);
            && (keep == 0 ==> kept == map[])
            && (keep >= 1 ==> kept != map[] && LastByName(kept) == LastByName(saves)
                              && kept[LastByName(saves)] == saves[LastByName(saves)])
  {
    NameStrictTotal();
    var last, kept := LastByName(saves), CleanedBy(saves, keep, NameLess);
    assert Beyond(saves, last, NameLess) == {};
    if keep >= 1 {
      assert last in kept;
      assert forall u :: u in kept ==> u in saves;
    }
  }

  lemma FileNameSpelled(t: nat)
    ensures FileName(t) == "snapshot_" + Decimal.Render(t) + ".dat"
  {}

  // ------------------------------------------------------------------------------
  // The directory

  /** The snapshot files are those of `saves`; other files may be there too. */
  ghost predicate Represents(files: map<string, Table>, saves: Saves) {
    && (forall t :: t in saves ==> FileName(t) in files && files[FileName(t)] == saves[t])
    && (forall n :: n in files && IsSnapshotName(n) ==> exists t :: t in saves && FileName(t) == n)
  }

  function SortedNames(files: map<string, Table>): (names: seq<string>)
    ensures Increasing(names, LexLess)
    ensures forall n :: n in names <==> n in files && IsSnapshotName(n)
  {
    LexStrictTotal();
    Sorted((set n | n in files && IsSnapshotName(n)), LexLess)
  }

  function NamesOf(times: seq<nat>): seq<string> {
    seq(|times|, i requires 0 <= i < |times| => FileName(times[i]))
  }

  /** A file not named like a snapshot, from prefix to suffix, is no part of the listing. */
  lemma StrayFileIgnored(files: map<string, Table>, n: string, t: Table)
    requires !("snapshot_" <= n) || |n| < 4 || n[|n| - 4..] != ".dat"
    ensures SortedNames(files[n := t]) == SortedNames(files)
  {
    LexStrictTotal();
    SortedUnique(SortedNames(files[n := t]), SortedNames(files), LexLess);
  }

  lemma FileNameIsSnapshotName(t: nat)
    ensures IsSnapshotName(FileName(t))
  {
    var n := FileName(t);
    assert n[..|PREFIX|] == PREFIX;
    assert n[|n| - |SUFFIX|..] == SUFFIX;
  }

  lemma NamesMatch(files: map<string, Table>, saves: Saves, times: seq<nat>, n: string)
    requires Represents(files, saves)
    requires forall t :: t in times <==> t in saves
    ensures n in NamesOf(times) <==> n in files && IsSnapshotName(n)
  {
    var names := NamesOf(times);
    if n in names {
      var i :| 0 <= i < |names| && names[i] == n;
      assert times[i] in saves;
      FileNameIsSnapshotName(times[i]);
    }
    if n in files && IsSnapshotName(n) {
      var t :| t in saves && FileName(t) == n;
      var i :| 0 <= i < |times| && times[i] == t;
      assert names[i] == n;
    }
  }

  lemma NamesIncrease(times: seq<nat>)
    requires Increasing(times, NameLess)
    ensures Increasing(NamesOf(times), LexLess)
  {
    assert forall i, j :: 0 <= i < j < |times| ==> NameLess(times[i], times[j]);
  }

  /** Sorting the names is sorting the times by name. */
  lemma NamesFollowTimes(files: map<string, Table>, saves: Saves)
    requires Represents(files, saves)
    ensures SortedNames(files) == NamesOf(TimesByName(saves))
  {
    LexStrictTotal();
    NameStrictTotal();
    var times := TimesByName(saves);
    NamesIncrease(times);
    forall n ensures n in NamesOf(times) <==> n in files && IsSnapshotName(n) {
      NamesMatch(files, saves, times, n);
    }
    assert Increasing(SortedNames(files), LexLess);
    SortedUnique(SortedNames(files), NamesOf(times), LexLess);
  }

  lemma LastByIsLast(saves: Saves, lt: (nat, nat) -> bool)
    requires StrictTotal(lt)
    ensures var times := TimesBy(saves, lt);
            && (times == [] <==> saves == map[])
            && (saves != map[] ==> LastBy(saves, lt) == times[|times| - 1])
  {
    var times := TimesBy(saves, lt);
    assert times != [] ==> times[0] in saves;
  }

  /** The file whose name sorts last holds the save whose time is last by name. */
  lemma LastNameIsLatest(files: map<string, Table>, saves: Saves)
    requires Represents(files, saves)
    ensures var names := SortedNames(files);
            && (names == [] <==> saves == map[])
            && (saves != map[] ==> files[names[|names| - 1]] == saves[LastByName(saves)])
  {
    NameStrictTotal();
    NamesFollowTimes(files, saves);
    LastByIsLast(saves, NameLess);
    LastNamed(TimesByName(saves));
  }

  lemma LastNamed(times: seq<nat>)
    ensures |NamesOf(times)| == |times|
    ensures times != [] ==> NamesOf(times)[|times| - 1] == FileName(times[|times| - 1])
  {}

  /** In an increasing sequence, order of elements is order of indices. */
  lemma IndexOrder(times: seq<nat>, i: nat, j: nat, lt: (nat, nat) -> bool)
    requires StrictTotal(lt) && Increasing(times, lt) && i < |times| && j < |times|
    ensures lt(times[i], times[j]) <==> i < j
    ensures times[i] == times[j] ==> i == j
  {
    assert i < j ==> lt(times[i], times[j]);
    assert j < i ==> lt(times[j], times[i]);
  }

  ghost function Elements(s: seq<nat>): set<nat> {
    set x | x in s
  }

  lemma {:induction false} DistinctCount(s: seq<nat>)
    requires forall i, j :: 0 <= i < j < |s| ==> s[i] != s[j]
    ensures |Elements(s)| == |s|
  {
    if s != [] {
      var front, last := s[..|s| - 1], s[|s| - 1];
      DistinctCount(front);
      assert s == front + [last];
      assert Elements(s) == Elements(front) + {last};
      assert last !in Elements(front);
    }
  }

  /** Of the times in order, those beyond the i-th are the ones after it. */
  lemma BeyondIsSuffix(saves: Saves, times: seq<nat>, i: nat, lt: (nat, nat) -> bool)
    requires StrictTotal(lt) && times == TimesBy(saves, lt) && i < |times|
    ensures |Beyond(saves, times[i], lt)| == |times| - 1 - i
  {
    var rest := times[i + 1..];
    forall j, k | 0 <= j < k < |rest| ensures rest[j] != rest[k] {
      IndexOrder(times, i + 1 + j, i + 1 + k, lt);
    }
    DistinctCount(rest);
    forall u ensures u in Beyond(saves, times[i], lt) <==> u in rest {
      if u in times {
        var j :| 0 <= j < |times| && times[j] == u;
        IndexOrder(times, i, j, lt);
        assert j > i ==> rest[j - i - 1] == u;
      }
      if u in rest {
        var j :| 0 <= j < |rest| && rest[j] == u;
        assert times[i + 1 + j] == u && u in times;
        IndexOrder(times, i, i + 1 + j, lt);
      }
    }
    assert Beyond(saves, times[i], lt) == Elements(rest);
  }

  class SnapshotManager {
    var files: map<string, Table>
    ghost var saves: Saves

    ghost predicate Valid()
      reads this
    {
      Represents(files, saves)
    }

    constructor (files: map<string, Table>, ghost saves: Saves)
      requires Represents(files, saves)
      ensures Valid() && this.files == files && this.saves == saves
    {
      this.files, this.saves := files, saves;
    }

    /** Write the table to the file named after the clock, replacing a file of that name. */
    method Save(data: Table, now: nat)
      requires Valid()
      modifies this
      ensures Valid() && saves == old(saves)[now := data]
    {
      forall t | t in saves && FileName(t) == FileName(now) ensures t == now {
        FileNameInjective(t, now);
      }
      files := files[FileName(now) := data];
      saves := saves[now := data];
    }

    method LoadLatest() returns (r: Option<Table>)
      requires Valid()
      ensures r == if saves == map[] then None else Some(saves[LastByName(saves)])
      ensures InTimeOrder(saves) && saves != map[] ==> r == Some(Latest(saves))
    {
      var names := SortedNames(files);
      LastNameIsLatest(files, saves);
      NameChoicesAreTimeChoices(saves, 0);
      return if names == [] then None else Some(files[names[|names| - 1]]);
    }

    /** Remove all but the `keep` files whose names sort last. */
    method Cleanup(keep: nat) returns (removed: nat)
      requires Valid()
      modifies this
      ensures Valid() && saves == CleanedBy(old(saves), keep, NameLess)
      ensures InTimeOrder(old(saves)) ==> saves == Cleaned(old(saves), keep)
      ensures removed == if |old(saves)| > keep then |old(saves)| - keep else 0
      ensures |saves| == if |old(saves)| <= keep then |old(saves)| else keep
    {
      NameStrictTotal();
      CleanedExactly(saves, keep, NameLess);
      CleanupPlan(files, saves, keep);
      NameChoicesAreTimeChoices(saves, keep);
      var names := SortedNames(files);
      removed := if |names| > keep then |names| - keep else 0;
      RemoveFirst(names, removed, TimesByName(saves));
    }

    method RemoveFirst(names: seq<string>, count: nat, ghost times: seq<nat>)
      requires Valid()
      requires times == TimesByName(saves) && names == NamesOf(times) && count <= |names|
      modifies this
      ensures Valid() && saves == DropOldest(old(saves), times, count)
    {
      ghost var s0 := saves;
      DropNone(s0, times);
      for i := 0 to count
        invariant Valid() && saves == DropOldest(s0, times, i)
      {
        RemoveNext(names[i], s0, times, i);
      }
    }

    method RemoveNext(name: string, ghost s0: Saves, ghost times: seq<nat>, ghost i: nat)
      requires Valid()
      requires times == TimesByName(s0) && i < |times| && saves == DropOldest(s0, times, i)
      requires name == FileName(times[i])
      modifies this
      ensures Valid() && saves == DropOldest(s0, times, i + 1)
    {
      NameStrictTotal();
      DropNext(s0, times, i, NameLess);
      RemoveFile(name, times[i]);
    }

    method RemoveFile(name: string, ghost t: nat)
      requires Valid() && t in saves && name == FileName(t)
      modifies this
      ensures Valid() && saves == old(saves) - {t}
    {
      forall u | u in saves && FileName(u) == name ensures u == t {
        FileNameInjective(u, t);
      }
      files := files - {name};
      saves := saves - {t};
    }
  }

  /** `saves` without the `n` first of `times`. */
  ghost function DropOldest(saves: Saves, times: seq<nat>, n: nat): Saves
    requires n <= |times|
  {
    map t | t in saves && t !in times[..n] :: saves[t]
  }

  lemma DropNone(saves: Saves, times: seq<nat>)
    ensures DropOldest(saves, times, 0) == saves
  {}

  lemma DropNext(saves: Saves, times: seq<nat>, n: nat, lt: (nat, nat) -> bool)
    requires StrictTotal(lt) && n < |times| && times == TimesBy(saves, lt)
    ensures times[n] in DropOldest(saves, times, n)
    ensures DropOldest(saves, times, n + 1) == DropOldest(saves, times, n) - {times[n]}
  {
    assert times[n] in times;
    forall i | 0 <= i < n ensures times[i] != times[n] { IndexOrder(times, i, n, lt); }
    assert times[..n + 1] == times[..n] + [times[n]];
  }

  lemma TimesCount(saves: Saves, lt: (nat, nat) -> bool)
    requires StrictTotal(lt)
    ensures |TimesBy(saves, lt)| == |saves|
  {
    var times := TimesBy(saves, lt);
    forall i, j | 0 <= i < j < |times| ensures times[i] != times[j] { IndexOrder(times, i, j, lt); }
    DistinctCount(times);
    assert Elements(times) == saves.Keys;
  }

  lemma DropAllButKeep(saves: Saves, keep: nat, lt: (nat, nat) -> bool)
    requires StrictTotal(lt)
    ensures var times := TimesBy(saves, lt);
            DropOldest(saves, times, if |times| > keep then |times| - keep else 0) == CleanedBy(saves, keep, lt)
  {
    var times := TimesBy(saves, lt);
    var n := if |times| > keep then |times| - keep else 0;
    forall t | t in saves ensures t in times[..n] <==> |Beyond(saves, t, lt)| >= keep {
      var i :| 0 <= i < |times| && times[i] == t;
      BeyondIsSuffix(saves, times, i, lt);
      if t in times[..n] {
        var j :| 0 <= j < n && times[j] == t;
        IndexOrder(times, i, j, lt);
      }
      assert i < n ==> times[..n][i] == t;
    }
  }

  /** Removing the files whose names sort first, all but `keep`, leaves the cleaned saves. */
  lemma CleanupPlan(files: map<string, Table>, saves: Saves, keep: nat)
    requires Represents(files, saves)
    ensures var times := TimesByName(saves);
            && SortedNames(files) == NamesOf(times) && |times| == |saves| == |NamesOf(times)|
            && DropOldest(saves, times, if |times| > keep then |times| - keep else 0)
               == CleanedBy(saves, keep, NameLess)
  {
    NameStrictTotal();
    NamesFollowTimes(files, saves);
    TimesCount(saves, NameLess);
    DropAllButKeep(saves, keep, NameLess);
  }

  /** `kept` is some of `saves`, unchanged, each beyond all that is left out. */
  ghost predicate LastOf(kept: Saves, saves: Saves, lt: (nat, nat) -> bool) {
    && (forall t :: t in kept ==> t in saves && kept[t] == saves[t])
    && (forall t, u :: t in kept && u in saves && u !in kept ==> lt(u, t))
  }

  /** Cleaning up keeps the last `keep` saves, or all if there are no more. */
  lemma CleanedExactly(saves: Saves, keep: nat, lt: (nat, nat) -> bool)
    requires StrictTotal(lt)
    ensures var kept := CleanedBy(saves, keep, lt);
            |kept| == (if |saves| <= keep then |saves| else keep) && LastOf(kept, saves, lt)
  {
    var times, kept := TimesBy(saves, lt), CleanedBy(saves, keep, lt);
    var n := if |times| > keep then |times| - keep else 0;
    TimesCount(saves, lt);
    DropAllButKeep(saves, keep, lt);
    KeptCount(saves, times, n, lt);
    KeptAreLast(saves, times, n, lt);
  }

  /** Dropping the first `n` times keeps exactly the rest. */
  lemma DropKeepsRest(saves: Saves, times: seq<nat>, n: nat, t: nat, lt: (nat, nat) -> bool)
    requires StrictTotal(lt) && times == TimesBy(saves, lt) && n <= |times|
    ensures t in DropOldest(saves, times, n) <==> t in times[n..]
  {
    if t in times[n..] {
      var i :| 0 <= i < |times| - n && times[n..][i] == t;
      assert times[n + i] == t && t in times;
      forall j | 0 <= j < n ensures times[j] != t { IndexOrder(times, j, n + i, lt); }
    }
    if t in saves && t !in times[n..] {
      var i :| 0 <= i < |times| && times[i] == t;
      forall j | n <= j < |times| ensures times[j] != t { assert times[n..][j - n] == times[j]; }
      assert times[..n][i] == t;
    }
  }

  lemma KeptCount(saves: Saves, times: seq<nat>, n: nat, lt: (nat, nat) -> bool)
    requires StrictTotal(lt) && times == TimesBy(saves, lt) && n <= |times|
    ensures |DropOldest(saves, times, n)| == |times| - n
  {
    var kept, rest := DropOldest(saves, times, n), times[n..];
    forall t ensures t in kept <==> t in rest { DropKeepsRest(saves, times, n, t, lt); }
    forall i, j | 0 <= i < j < |rest| ensures rest[i] != rest[j] { IndexOrder(times, n + i, n + j, lt); }
    DistinctCount(rest);
    assert kept.Keys == Elements(rest);
  }

  lemma KeptBeyond(times: seq<nat>, n: nat, t: nat, u: nat, lt: (nat, nat) -> bool)
    requires Increasing(times, lt) && n <= |times| && t in times[n..] && u in times[..n]
    ensures lt(u, t)
  {
    var i :| 0 <= i < |times| - n && times[n..][i] == t;
    var j :| 0 <= j < n && times[..n][j] == u;
    assert lt(times[j], times[n + i]);
  }

  lemma KeptAreLast(saves: Saves, times: seq<nat>, n: nat, lt: (nat, nat) -> bool)
    requires StrictTotal(lt) && times == TimesBy(saves, lt) && n <= |times|
    ensures LastOf(DropOldest(saves, times, n), saves, lt)
  {
    var kept := DropOldest(saves, times, n);
    forall t, u | t in kept && u in saves && u !in kept ensures lt(u, t) {
      DropKeepsRest(saves, times, n, t, lt);
      KeptBeyond(times, n, t, u, lt);
    }
  }
}
