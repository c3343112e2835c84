/** The in-memory sorted table (src/storage/memtable.rs): size accounting, eviction, scans. */
module MemTables {
  import opened Options
  import opened Ordered
  import opened Values

  const ENTRY_OVERHEAD := 128

  function EntrySize(k: Key, v: VersionedValue): nat {
    |k| + |v.value| + ENTRY_OVERHEAD
  }

  /** Total size of a table, entry by entry. */
  ghost function SizeOf(t: Table): nat
    decreases |t|
  {
    if t == map[] then 0 else
    var k :| k in t;
    EntrySize(k, t[k]) + SizeOf(t - {k})
  }

  /** The size of a table is 128 and the key's and the value's bytes for each entry. */
  lemma SizeWithout(t: Table, k: Key)
    requires k in t
    ensures SizeOf(map[]) == 0
    ensures SizeOf(t) == |k| + |t[k].value| + 128 + SizeOf(t - {k})
  {
    SizeSplits(t, k);
  }

  lemma {:induction false} SizeSplits(t: Table, k: Key)
    requires k in t
    ensures SizeOf(t) == EntrySize(k, t[k]) + SizeOf(t - {k})
    decreases |t|
  {
    var j :| j in t && SizeOf(t) == EntrySize(j, t[j]) + SizeOf(t - {j});
    if j != k {
      assert t - {j} - {k} == t - {k} - {j};
      SizeSplits(t - {j}, k);
      SizeSplits(t - {k}, j);
    }
  }

  lemma SizeInsert(t: Table, k: Key, v: VersionedValue)
    ensures SizeOf(t[k := v]) == EntrySize(k, v) + SizeOf(t - {k})
  {
    SizeWithout(t[k := v], k);
    assert t[k := v] - {k} == t - {k};
  }

  function Evicted(t: Table, now: int): Table {
    map k | k in t && !Expired(t[k], now) :: t[k]
  }

  // ------------------------------------------------------------------------------
  // Scans

  predicate InRange(k: Key, start: Key, end: Key) {
    !LexLess(k, start) && LexLess(k, end)
  }

  function LiveOnly(t: Table, keys: seq<Key>, now: int): (r: seq<Key>)
    requires forall k :: k in keys ==> k in t
    ensures forall k :: k in r ==> k in keys
  {
    if keys == [] then [] else
    var rest := LiveOnly(t, keys[1..], now);
    if Live(t[keys[0]], now) then [keys[0]] + rest else rest
  }

  function WithValues(t: Table, keys: seq<Key>): (r: seq<(Key, VersionedValue)>)
    requires forall k :: k in keys ==> k in t
  {
    seq(|keys|, i requires 0 <= i < |keys| => assert keys[i] in keys; (keys[i], t[keys[i]]))
  }

  lemma {:induction false} LiveOnlyElements(t: Table, keys: seq<Key>, now: int)
    requires forall k :: k in keys ==> k in t
    ensures forall k :: k in LiveOnly(t, keys, now) <==> k in keys && Live(t[k], now)
    ensures Increasing(keys, LexLess) ==> Increasing(LiveOnly(t, keys, now), LexLess)
  {
    if keys != [] {
      LiveOnlyElements(t, keys[1..], now);
      assert keys == [keys[0]] + keys[1..];
      if Increasing(keys, LexLess) {
        HeadBelowRest(keys);
        IncreasingCons(keys[0], LiveOnly(t, keys[1..], now));
      }
    }
  }

  lemma HeadBelowRest(keys: seq<Key>)
    requires keys != [] && Increasing(keys, LexLess)
    ensures Increasing(keys[1..], LexLess) && forall k :: k in keys[1..] ==> LexLess(keys[0], k)
  {
    forall k | k in keys[1..] ensures LexLess(keys[0], k) {
      var i :| 0 <= i < |keys[1..]| && keys[1..][i] == k;
      assert keys[i + 1] == k;
    }
  }

  lemma IncreasingCons(head: Key, rest: seq<Key>)
    requires Increasing(rest, LexLess) && forall k :: k in rest ==> LexLess(head, k)
    ensures Increasing([head] + rest, LexLess)
  {
    assert forall i :: 0 <= i < |rest| ==> rest[i] in rest;
  }

  ghost function VisibleKeys(t: Table, start: Key, end: Key, now: int): set<Key> {
    set k | k in t && InRange(k, start, end) && Get(t, k, now).Some?
  }

  /** Range, then filter, then take: the scan pipeline over the table in key order. */
  function Scan(t: Table, start: Key, end: Key, limit: nat, now: int): seq<(Key, VersionedValue)>
    requires !LexLess(end, start)
  {
    var inRange := InOrder((set k | k in t && InRange(k, start, end)));
    var live := LiveOnly(t, inRange, now);
    WithValues(t, Take(live, limit))
  }

  /** The keys in byte order. */
  function InOrder(keys: set<Key>): (r: seq<Key>)
    ensures Increasing(r, LexLess) && forall k :: k in r <==> k in keys
  {
    LexStrictTotal();
    Sorted(keys, LexLess)
  }

  /** A scan is the first `limit` keys, in order, whose `Get` at that instant is present. */
  lemma ScanIsFirstVisible(t: Table, start: Key, end: Key, limit: nat, now: int)
    requires !LexLess(end, start)
    ensures var keys := Take(InOrder(VisibleKeys(t, start, end, now)), limit);
            var r := Scan(t, start, end, limit, now);
            |r| == |keys| && forall i :: 0 <= i < |r| ==>
              r[i].0 == keys[i] && Some(r[i].1) == Get(t, keys[i], now)
  {
    var inRange := set k | k in t && InRange(k, start, end);
    var live := LiveOnly(t, InOrder(inRange), now);
    LexStrictTotal();
    LiveOnlyElements(t, InOrder(inRange), now);
    SortedUnique(live, InOrder(VisibleKeys(t, start, end, now)), LexLess);
    assert forall i :: 0 <= i < |live| ==> live[i] in live;
  }

  /** Tables that agree on every `Get` agree on every scan. */
  lemma ScanRespectsGet(t: Table, u: Table, start: Key, end: Key, limit: nat, now: int)
    requires !LexLess(end, start)
    requires forall k :: Get(t, k, now) == Get(u, k, now)
    ensures Scan(t, start, end, limit, now) == Scan(u, start, end, limit, now)
  {
    ScanIsFirstVisible(t, start, end, limit, now);
    ScanIsFirstVisible(u, start, end, limit, now);
    assert VisibleKeys(t, start, end, now) == VisibleKeys(u, start, end, now);
  }

  /** There are no more keys in order than entries. */
  lemma {:induction false} AscendingCount(keys: seq<Key>, all: set<Key>)
    requires Increasing(keys, LexLess) && forall k :: k in keys ==> k in all
    ensures |keys| <= |all|
  {
    if keys != [] {
      LexStrictTotal();
      HeadBelowRest(keys);
      AscendingCount(keys[1..], all - {keys[0]});
    }
  }

  /** `k` is at or after `start` and before `end`. */
  lemma InRangeIff(k: Key, start: Key, end: Key)
    ensures InRange(k, start, end) <==> (k == start || LexLess(start, k)) && LexLess(k, end)
  {
    LexNotLess(k, start);
  }

  lemma VisibleKeysIff(t: Table, start: Key, end: Key, now: int)
    ensures var keys := InOrder(VisibleKeys(t, start, end, now));
            && |keys| <= |t|
            && forall k :: k in keys <==>
                 Get(t, k, now).Some? && (k == start || LexLess(start, k)) && LexLess(k, end)
  {
    AscendingCount(InOrder(VisibleKeys(t, start, end, now)), t.Keys);
    forall k ensures InRange(k, start, end) <==> (k == start || LexLess(start, k)) && LexLess(k, end) {
      InRangeIff(k, start, end);
    }
  }

  /** A limit cuts the list of all that a scan finds short. */
  lemma ScanLimit(t: Table, start: Key, end: Key, limit: nat, now: int)
    requires !LexLess(end, start)
    ensures var all, r := Scan(t, start, end, |t|, now), Scan(t, start, end, limit, now);
            r <= all && |r| == if |all| <= limit then |all| else limit
  {
    VisibleKeysIff(t, start, end, now);
    ScanIsFirstVisible(t, start, end, |t|, now);
    ScanIsFirstVisible(t, start, end, limit, now);
    var all, r := Scan(t, start, end, |t|, now), Scan(t, start, end, limit, now);
    forall i | 0 <= i < |r| ensures r[i] == all[i] {}
  }

  /**
   Without one, a scan returns in key order, each once, exactly the keys from `start` on and
   before `end` whose get is present, with what the get answers.
   */
  lemma ScanFinds(t: Table, start: Key, end: Key, now: int)
    requires !LexLess(end, start)
    ensures var all := Scan(t, start, end, |t|, now);
            && (forall i, j :: 0 <= i < j < |all| ==> LexLess(all[i].0, all[j].0))
            && (forall i :: 0 <= i < |all| ==> Some(all[i].1) == Get(t, all[i].0, now))
            && (forall k :: (exists i :: 0 <= i < |all| && all[i].0 == k) <==>
                  Get(t, k, now).Some? && (k == start || LexLess(start, k)) && LexLess(k, end))
  {
    var keys := InOrder(VisibleKeys(t, start, end, now));
    ScanIsFirstVisible(t, start, end, |t|, now);
    VisibleKeysIff(t, start, end, now);
    ListsKeys(Scan(t, start, end, |t|, now), keys);
  }

  lemma ListsKeys(all: seq<(Key, VersionedValue)>, keys: seq<Key>)
    requires |all| == |keys| && forall i :: 0 <= i < |all| ==> all[i].0 == keys[i]
    ensures forall k :: k in keys <==> exists i :: 0 <= i < |all| && all[i].0 == k
  {
    forall k | k in keys ensures exists i :: 0 <= i < |all| && all[i].0 == k {
      var i :| 0 <= i < |keys| && keys[i] == k;
      assert all[i].0 == k;
    }
  }

  // ------------------------------------------------------------------------------
  // The table itself

  class MemTable {
    var data: Table
    var sizeBytes: nat
    const maxSizeBytes: nat

    ghost predicate Valid()
      reads this
    {
      sizeBytes == SizeOf(data)
    }

    constructor (maxSizeBytes: nat)
      ensures Valid() && data == map[] && this.maxSizeBytes == maxSizeBytes
    {
      this.maxSizeBytes := maxSizeBytes;
      data, sizeBytes := map[], 0;
    }

    /** Blind overwrite.  The subtraction of the old size cannot underflow. */
    method Put(k: Key, v: VersionedValue) returns (full: bool)
      requires Valid()
      modifies this
      ensures Valid() && data == old(data)[k := v]
      ensures full <==> SizeOf(data) >= maxSizeBytes
    {
      SizeInsert(data, k, v);
      if k in data {
        SizeWithout(data, k);
        sizeBytes := sizeBytes - EntrySize(k, data[k]);
      } else {
        assert data - {k} == data;
      }
      data := data[k := v];
      sizeBytes := sizeBytes + EntrySize(k, v);
      full := sizeBytes >= maxSizeBytes;
    }

    method Delete(k: Key, node: string, now: int) returns (full: bool)
      requires Valid()
      modifies this
      ensures Valid() && data == old(data)[k := DeleteValue(old(data), k, node, now)]
      ensures full <==> SizeOf(data) >= maxSizeBytes
    {
      full := Put(k, Tombstone(node, ClockOf(data, k), now));
    }

    method Drain() returns (drained: Table)
      requires Valid()
      modifies this
      ensures Valid() && drained == old(data) && data == map[]
    {
      drained := data;
      data, sizeBytes := map[], 0;
    }

    /** Drop expired entries and recount the size from scratch. */
    method EvictExpired(now: int) returns (removed: nat)
      requires Valid()
      modifies this
      ensures Valid() && data == Evicted(old(data), now)
      ensures forall k :: Lookup(data, k) ==
                if k in old(data) && (old(data)[k].ttl <= 0 || now <= old(data)[k].timestamp + old(data)[k].ttl)
                then Some(old(data)[k]) else None
      ensures removed == |set k | k in old(data) && Expired(old(data)[k], now)|
    {
      EvictionCount(data, now);
      removed := |data| - |Evicted(data, now)|;
      data := Evicted(data, now);
      sizeBytes := Recount(data);
    }
  }

  lemma EvictionCount(t: Table, now: int)
    ensures |t| - |Evicted(t, now)| == |set k | k in t && Expired(t[k], now)|
  {
    var gone := set k | k in t && Expired(t[k], now);
    assert Evicted(t, now).Keys !! gone && Evicted(t, now).Keys + gone == t.Keys;
  }

  /** Sum the entry sizes, in any order. */
  method Recount(t: Table) returns (total: nat)
    ensures total == SizeOf(t)
  {
    total := 0;
    var rest := t.Keys;
    while rest != {}
      invariant rest <= t.Keys && total == SizeOf(t - rest)
      decreases rest
    {
      var k :| k in rest;
      SizeWithout(t - (rest - {k}), k);
      assert t - (rest - {k}) - {k} == t - rest;
      total, rest := total + EntrySize(k, t[k]), rest - {k};
    }
    assert t - rest == t;
  }
}
