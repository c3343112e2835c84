/** Versioned values: expiry, tombstones and the clock history of one key. */
module Values {
  import opened Options
  import opened VectorClocks

  // A Rust string is the sequence of its UTF-8 bytes, each written as the char of the same
  // code: |key| is the byte length and the order on chars is the byte order.
  type Key = string
  newtype Byte = x: int | 0 <= x < 256
  type Bytes = seq<Byte>
  type Table = map<Key, VersionedValue>

  datatype VersionedValue = VersionedValue(
    value: Bytes, clock: Clock, timestamp: int, ttl: int, deleted: bool)

  const TOMBSTONE_TTL := 300_000

  /** A value with no positive time-to-live never expires. */
  predicate Expired(v: VersionedValue, now: int) {
    v.ttl > 0 && now > v.timestamp + v.ttl
  }

  predicate Live(v: VersionedValue, now: int) {
    !Expired(v, now) && !v.deleted
  }

  function NewValue(value: Bytes, node: string, ttl: int, now: int): VersionedValue {
    VersionedValue(value, Incremented(map[], node), now, ttl, false)
  }

  function Tombstone(node: string, clock: Clock, now: int): VersionedValue {
    VersionedValue([], Incremented(clock, node), now, TOMBSTONE_TTL, true)
  }

  function Lookup(t: Table, k: Key): Option<VersionedValue> {
    if k in t then Some(t[k]) else None
  }

  /** What a reader sees: absent, expired and deleted entries are all invisible. */
  function Get(t: Table, k: Key, now: int): Option<VersionedValue> {
    if k in t && Live(t[k], now) then Some(t[k]) else None
  }

  function ClockOf(t: Table, k: Key): Clock {
    if k in t then t[k].clock else map[]
  }

  /** The value `put_raw` writes: a fresh {node: 1} clock merged with the stored one. */
  function PutRawValue(t: Table, k: Key, value: Bytes, node: string, ttl: int, now: int): VersionedValue {
    var v := NewValue(value, node, ttl, now);
    v.(clock := Merged(v.clock, ClockOf(t, k)))
  }

  function DeleteValue(t: Table, k: Key, node: string, now: int): VersionedValue {
    Tombstone(node, ClockOf(t, k), now)
  }

  /** What a get answers, field by field. */
  lemma GetIff(t: Table, k: Key, now: int)
    ensures Get(t, k, now) ==
            if k in t && !t[k].deleted && (t[k].ttl <= 0 || now <= t[k].timestamp + t[k].ttl) then Some(t[k]) else None
  {}

  /**
   A put stores the caller's bytes and time-to-live, stamped now; it raises this node's counter
   to at least 1 and leaves the others.
   */
  lemma PutRawStores(t: Table, k: Key, value: Bytes, node: string, ttl: int, now: int)
    ensures var v, was := PutRawValue(t, k, value, node, ttl, now), if k in t then t[k].clock else map[];
            && v.value == value && v.timestamp == now && v.ttl == ttl && !v.deleted
            && Count(v.clock, node) == (if Count(was, node) > 1 then Count(was, node) else 1)
            && forall n :: n != node ==> Count(v.clock, n) == Count(was, n)
  {}

  /** A delete stores an empty tombstone that lives five minutes and raises this node's counter by one. */
  lemma DeleteStores(t: Table, k: Key, node: string, now: int)
    ensures var v, was := DeleteValue(t, k, node, now), if k in t then t[k].clock else map[];
            && v.value == [] && v.timestamp == now && v.ttl == 300_000 && v.deleted
            && Count(v.clock, node) == Count(was, node) + 1
            && forall n :: n != node ==> Count(v.clock, n) == Count(was, n)
  {}

  // ------------------------------------------------------------------------------
  // Clock history of one key, written only by this node, without evictions

  datatype KeyOp = PutRaw(value: Bytes, ttl: int, at: int) | Delete(at: int)

  function Apply(t: Table, k: Key, node: string, op: KeyOp): Table {
    match op
    case PutRaw(value, ttl, at) => t[k := PutRawValue(t, k, value, node, ttl, at)]
    case Delete(at) => t[k := DeleteValue(t, k, node, at)]
  }

  function ApplyAll(t: Table, k: Key, node: string, ops: seq<KeyOp>): Table {
    if ops == [] then t else Apply(ApplyAll(t, k, node, ops[..|ops| - 1]), k, node, ops[|ops| - 1])
  }

  function Deletes(ops: seq<KeyOp>): nat {
    if ops == [] then 0 else
    Deletes(ops[..|ops| - 1]) + (if ops[|ops| - 1].Delete? then 1 else 0)
  }

  /** One step never lowers the clock, and raises it exactly for a delete or a first put. */
  lemma ClockStep(t: Table, k: Key, node: string, op: KeyOp)
    ensures var before, after := ClockOf(t, k), ClockOf(Apply(t, k, node, op), k);
            && Leq(before, after)
            && (After(after, before) <==> op.Delete? || Count(before, node) == 0)
            && Count(after, node) == Count(before, node) +
               (if op.Delete? || Count(before, node) == 0 then 1 else 0)
            && (forall n :: n != node ==> Count(after, n) == Count(before, n))
  {
    var before, after := ClockOf(t, k), ClockOf(Apply(t, k, node, op), k);
    if op.PutRaw? {
      assert after == Merged(Incremented(map[], node), before);
    }
    if After(after, before) {
      var n :| Count(after, n) > Count(before, n);
      assert n == node;
    }
  }

  /** Over a whole history the stored clock never decreases, whatever prefix it is compared with. */
  lemma {:induction false} ClockHistoryMonotone(t: Table, k: Key, node: string, ops: seq<KeyOp>, i: nat)
    requires i <= |ops|
    ensures Leq(ClockOf(ApplyAll(t, k, node, ops[..i]), k), ClockOf(ApplyAll(t, k, node, ops), k))
  {
    if i == |ops| {
      assert ops[..i] == ops;
    } else {
      var front := ops[..|ops| - 1];
      assert front[..i] == ops[..i];
      ClockHistoryMonotone(t, k, node, front, i);
      ClockStep(ApplyAll(t, k, node, front), k, node, ops[|ops| - 1]);
    }
  }

  /** A clock written by this node alone stays so. */
  lemma SoloStep(t: Table, k: Key, node: string, op: KeyOp, c: nat)
    requires ClockOf(t, k) == (if c == 0 then map[] else map[node := c])
    ensures ClockOf(Apply(t, k, node, op), k) ==
            map[node := if op.Delete? || c == 0 then c + 1 else c]
  {
    var one: Clock := Incremented(map[], node);
    assert Merged(one, map[]) == map[node := 1];
    assert Merged(one, map[node := c]) == map[node := if c > 1 then c else 1];
  }

  /** From an absent key this node's counter is 1 plus the deletes after the first operation. */
  lemma {:induction false} ClockHistoryCounter(t: Table, k: Key, node: string, ops: seq<KeyOp>)
    requires k !in t && ops != []
    ensures ClockOf(ApplyAll(t, k, node, ops), k) == map[node := 1 + Deletes(ops[1..])]
  {
    var front, last := ops[..|ops| - 1], ops[|ops| - 1];
    if front == [] {
      assert ops[1..] == [];
      SoloStep(t, k, node, last, 0);
    } else {
      ClockHistoryCounter(t, k, node, front);
      assert ops[1..][..|ops| - 2] == front[1..];
      SoloStep(ApplyAll(t, k, node, front), k, node, last, 1 + Deletes(front[1..]));
    }
  }
}
