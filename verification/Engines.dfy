/**
 The storage engine object (src/storage/engine.rs).  On a log that ends a line, and while
 snapshot names are in time order, every operation is a run of the durability machine; serial
 runs keep the machine's invariant (`SerialOperationsInv`), and reads are answered from the
 history of writes.
 */
module Engines {
  import opened Options
  import opened Values
  import opened VectorClocks
  import opened MemTables
  import opened Durability
  import WriteAheadLogs
  import Snapshots

  type LineCodec = WriteAheadLogs.Codec<WriteAheadLogs.WalEntry>

  function WritesOf(es: seq<WriteAheadLogs.WalEntry>): seq<Write> {
    seq(|es|, i requires 0 <= i < |es| => Write(es[i].key, es[i].value))
  }

  lemma WritesOfAppend(es: seq<WriteAheadLogs.WalEntry>, e: WriteAheadLogs.WalEntry)
    ensures WritesOf(es + [e]) == WritesOf(es) + [Write(e.key, e.value)]
  {}

  /** Recovery as the files give it: the snapshot whose name sorts last, then the log. */
  ghost function RecoveredByName(d: Disk): Table {
    Replay(if d.saves == map[] then map[] else d.saves[Snapshots.LastByName(d.saves)], d.log)
  }

  lemma ByNameIsByTime(d: Disk)
    ensures Snapshots.InTimeOrder(d.saves) ==> RecoveredByName(d) == Recovered(d)
  {
    Snapshots.NameChoicesAreTimeChoices(d.saves, 0);
  }

  /** The state after a restart, spelled out. */
  ghost function Reopened(s: State): State {
    State(s.now, RecoveredByName(s.disk), s.disk, map[], Idle, s.history)
  }

  lemma ReopenedByTime(s: State, keep: nat)
    ensures Next(s, Reopen, keep) == State(s.now, Recovered(s.disk), s.disk, map[], Idle, s.history)
  {}

  lemma ReopenedByName(s: State, keep: nat)
    ensures Reopened(s) == Next(s, Reopen, keep).(mem := RecoveredByName(s.disk))
    ensures Snapshots.InTimeOrder(s.disk.saves) ==> Reopened(s) == Next(s, Reopen, keep)
  {
    ReopenedByTime(s, keep);
    ByNameIsByTime(s.disk);
  }

  /** A write made and completed while no other is in flight. */
  ghost function Written(s: State, w: Write, now: nat, keep: nat): State {
    Next(Next(Next(s, Tick(now), keep), LogWrite(0, w), keep), ApplyWrite(0), keep)
  }

  ghost function Flushed(s: State, now: nat, keep: nat): State {
    Next(Next(Next(Next(Next(s, Tick(now), keep), Capture, keep), Save, keep), Cleanup, keep), Truncate, keep)
  }

  /** Between serial operations nothing is in flight. */
  ghost predicate Quiet(s: State) {
    s.pending == map[] && s.phase.Idle?
  }

  lemma QuietWriteInv(s: State, w: Write, keep: nat)
    requires Inv(s) && Quiet(s)
    ensures Inv(Next(Next(s, LogWrite(0, w), keep), ApplyWrite(0), keep))
  {
    LogWriteInv(s, 0, w, keep);
    ApplyWriteInv(Next(s, LogWrite(0, w), keep), 0, keep);
  }

  lemma WrittenInv(s: State, w: Write, now: nat, keep: nat)
    requires Inv(s) && Quiet(s)
    ensures Inv(Written(s, w, now, keep))
  {
    TickInv(s, now, keep);
    TickQuiet(s, now, keep);
    QuietWriteInv(Next(s, Tick(now), keep), w, keep);
  }

  lemma StagesInv(s: State, keep: nat)
    requires Inv(s) && keep >= 1
    ensures Inv(Next(Next(Next(s, Save, keep), Cleanup, keep), Truncate, keep))
  {
    var s1 := Next(s, Save, keep);
    StepInv(s, Save, keep);
    StepInv(s1, Cleanup, keep);
    StepInv(Next(s1, Cleanup, keep), Truncate, keep);
  }

  lemma TickQuiet(s: State, now: nat, keep: nat)
    requires Quiet(s)
    ensures Quiet(Next(s, Tick(now), keep))
  {}

  lemma CapturedInv(s: State, keep: nat)
    requires Inv(s) && Quiet(s) && keep >= 1
    ensures Inv(Next(Next(Next(Next(s, Capture, keep), Save, keep), Cleanup, keep), Truncate, keep))
  {
    CaptureInv(s, keep);
    StagesInv(Next(s, Capture, keep), keep);
  }

  lemma FlushedInv(s: State, now: nat, keep: nat)
    requires Inv(s) && Quiet(s) && keep >= 1
    ensures Inv(Flushed(s, now, keep))
  {
    TickInv(s, now, keep);
    TickQuiet(s, now, keep);
    CapturedInv(Next(s, Tick(now), keep), keep);
  }

  lemma WrittenIsLast(s: State, w: Write, now: nat, keep: nat)
    requires Inv(s) && Quiet(s)
    ensures Inv(Written(s, w, now, keep))
    ensures LastWrite(Written(s, w, now, keep).history, w.key) == Some(w.value)
  {
    WrittenInv(s, w, now, keep);
    WrittenHistory(s, w, now, keep);
    LastWriteAppend(s.history, w, w.key);
  }

  /** The state after a write, spelled out. */
  lemma WrittenState(s: State, w: Write, now: nat, keep: nat)
    requires Quiet(s) && s.now <= now
    ensures Written(s, w, now, keep) == s.(now := now, mem := s.mem[w.key := w.value],
                                           disk := s.disk.(log := s.disk.log + [w]), history := s.history + [w])
  {
    assert s.pending[0 := w] - {0} == map[];
  }

  lemma WrittenHistory(s: State, w: Write, now: nat, keep: nat)
    requires Quiet(s)
    ensures Written(s, w, now, keep).history == s.history + [w]
  {}

  /** Every serial operation keeps the invariant. */
  lemma SerialOperationsInv(s: State, w: Write, now: nat, keep: nat)
    requires keep >= 1
    ensures Inv(s) && Quiet(s) ==> Inv(Written(s, w, now, keep))
    ensures Inv(s) && Quiet(s) ==> Inv(Flushed(s, now, keep))
    ensures Inv(s) ==> Inv(Next(Next(s, Tick(now), keep), Evict, keep))
    ensures Inv(s) ==> Inv(Next(s, Reopen, keep))
  {
    if Inv(s) {
      TickInv(s, now, keep);
      EvictInv(Next(s, Tick(now), keep), keep);
      StepInv(s, Reopen, keep);
      if Quiet(s) {
        WrittenInv(s, w, now, keep);
        FlushedInv(s, now, keep);
      }
    }
  }

  /**
   From an acknowledged put on, through any disciplined run without another write of the key,
   the value is readable, from disk and from memory, exactly until its time-to-live runs out.
   */
  lemma AcknowledgedPutLifetime(s: State, k: Key, value: Bytes, node: string, ttl: int, now: nat,
                                steps: seq<Step>, keep: nat, later: int)
    requires Inv(s) && Quiet(s) && keep >= 1 && now >= s.now && !Writes(steps, k)
    requires var s1 := Written(s, Write(k, PutRawValue(s.mem, k, value, node, ttl, now)), now, keep);
             Legal(s1, steps, keep) && later >= Final(s1, steps, keep).now
    ensures var v := PutRawValue(s.mem, k, value, node, ttl, now);
            var s2 := Final(Written(s, Write(k, v), now, keep), steps, keep);
            var r := if ttl <= 0 || later <= now + ttl then Some(v) else None;
            && Get(Recovered(s2.disk), k, later) == r
            && (!KeyPending(s2.pending, k) ==> Get(s2.mem, k, later) == r)
            && (r.Some? ==> r.value.value == value && r.value.timestamp == now && r.value.ttl == ttl)
  {
    PutRawStores(s.mem, k, value, node, ttl, now);
    var w := Write(k, PutRawValue(s.mem, k, value, node, ttl, now));
    WrittenIsLast(s, w, now, keep);
    LastWriteDecides(Written(s, w, now, keep), steps, keep, k, later);
  }

  /** A deleted key stays absent, from disk and from memory, until it is written again. */
  lemma DeletedKeyStaysAbsent(s: State, k: Key, node: string, now: nat, steps: seq<Step>, keep: nat, later: int)
    requires Inv(s) && Quiet(s) && keep >= 1 && now >= s.now && !Writes(steps, k)
    requires var s1 := Written(s, Write(k, DeleteValue(s.mem, k, node, now)), now, keep);
             Legal(s1, steps, keep) && later >= Final(s1, steps, keep).now
    ensures var s2 := Final(Written(s, Write(k, DeleteValue(s.mem, k, node, now)), now, keep), steps, keep);
            && Get(Recovered(s2.disk), k, later).None?
            && (!KeyPending(s2.pending, k) ==> Get(s2.mem, k, later).None?)
  {
    var w := Write(k, DeleteValue(s.mem, k, node, now));
    WrittenIsLast(s, w, now, keep);
    LastWriteDecides(Written(s, w, now, keep), steps, keep, k, later);
  }

  /**
   A crash inside the log append of a write reopens on the table with that write whole or
   without it, never on anything else: with it exactly when no byte of its encoding is missing.
   The log may hold corrupt lines of earlier crashes, and other keys may have writes in flight.
   */
  lemma CrashInsideWriteIsAllOrNothing(
    s: State, codec: LineCodec, crc: WriteAheadLogs.Checksum, file: string, writer: nat,
    e: WriteAheadLogs.WalEntry, cut: nat, k: Key, later: int)
    requires WriteAheadLogs.Lawful(codec) && WriteAheadLogs.EndsLine(file) && WriteAheadLogs.Verify(crc, e)
    requires Inv(s) && s.disk.log == WritesOf(WriteAheadLogs.Replayed(codec, crc, file)) && later >= s.now
    requires Disciplined(s, LogWrite(writer, Write(e.key, e.value))) && writer !in s.pending
    requires cut <= |codec.encode(e)| + 1
    ensures var torn := file + (codec.encode(e) + "\n")[..cut];
            var reopened := Recovered(s.disk.(log := WritesOf(WriteAheadLogs.Replayed(codec, crc, torn))));
            var history := if cut >= |codec.encode(e)| then s.history + [Write(e.key, e.value)] else s.history;
            Get(reopened, k, later) == Visible(history, k, later)
  {
    var w, es := Write(e.key, e.value), WriteAheadLogs.Replayed(codec, crc, file);
    WriteAheadLogs.CrashInsideAppend(codec, crc, file, e, cut);
    WritesOfAppend(es, e);
    if cut >= |codec.encode(e)| {
      LoggedReads(s, writer, w, k, later);
    } else {
      assert es + [] == es;
      InvReads(s, k, later);
    }
  }

  lemma LoggedReads(s: State, writer: nat, w: Write, k: Key, later: int)
    requires Inv(s) && Disciplined(s, LogWrite(writer, w)) && writer !in s.pending && later >= s.now
    ensures Get(Recovered(s.disk.(log := s.disk.log + [w])), k, later) == Visible(s.history + [w], k, later)
  {
    LogWriteInv(s, writer, w, 1);
    InvReads(Next(s, LogWrite(writer, w), 1), k, later);
  }

  /**
   What a crash right after a flush at `now` recovers: nothing if no snapshot is kept, else the
   table whose name then sorts last, which is the flushed one exactly when every other name
   sorts before it.
   */
  lemma FlushDurableIffNamedLast(saves: Snapshots.Saves, data: Table, now: nat, keep: nat)
    requires data != map[]
    ensures var recovered := RecoveredByName(Disk(SavesAfterFlush(saves, data, now, keep), []));
            var saved := saves[now := data];
            assert now in saved;
            var last := Snapshots.LastByName(saved);
            && recovered == (if keep == 0 then map[] else saved[last])
            && (last == now <==> forall t :: t in saves && t != now ==> Snapshots.NamedBefore(t, now))
  {
    var saved := saves[now := data];
    assert now in saved;
    Snapshots.CleanupKeepsLastName(saved, keep);
    Snapshots.LastNameIsIff(saved, now);
    assert forall t :: t in saved && t != now <==> t in saves && t != now;
  }

  class StorageEngine {
    const node: string
    const keep: nat
    const mem: MemTable
    const wal: WriteAheadLogs.WriteAheadLog
    const snaps: Snapshots.SnapshotManager
    var flushRequested: bool
    ghost var clock: nat
    ghost var history: seq<Write>

    ghost function View(): State
      reads this, mem, wal, snaps
    {
      State(clock, mem.data, Disk(snaps.saves, WritesOf(wal.Entries())), map[], Idle, history)
    }

    ghost predicate Valid()
      reads this, mem, wal, snaps
    {
      mem.Valid() && wal.Valid() && snaps.Valid()
    }

    /** Recover into an empty memtable over an opened log and snapshot directory. */
    constructor (node: string, keep: nat, mem: MemTable, wal: WriteAheadLogs.WriteAheadLog,
                 snaps: Snapshots.SnapshotManager, ghost before: State)
      requires mem.Valid() && wal.Valid() && snaps.Valid() && mem.data == map[]
      requires before.disk == Disk(snaps.saves, WritesOf(wal.Entries()))
      modifies mem
      ensures Valid() && View() == Next(before, Reopen, keep).(mem := RecoveredByName(before.disk))
      ensures Snapshots.InTimeOrder(snaps.saves) ==> View() == Next(before, Reopen, keep)
      ensures this.node == node && this.keep == keep
      ensures this.mem == mem && this.wal == wal && this.snaps == snaps
    {
      this.node, this.keep, flushRequested := node, keep, false;
      this.mem, this.wal, this.snaps := mem, wal, snaps;
      clock, history := before.now, before.history;
      new;
      Recover(mem, wal, snaps);
      assert View() == Reopened(before);
      ReopenedByName(before, keep);
    }

    method Get(k: Key, now: nat) returns (r: Option<VersionedValue>)
      requires Valid() && Inv(View()) && clock <= now
      ensures r == Visible(history, k, now)
    {
      assert !KeyPending(View().pending, k);
      InvReads(View(), k, now);
      if k !in mem.data { return None; }
      var val := mem.data[k];
      if Expired(val, now) { return None; }
      if val.deleted { return None; }
      return Some(val);
    }

    /** Log first, then memory.  After a torn line the log is appended to all the same. */
    method LogAndApply(k: Key, v: VersionedValue, now: nat) returns (full: bool)
      requires Valid() && clock <= now
      modifies this`clock, this`history, mem, wal
      ensures Valid() && wal.Terminated() && (full <==> SizeOf(mem.data) >= mem.maxSizeBytes)
      ensures wal.file == old(wal.file) + wal.LineAt(old(wal.sequence) + 1, k, v) && mem.data == old(mem.data)[k := v]
      ensures old(wal.Terminated()) ==> View() == Written(old(View()), Write(k, v), now, keep)
    {
      ghost var before, entries, terminated := View(), wal.Entries(), wal.Terminated();
      var n := wal.Append(k, v);
      full := mem.Put(k, v);
      clock, history := now, history + [Write(k, v)];
      WrittenState(before, Write(k, v), now, keep);
      WritesOfAppend(entries, WriteAheadLogs.NewEntry(wal.crc, n, k, v));
      assert terminated ==> View() == Written(before, Write(k, v), now, keep);
    }

    method Put(k: Key, v: VersionedValue, now: nat)
      requires Valid() && clock <= now
      modifies this, mem, wal
      ensures Valid() && wal.Terminated()
      ensures wal.file == old(wal.file) + wal.LineAt(old(wal.sequence) + 1, k, v) && mem.data == old(mem.data)[k := v]
      ensures old(wal.Terminated()) ==> View() == Written(old(View()), Write(k, v), now, keep)
      ensures flushRequested <==> old(flushRequested) || SizeOf(mem.data) >= mem.maxSizeBytes
    {
      var full := LogAndApply(k, v, now);
      if full { flushRequested := true; }
    }

    method PutRaw(k: Key, value: Bytes, ttl: int, now: nat)
      requires Valid() && clock <= now
      modifies this, mem, wal
      ensures Valid() && wal.Terminated()
      ensures var v := PutRawValue(old(mem.data), k, value, node, ttl, now);
              && wal.file == old(wal.file) + wal.LineAt(old(wal.sequence) + 1, k, v)
              && mem.data == old(mem.data)[k := v]
              && (old(wal.Terminated()) ==> View() == Written(old(View()), Write(k, v), now, keep))
      ensures k in mem.data && mem.data[k].value == value && mem.data[k].ttl == ttl
      ensures mem.data[k].timestamp == now && !mem.data[k].deleted
      ensures flushRequested <==> old(flushRequested) || SizeOf(mem.data) >= mem.maxSizeBytes
    {
      PutRawStores(mem.data, k, value, node, ttl, now);
      var versioned := NewValue(value, node, ttl, now);
      var clocks := new VectorClock(versioned.clock);
      clocks.Merge(ClockOf(mem.data, k));
      Put(k, versioned.(clock := clocks.clocks), now);
    }

    method Delete(k: Key, now: nat)
      requires Valid() && clock <= now
      modifies this, mem, wal
      ensures Valid() && wal.Terminated()
      ensures var v := DeleteValue(old(mem.data), k, node, now);
              && wal.file == old(wal.file) + wal.LineAt(old(wal.sequence) + 1, k, v)
              && mem.data == old(mem.data)[k := v]
              && (old(wal.Terminated()) ==> View() == Written(old(View()), Write(k, v), now, keep))
      ensures k in mem.data && mem.data[k].deleted && mem.data[k].value == [] && mem.data[k].timestamp == now
      ensures flushRequested == old(flushRequested)
    {
      DeleteStores(mem.data, k, node, now);
      var full := LogAndApply(k, Tombstone(node, ClockOf(mem.data, k), now), now);
    }

    /** The reaper's pass: nothing is logged. */
    method EvictExpired(now: nat) returns (removed: nat)
      requires Valid() && clock <= now
      modifies this, mem
      ensures Valid() && View() == Next(Next(old(View()), Tick(now), keep), Evict, keep)
      ensures flushRequested == old(flushRequested)
    {
      removed := mem.EvictExpired(now);
      clock := now;
    }

    /** Snapshot, clean up, truncate; an empty table is not flushed. */
    method Flush(now: nat)
      requires Valid() && clock <= now
      modifies this, wal, snaps
      ensures Valid() && clock == now && history == old(history)
      ensures snaps.saves == SavesAfterFlush(old(snaps.saves), mem.data, now, keep)
      ensures wal.file == if mem.data == map[] then old(wal.file) else []
      ensures mem.data != map[] ==> |snaps.saves| <= keep
      ensures mem.data == map[] || Snapshots.InTimeOrder(old(snaps.saves)[now := mem.data]) ==>
                View() == Flushed(old(View()), now, keep)
    {
      clock := now;
      var data := mem.data;
      if data == map[] { return; }
      Persist(data, now);
      assert WritesOf(wal.Entries()) == [];
    }

    method Persist(data: Table, now: nat)
      requires Valid()
      modifies wal, snaps
      ensures Valid() && wal.Entries() == [] && wal.file == [] && |snaps.saves| <= keep
      ensures snaps.saves == Snapshots.CleanedBy(old(snaps.saves)[now := data], keep, Snapshots.NameLess)
      ensures Snapshots.InTimeOrder(old(snaps.saves)[now := data]) ==>
                snaps.saves == Snapshots.Cleaned(old(snaps.saves)[now := data], keep)
    {
      snaps.Save(data, now);
      var removed := snaps.Cleanup(keep);
      wal.Truncate();
    }
  }

  ghost function SavesAfterFlush(saves: Snapshots.Saves, data: Table, now: nat, keep: nat): Snapshots.Saves {
    if data == map[] then saves else Snapshots.CleanedBy(saves[now := data], keep, Snapshots.NameLess)
  }

  /**
   Open on the files that `before` left, whatever it was doing when it stopped: load the
   snapshot whose name sorts last, then replay the log, torn and corrupt lines skipped.
   */
  method Open(node: string, keep: nat, maxBytes: nat, codec: LineCodec, crc: WriteAheadLogs.Checksum,
              file: string, files: map<string, Table>, ghost before: State)
    returns (engine: StorageEngine)
    requires WriteAheadLogs.Lawful(codec) && Snapshots.Represents(files, before.disk.saves)
    requires before.disk.log == WritesOf(WriteAheadLogs.Replayed(codec, crc, file))
    ensures engine.Valid() && engine.View() == Next(before, Reopen, keep).(mem := RecoveredByName(before.disk))
    ensures Snapshots.InTimeOrder(before.disk.saves) ==> engine.View() == Next(before, Reopen, keep)
    ensures engine.wal.file == file
    ensures fresh(engine) && fresh(engine.mem) && fresh(engine.wal) && fresh(engine.snaps)
  {
    var mem := new MemTable(maxBytes);
    var snaps := new Snapshots.SnapshotManager(files, before.disk.saves);
    var wal := new WriteAheadLogs.WriteAheadLog(codec, crc, file);
    engine := new StorageEngine(node, keep, mem, wal, snaps, before);
  }

  /** Load the snapshot found into an empty memtable, then replay the log on top. */
  method Recover(mem: MemTable, wal: WriteAheadLogs.WriteAheadLog, snaps: Snapshots.SnapshotManager)
    requires mem.Valid() && wal.Valid() && snaps.Valid() && mem.data == map[]
    modifies mem
    ensures mem.Valid() && mem.data == RecoveredByName(Disk(snaps.saves, WritesOf(wal.Entries())))
  {
    var snapshot := snaps.LoadLatest();
    if snapshot.Some? {
      LoadTable(mem, snapshot.value);
    }
    var replayed := WriteAheadLogs.Replay(wal.codec, wal.crc, wal.file);
    ReplayInto(mem, replayed);
  }

  /** Insert every entry of a table, in any order, into an empty memtable. */
  method LoadTable(mem: MemTable, t: Table)
    requires mem.Valid() && mem.data == map[]
    modifies mem
    ensures mem.Valid() && mem.data == t
  {
    var rest := t.Keys;
    while rest != {}
      invariant mem.Valid() && rest <= t.Keys && mem.data == t - rest
      decreases rest
    {
      var k :| k in rest;
      var full := mem.Put(k, t[k]);
      rest := rest - {k};
    }
    assert t - rest == t;
  }

  method ReplayInto(mem: MemTable, es: seq<WriteAheadLogs.WalEntry>)
    requires mem.Valid()
    modifies mem
    ensures mem.Valid() && mem.data == Replay(old(mem.data), WritesOf(es))
  {
    for i := 0 to |es|
      invariant mem.Valid() && mem.data == Replay(old(mem.data), WritesOf(es[..i]))
    {
      var full := mem.Put(es[i].key, es[i].value);
      assert WritesOf(es[..i + 1])[..i] == WritesOf(es[..i]);
    }
    assert es[..|es|] == es;
  }
}
