/**
 Crash recovery of the storage engine (src/storage/engine.rs) as a step machine.  Writes are
 split into a log step and a memory step, a flush into its four stages; the reaper, the clock
 and crash-and-reopen may strike at any point.  The reference is the plain history of logged
 writes: a reader should see the last write of a key while it is live, and nothing else.
 */
module Durability {
  import opened Options
  import opened Ordered
  import opened Values
  import opened MemTables
  import opened Snapshots

  datatype Write = Write(key: Key, value: VersionedValue)

  /** Apply logged writes in order on top of a table. */
  function Replay(t: Table, log: seq<Write>): Table {
    if log == [] then t else
    var w := log[|log| - 1];
    Replay(t, log[..|log| - 1])[w.key := w.value]
  }

  /** The last write of a key, if any. */
  function LastWrite(log: seq<Write>, k: Key): Option<VersionedValue> {
    if log == [] then None else
    var w := log[|log| - 1];
    if w.key == k then Some(w.value) else LastWrite(log[..|log| - 1], k)
  }

  /** `log[i]` writes `k` and nothing after it does. */
  ghost predicate LastAt(log: seq<Write>, k: Key, i: nat) {
    i < |log| && log[i].key == k && forall j :: i < j < |log| ==> log[j].key != k
  }

  lemma {:induction false} LastWriteIff(log: seq<Write>, k: Key)
    ensures LastWrite(log, k).None? <==> forall i :: 0 <= i < |log| ==> log[i].key != k
    ensures forall i: nat :: LastAt(log, k, i) ==> LastWrite(log, k) == Some(log[i].value)
  {
    if log != [] && log[|log| - 1].key != k {
      var front := log[..|log| - 1];
      LastWriteIff(front, k);
      forall i: nat | LastAt(log, k, i) ensures LastWrite(log, k) == Some(log[i].value) {
        assert LastAt(front, k, i);
      }
      assert forall i :: 0 <= i < |front| ==> front[i] == log[i];
    }
  }

  lemma {:induction false} ReplayLookup(t: Table, log: seq<Write>, k: Key)
    ensures Lookup(Replay(t, log), k) ==
            if LastWrite(log, k).Some? then LastWrite(log, k) else Lookup(t, k)
  {
    if log != [] { ReplayLookup(t, log[..|log| - 1], k); }
  }

  lemma {:induction false} LastWriteConcat(a: seq<Write>, b: seq<Write>, k: Key)
    ensures LastWrite(a + b, k) == if LastWrite(b, k).Some? then LastWrite(b, k) else LastWrite(a, k)
  {
    if b == [] {
      assert a + b == a;
    } else {
      assert (a + b)[..|a + b| - 1] == a + b[..|b| - 1];
      LastWriteConcat(a, b[..|b| - 1], k);
    }
  }

  lemma LastWriteAppend(log: seq<Write>, w: Write, k: Key)
    ensures LastWrite(log + [w], k) == if w.key == k then Some(w.value) else LastWrite(log, k)
  {
    assert (log + [w])[..|log|] == log;
  }

  // ------------------------------------------------------------------------------
  // The machine

  datatype Disk = Disk(saves: Saves, log: seq<Write>)

  function Recovered(d: Disk): Table {
    Replay(Latest(d.saves), d.log)
  }

  /** How far a flush has got, with the table it captured. */
  datatype Phase = Idle | Captured(data: Table) | Saved(data: Table) | Trimmed(data: Table)

  datatype State = State(
    now: nat, mem: Table, disk: Disk, pending: map<nat, Write>, phase: Phase, history: seq<Write>)

  datatype Step =
    | LogWrite(writer: nat, write: Write)
    | ApplyWrite(writer: nat)
    | Evict
    | Capture
    | Save
    | Cleanup
    | Truncate
    | Tick(later: nat)
    | Reopen

  function Init(now: nat): State {
    State(now, map[], Disk(map[], []), map[], Idle, [])
  }

  /** One step; a step that is not possible in `s` does nothing. */
  function Next(s: State, step: Step, keep: nat): State {
    match step
    case LogWrite(writer, w) =>
      if writer in s.pending then s else
      s.(disk := s.disk.(log := s.disk.log + [w]), pending := s.pending[writer := w], history := s.history + [w])
    case ApplyWrite(writer) =>
      if writer !in s.pending then s else
      var w := s.pending[writer];
      s.(mem := s.mem[w.key := w.value], pending := s.pending - {writer})
    case Evict => s.(mem := Evicted(s.mem, s.now))
    case Capture => if !s.phase.Idle? || s.mem == map[] then s else s.(phase := Captured(s.mem))
    case Save =>
      if !s.phase.Captured? then s else
      s.(disk := s.disk.(saves := s.disk.saves[s.now := s.phase.data]), phase := Saved(s.phase.data))
    case Cleanup =>
      if !s.phase.Saved? then s else
      s.(disk := s.disk.(saves := Cleaned(s.disk.saves, keep)), phase := Trimmed(s.phase.data))
    case Truncate =>
      if !s.phase.Trimmed? then s else s.(disk := s.disk.(log := []), phase := Idle)
    case Tick(later) => if later < s.now then s else s.(now := later)
    case Reopen => s.(mem := Recovered(s.disk), pending := map[], phase := Idle)
  }

  ghost predicate KeyPending(pending: map<nat, Write>, k: Key) {
    exists w :: w in pending && pending[w].key == k
  }

  /**
   What the engine relies on and does not enforce: no two writes of one key in flight, and
   no write in flight between a flush's capture and its truncation.
   */
  ghost predicate Disciplined(s: State, step: Step) {
    match step
    case LogWrite(writer, w) => s.phase.Idle? && !KeyPending(s.pending, w.key)
    case Capture => s.pending == map[]
    case _ => true
  }

  ghost function Final(s: State, steps: seq<Step>, keep: nat): State
    decreases |steps|
  {
    if steps == [] then s else Final(Next(s, steps[0], keep), steps[1..], keep)
  }

  ghost predicate Legal(s: State, steps: seq<Step>, keep: nat)
    decreases |steps|
  {
    steps == [] || (Disciplined(s, steps[0]) && Legal(Next(s, steps[0], keep), steps[1..], keep))
  }

  // ------------------------------------------------------------------------------
  // The invariant

  /** `b` is `a`, up to the loss of an entry that has expired. */
  ghost predicate Covers(a: Option<VersionedValue>, b: Option<VersionedValue>, now: int) {
    a == b || (b.None? && a.Some? && Expired(a.value, now))
  }

  ghost predicate TableCovers(a: Table, b: Table, now: int) {
    forall k :: Covers(Lookup(a, k), Lookup(b, k), now)
  }

  ghost predicate HistoryCovers(history: seq<Write>, t: Table, now: int) {
    forall k :: Covers(LastWrite(history, k), Lookup(t, k), now)
  }

  ghost predicate MemoryCovered(s: State) {
    forall k :: KeyPending(s.pending, k) || Covers(Lookup(Recovered(s.disk), k), Lookup(s.mem, k), s.now)
  }

  ghost predicate PendingLogged(s: State) {
    && (forall w :: w in s.pending ==> Lookup(Recovered(s.disk), s.pending[w].key) == Some(s.pending[w].value))
    && (forall v, w :: v in s.pending && w in s.pending && v != w ==> s.pending[v].key != s.pending[w].key)
  }

  ghost predicate FlushCovered(s: State) {
    s.phase.Idle? || (
      && s.pending == map[]
      && TableCovers(Recovered(s.disk), s.phase.data, s.now)
      && TableCovers(s.phase.data, s.mem, s.now)
      && (s.phase.Captured? || Latest(s.disk.saves) == s.phase.data))
  }

  ghost predicate StampedInPast(s: State) {
    forall t :: t in s.disk.saves ==> t <= s.now
  }

  ghost predicate Inv(s: State) {
    && StampedInPast(s)
    && HistoryCovers(s.history, Recovered(s.disk), s.now)
    && MemoryCovered(s)
    && PendingLogged(s)
    && FlushCovered(s)
  }

  lemma InitInv(now: nat)
    ensures Inv(Init(now))
  {}

  lemma LogWriteInv(s: State, writer: nat, w: Write, keep: nat)
    requires Inv(s) && Disciplined(s, LogWrite(writer, w)) && writer !in s.pending
    ensures Inv(Next(s, LogWrite(writer, w), keep))
  {
    var s' := Next(s, LogWrite(writer, w), keep);
    assert Recovered(s'.disk) == Recovered(s.disk)[w.key := w.value] by {
      assert (s.disk.log + [w])[..|s.disk.log|] == s.disk.log;
    }
    assert HistoryCovers(s'.history, Recovered(s'.disk), s'.now) by {
      forall k ensures Covers(LastWrite(s'.history, k), Lookup(Recovered(s'.disk), k), s'.now) {
        LastWriteAppend(s.history, w, k);
        assert Covers(LastWrite(s.history, k), Lookup(Recovered(s.disk), k), s.now);
      }
    }
    PendingGrows(s, s', writer, w);
    assert MemoryCovered(s') by {
      forall k ensures KeyPending(s'.pending, k) || Covers(Lookup(Recovered(s'.disk), k), Lookup(s'.mem, k), s'.now) {
        assert KeyPending(s.pending, k) || Covers(Lookup(Recovered(s.disk), k), Lookup(s.mem, k), s.now);
      }
    }
  }

  lemma PendingGrows(s: State, s': State, writer: nat, w: Write)
    requires PendingLogged(s) && !KeyPending(s.pending, w.key) && writer !in s.pending
    requires s'.pending == s.pending[writer := w] && Recovered(s'.disk) == Recovered(s.disk)[w.key := w.value]
    ensures PendingLogged(s') && forall k :: KeyPending(s'.pending, k) <==> KeyPending(s.pending, k) || k == w.key
  {
    assert s'.pending[writer] == w;
    forall v | v in s.pending ensures s'.pending[v] == s.pending[v] && s.pending[v].key != w.key {
      assert s.pending[v].key == w.key ==> KeyPending(s.pending, w.key);
    }
    forall k | KeyPending(s.pending, k) ensures KeyPending(s'.pending, k) {
      var v :| v in s.pending && s.pending[v].key == k;
      assert s'.pending[v].key == k;
    }
  }

  lemma ApplyWriteInv(s: State, writer: nat, keep: nat)
    requires Inv(s) && writer in s.pending
    ensures Inv(Next(s, ApplyWrite(writer), keep))
  {
    var s' := Next(s, ApplyWrite(writer), keep);
    var w := s.pending[writer];
    forall k ensures KeyPending(s'.pending, k) || Covers(Lookup(Recovered(s'.disk), k), Lookup(s'.mem, k), s'.now) {
      if k != w.key && KeyPending(s.pending, k) {
        var v :| v in s.pending && s.pending[v].key == k;
        assert s'.pending[v].key == k;
      }
    }
  }

  lemma EvictInv(s: State, keep: nat)
    requires Inv(s)
    ensures Inv(Next(s, Evict, keep))
  {}

  lemma TickInv(s: State, later: nat, keep: nat)
    requires Inv(s)
    ensures Inv(Next(s, Tick(later), keep))
  {}

  lemma CaptureInv(s: State, keep: nat)
    requires Inv(s) && s.pending == map[]
    ensures Inv(Next(s, Capture, keep))
  {
    assert forall k :: !KeyPending(s.pending, k);
  }

  /** Replaying the log over the new snapshot, which already holds its effects, is harmless. */
  lemma SaveInv(s: State, keep: nat)
    requires Inv(s) && s.phase.Captured?
    ensures Inv(Next(s, Save, keep))
  {
    var s' := Next(s, Save, keep);
    var data := s.phase.data;
    NewestUnique(s'.disk.saves, s.now);
    forall k
      ensures Lookup(Recovered(s'.disk), k) == Lookup(Recovered(s.disk), k)
           || Lookup(Recovered(s'.disk), k) == Lookup(data, k)
    {
      ReplayLookup(Latest(s.disk.saves), s.disk.log, k);
      ReplayLookup(data, s.disk.log, k);
    }
    FlushStageInv(s, s');
  }

  lemma CleanupInv(s: State, keep: nat)
    requires Inv(s) && s.phase.Saved? && keep >= 1
    ensures Inv(Next(s, Cleanup, keep))
  {
    CleanupStage(s, keep);
    SnapshotStageInv(s, Next(s, Cleanup, keep));
  }

  lemma CleanupStage(s: State, keep: nat)
    requires s.phase.Saved? && keep >= 1
    ensures SnapshotStage(s, Next(s, Cleanup, keep))
  {
    CleanupFacts(s.disk, keep);
    TrimmedStage(s, s.disk.(saves := Cleaned(s.disk.saves, keep)));
    CleanupNext(s, keep);
  }

  lemma CleanupNext(s: State, keep: nat)
    requires s.phase.Saved?
    ensures Next(s, Cleanup, keep) ==
            s.(disk := s.disk.(saves := Cleaned(s.disk.saves, keep)), phase := Trimmed(s.phase.data))
  {}

  lemma TrimmedStage(s: State, d: Disk)
    requires s.phase.Saved? && RecoversAlike(s.disk, d)
    ensures SnapshotStage(s, s.(disk := d, phase := Trimmed(s.phase.data)))
  {}

  /** A flush stage after the save that changes neither the latest snapshot nor what is recovered. */
  ghost predicate SnapshotStage(s: State, s': State) {
    && s.phase.Saved? && s'.phase == Trimmed(s.phase.data) && s'.(disk := s.disk, phase := s.phase) == s
    && RecoversAlike(s.disk, s'.disk)
  }

  lemma SnapshotStageInv(s: State, s': State)
    requires Inv(s) && SnapshotStage(s, s')
    ensures Inv(s')
  {
    FlushStageInv(s, s');
  }

  /** `d'` has no new save and nothing that recovery reads differs. */
  ghost predicate RecoversAlike(d: Disk, d': Disk) {
    && Latest(d'.saves) == Latest(d.saves) && Recovered(d') == Recovered(d)
    && forall t :: t in d'.saves ==> t in d.saves
  }

  lemma CleanupFacts(d: Disk, keep: nat)
    requires keep >= 1
    ensures RecoversAlike(d, d.(saves := Cleaned(d.saves, keep)))
  {
    CleanupKeepsLatest(d.saves, keep);
  }

  lemma TruncateInv(s: State, keep: nat)
    requires Inv(s) && s.phase.Trimmed?
    ensures Inv(Next(s, Truncate, keep))
  {
    FlushStageInv(s, Next(s, Truncate, keep));
  }

  /** A flush stage may change the recovered table only towards the captured one. */
  lemma FlushStageInv(s: State, s': State)
    requires Inv(s) && !s.phase.Idle?
    requires s'.(disk := s.disk, phase := s.phase) == s
    requires forall t :: t in s'.disk.saves ==> t <= s.now
    requires forall k :: Lookup(Recovered(s'.disk), k) == Lookup(Recovered(s.disk), k)
                      || Lookup(Recovered(s'.disk), k) == Lookup(s.phase.data, k)
    requires s'.phase.Idle? || (s'.phase.data == s.phase.data && Latest(s'.disk.saves) == s.phase.data)
    ensures Inv(s')
  {
    forall k
      ensures Covers(LastWrite(s.history, k), Lookup(Recovered(s'.disk), k), s.now)
      ensures Covers(Lookup(Recovered(s'.disk), k), Lookup(s.phase.data, k), s.now)
      ensures Covers(Lookup(Recovered(s'.disk), k), Lookup(s.mem, k), s.now)
    {
      assert Covers(LastWrite(s.history, k), Lookup(Recovered(s.disk), k), s.now);
      assert Covers(Lookup(Recovered(s.disk), k), Lookup(s.phase.data, k), s.now);
      assert Covers(Lookup(s.phase.data, k), Lookup(s.mem, k), s.now);
    }
  }

  lemma StepInv(s: State, step: Step, keep: nat)
    requires Inv(s) && Disciplined(s, step) && keep >= 1
    ensures Inv(Next(s, step, keep))
  {
    if Next(s, step, keep) != s {
      match step
      case LogWrite(writer, w) => LogWriteInv(s, writer, w, keep);
      case ApplyWrite(writer) => ApplyWriteInv(s, writer, keep);
      case Evict => EvictInv(s, keep);
      case Capture => CaptureInv(s, keep);
      case Save => SaveInv(s, keep);
      case Cleanup => CleanupInv(s, keep);
      case Truncate => TruncateInv(s, keep);
      case Tick(later) => TickInv(s, later, keep);
      case Reopen =>
    }
  }

  lemma {:induction false} RunInv(s: State, steps: seq<Step>, keep: nat)
    requires Inv(s) && Legal(s, steps, keep) && keep >= 1
    ensures Inv(Final(s, steps, keep))
    decreases |steps|
  {
    if steps != [] {
      StepInv(s, steps[0], keep);
      RunInv(Next(s, steps[0], keep), steps[1..], keep);
    }
  }

  // ------------------------------------------------------------------------------
  // What readers see

  /** The reference answer: the last write of the key, while it is live. */
  function Visible(history: seq<Write>, k: Key, now: int): Option<VersionedValue> {
    var last := LastWrite(history, k);
    if last.Some? && Live(last.value, now) then last else None
  }

  lemma CoveredReads(a: Option<VersionedValue>, t: Table, k: Key, now: int, later: int)
    requires Covers(a, Lookup(t, k), now) && now <= later
    ensures Get(t, k, later) == if a.Some? && Live(a.value, later) then a else None
  {}

  /**
   In every disciplined run, at every instant from now on, both the memtable (off keys with a
   write in flight) and the table a crash would recover answer every get like the history.
   */
  lemma EngineRefinesHistory(now: nat, steps: seq<Step>, keep: nat, k: Key, later: int)
    requires keep >= 1 && Legal(Init(now), steps, keep) && later >= Final(Init(now), steps, keep).now
    ensures var s := Final(Init(now), steps, keep);
            && Get(Recovered(s.disk), k, later) == Visible(s.history, k, later)
            && (!KeyPending(s.pending, k) ==> Get(s.mem, k, later) == Visible(s.history, k, later))
  {
    InitInv(now);
    RunInv(Init(now), steps, keep);
    InvReads(Final(Init(now), steps, keep), k, later);
  }

  lemma InvReads(s: State, k: Key, later: int)
    requires Inv(s) && later >= s.now
    ensures Get(Recovered(s.disk), k, later) == Visible(s.history, k, later)
    ensures !KeyPending(s.pending, k) ==> Get(s.mem, k, later) == Visible(s.history, k, later)
  {
    CoveredReads(LastWrite(s.history, k), Recovered(s.disk), k, s.now, later);
    if !KeyPending(s.pending, k) {
      CoveredReads(Lookup(Recovered(s.disk), k), s.mem, k, s.now, later);
    }
  }

  /** With no write in flight, every scan of memory equals the scan of the recovered table. */
  lemma ScansSurviveRecovery(s: State, start: Key, end: Key, limit: nat, later: int)
    requires Inv(s) && s.pending == map[] && later >= s.now && !LexLess(end, start)
    ensures Scan(s.mem, start, end, limit, later) == Scan(Recovered(s.disk), start, end, limit, later)
  {
    forall k ensures Get(s.mem, k, later) == Get(Recovered(s.disk), k, later) {
      InvReads(s, k, later);
    }
    ScanRespectsGet(s.mem, Recovered(s.disk), start, end, limit, later);
  }

  /** What a restart recovers holds all that memory held, off keys with a write in flight. */
  lemma RecoveredCoversMemory(s: State, k: Key, later: int)
    requires Inv(s) && later >= s.now && !KeyPending(s.pending, k)
    ensures Covers(Lookup(Recovered(s.disk), k), Lookup(s.mem, k), later)
  {
    assert Covers(Lookup(Recovered(s.disk), k), Lookup(s.mem, k), s.now);
  }

  /** Disk and memory differ only by writes in flight and by expired entries already evicted. */
  lemma DiskMemoryDifference(s: State, k: Key)
    requires Inv(s) && Lookup(Recovered(s.disk), k) != Lookup(s.mem, k)
    ensures KeyPending(s.pending, k) || (k !in s.mem && k in Recovered(s.disk) && Expired(Recovered(s.disk)[k], s.now))
  {}

  ghost predicate Writes(steps: seq<Step>, k: Key) {
    exists i :: 0 <= i < |steps| && steps[i].LogWrite? && steps[i].write.key == k
  }

  lemma {:induction false} HistoryOfKey(s: State, steps: seq<Step>, keep: nat, k: Key)
    requires !Writes(steps, k)
    ensures LastWrite(Final(s, steps, keep).history, k) == LastWrite(s.history, k)
    ensures Final(s, steps, keep).now >= s.now
    decreases |steps|
  {
    if steps != [] {
      var s' := Next(s, steps[0], keep);
      if steps[0].LogWrite? {
        LastWriteAppend(s.history, steps[0].write, k);
      }
      assert forall i :: 0 <= i < |steps| - 1 ==> steps[1..][i] == steps[i + 1];
      HistoryOfKey(s', steps[1..], keep, k);
    }
  }

  /**
   Once a write of `k` is the last one logged, any disciplined continuation without another
   write of `k`, with flushes, evictions and crashes at any stage, leaves its effect: a live
   value stays readable from memory and from disk, a tombstone keeps the key absent.
   */
  lemma LastWriteDecides(s: State, steps: seq<Step>, keep: nat, k: Key, later: int)
    requires Inv(s) && keep >= 1 && Legal(s, steps, keep) && !Writes(steps, k)
    requires later >= Final(s, steps, keep).now
    ensures var s' := Final(s, steps, keep);
            && Get(Recovered(s'.disk), k, later) == Visible(s.history, k, later)
            && (!KeyPending(s'.pending, k) ==> Get(s'.mem, k, later) == Visible(s.history, k, later))
            && (LastWrite(s.history, k).Some? && LastWrite(s.history, k).value.deleted ==>
                  Get(Recovered(s'.disk), k, later).None?)
  {
    RunInv(s, steps, keep);
    HistoryOfKey(s, steps, keep, k);
    InvReads(Final(s, steps, keep), k, later);
  }

  const FLUSH := [Capture, Save, Cleanup, Truncate]

  /** A crash after any number of completed flush stages reopens on the view from before the flush. */
  lemma CrashDuringFlushKeepsView(s: State, stages: nat, keep: nat, k: Key, later: int)
    requires Inv(s) && s.pending == map[] && keep >= 1 && stages <= |FLUSH| && later >= s.now
    ensures Get(Final(s, FLUSH[..stages] + [Reopen], keep).mem, k, later) == Get(s.mem, k, later)
  {
    var steps := FLUSH[..stages] + [Reopen];
    assert forall i :: 0 <= i < |steps| ==> steps[i] in FLUSH || steps[i] == Reopen;
    NoWriteIsLegal(s, steps, keep);
    LastWriteDecides(s, steps, keep, k, later);
    InvReads(s, k, later);
    FinalConcat(s, FLUSH[..stages], [Reopen], keep);
    assert [Reopen][1..] == [];
  }

  lemma {:induction false} NoWriteIsLegal(s: State, steps: seq<Step>, keep: nat)
    requires s.pending == map[]
    requires forall i :: 0 <= i < |steps| ==> !steps[i].LogWrite? && !steps[i].Tick?
    ensures Legal(s, steps, keep) && Final(s, steps, keep).now == s.now
    ensures Final(s, steps, keep).pending == map[]
    decreases |steps|
  {
    if steps != [] {
      NoWriteIsLegal(Next(s, steps[0], keep), steps[1..], keep);
    }
  }

  // ------------------------------------------------------------------------------
  // Where the discipline and keep >= 1 are needed

  lemma {:induction false} FinalConcat(s: State, a: seq<Step>, b: seq<Step>, keep: nat)
    ensures Final(s, a + b, keep) == Final(Final(s, a, keep), b, keep)
    decreases |a|
  {
    if a == [] {
      assert a + b == b;
    } else {
      assert (a + b)[1..] == a[1..] + b;
      FinalConcat(Next(s, a[0], keep), a[1..], b, keep);
    }
  }

  lemma FinalFour(s: State, a: Step, b: Step, c: Step, d: Step, keep: nat)
    ensures Final(s, [a, b, c, d], keep) == Next(Next(Next(Next(s, a, keep), b, keep), c, keep), d, keep)
  {
    FinalTwo(s, a, b, keep);
    FinalTwo(Next(Next(s, a, keep), b, keep), c, d, keep);
    FinalConcat(s, [a, b], [c, d], keep);
    assert [a, b] + [c, d] == [a, b, c, d];
  }

  lemma FinalTwo(s: State, a: Step, b: Step, keep: nat)
    ensures Final(s, [a, b], keep) == Next(Next(s, a, keep), b, keep)
  {
    assert [a, b][1..] == [b] && [b][1..] == [];
    assert Final(s, [a, b], keep) == Final(Next(s, a, keep), [b], keep);
  }

  const FLUSH_AND_CRASH := [Save, Cleanup, Truncate, Reopen]

  /** Once captured, a flush followed by a crash leaves the captured table, or nothing if none is kept. */
  lemma FlushLeavesCapture(s: State, keep: nat)
    requires StampedInPast(s) && s.phase.Captured?
    ensures Final(s, FLUSH_AND_CRASH, keep).mem == if keep == 0 then map[] else s.phase.data
    ensures Final(s, FLUSH_AND_CRASH, keep).history == s.history
  {
    FinalFour(s, Save, Cleanup, Truncate, Reopen, keep);
    var saves := s.disk.saves[s.now := s.phase.data];
    NewestUnique(saves, s.now);
    CleanupKeepsLatest(saves, keep);
  }

  /** A flush followed by a crash keeps the table exactly when at least one snapshot is kept. */
  lemma FlushDurableIffSnapshotKept(s: State, keep: nat)
    requires StampedInPast(s) && s.phase.Idle? && s.mem != map[]
    ensures var f := Final(s, [Capture] + FLUSH_AND_CRASH, keep);
            && (f.mem == s.mem <==> keep >= 1)
            && (keep == 0 ==> f.mem == map[])
  {
    FinalConcat(s, [Capture], FLUSH_AND_CRASH, keep);
    assert [Capture][1..] == [];
    FlushLeavesCapture(Next(s, Capture, keep), keep);
  }

  /** A flush of `data` is under way. */
  ghost predicate Flushing(s: State, data: Table) {
    && StampedInPast(s) && !s.phase.Idle? && s.phase.data == data
    && (s.phase.Captured? || Latest(s.disk.saves) == data)
  }

  ghost predicate WithinFlush(steps: seq<Step>) {
    forall i :: 0 <= i < |steps| ==> !steps[i].Truncate? && !steps[i].Reopen?
  }

  lemma FlushingStep(s: State, step: Step, data: Table, keep: nat)
    requires Flushing(s, data) && !step.Truncate? && !step.Reopen? && keep >= 1
    ensures Flushing(Next(s, step, keep), data)
  {
    match step
    case Save => if s.phase.Captured? { NewestUnique(s.disk.saves[s.now := data], s.now); }
    case Cleanup => CleanupFacts(s.disk, keep);
    case _ =>
  }

  lemma {:induction false} FlushingRun(s: State, steps: seq<Step>, data: Table, keep: nat)
    requires Flushing(s, data) && WithinFlush(steps) && keep >= 1
    ensures Flushing(Final(s, steps, keep), data)
    decreases |steps|
  {
    if steps != [] {
      FlushingStep(s, steps[0], data, keep);
      FlushingRun(Next(s, steps[0], keep), steps[1..], data, keep);
    }
  }

  /** The writes a run logs, in order. */
  ghost function Logged(s: State, steps: seq<Step>, keep: nat): seq<Write>
    decreases |steps|
  {
    if steps == [] then [] else
    (if steps[0].LogWrite? && steps[0].writer !in s.pending then [steps[0].write] else [])
      + Logged(Next(s, steps[0], keep), steps[1..], keep)
  }

  /** The writes a run applies to memory, in order. */
  ghost function Applied(s: State, steps: seq<Step>, keep: nat): seq<Write>
    decreases |steps|
  {
    if steps == [] then [] else
    (if steps[0].ApplyWrite? && steps[0].writer in s.pending then [s.pending[steps[0].writer]] else [])
      + Applied(Next(s, steps[0], keep), steps[1..], keep)
  }

  lemma {:induction false} HistoryGrowsByLogged(s: State, steps: seq<Step>, keep: nat)
    ensures Final(s, steps, keep).history == s.history + Logged(s, steps, keep)
    decreases |steps|
  {
    if steps != [] { HistoryGrowsByLogged(Next(s, steps[0], keep), steps[1..], keep); }
  }

  /**
   Whatever happens between a flush's capture and its truncation, disciplined or not, a crash
   after the truncation recovers the captured table and nothing else.  So the last write of a
   key, be it the last one logged meanwhile or, without one, the last one before, survives
   exactly when the captured table holds it.
   */
  lemma TruncationForgetsUncaptured(s: State, steps: seq<Step>, keep: nat, k: Key)
    requires StampedInPast(s) && s.phase.Captured? && WithinFlush(steps) && keep >= 1
    requires Final(s, steps, keep).phase.Trimmed?
    ensures var f := Final(s, steps + [Truncate, Reopen], keep);
            var meanwhile := LastWrite(Logged(s, steps, keep), k);
            var last := if meanwhile.Some? then meanwhile else LastWrite(s.history, k);
            && f.mem == s.phase.data
            && (Lookup(f.mem, k) == LastWrite(f.history, k) <==> Lookup(s.phase.data, k) == last)
  {
    FlushingRun(s, steps, s.phase.data, keep);
    FinalConcat(s, steps, [Truncate, Reopen], keep);
    FinalTwo(Final(s, steps, keep), Truncate, Reopen, keep);
    HistoryGrowsByLogged(s, steps, keep);
    LastWriteConcat(s.history, Logged(s, steps, keep), k);
  }

  /** Such a loss: a write of a fresh value logged and applied between capture and save. */
  lemma WriteDuringFlushIsLost(s: State, writer: nat, w: Write, keep: nat)
    requires StampedInPast(s) && s.phase.Captured? && s.pending == map[] && keep >= 1
    ensures var f := Final(s, [LogWrite(writer, w), ApplyWrite(writer)] + FLUSH_AND_CRASH, keep);
            && f.mem == s.phase.data && LastWrite(f.history, w.key) == Some(w.value)
            && (Lookup(f.mem, w.key) == Some(w.value) <==> Lookup(s.phase.data, w.key) == Some(w.value))
  {
    var steps := [LogWrite(writer, w), ApplyWrite(writer)];
    FinalConcat(s, steps, FLUSH_AND_CRASH, keep);
    FinalTwo(s, LogWrite(writer, w), ApplyWrite(writer), keep);
    FlushLeavesCapture(Final(s, steps, keep), keep);
    LastWriteAppend(s.history, w, w.key);
  }

  ghost predicate OnlyWrites(steps: seq<Step>) {
    forall i :: 0 <= i < |steps| ==> steps[i].LogWrite? || steps[i].ApplyWrite?
  }

  lemma {:induction false} MemoryHoldsLastApplied(s: State, steps: seq<Step>, keep: nat, k: Key)
    requires OnlyWrites(steps)
    ensures var last := LastWrite(Applied(s, steps, keep), k);
            Lookup(Final(s, steps, keep).mem, k) == if last.Some? then last else Lookup(s.mem, k)
    decreases |steps|
  {
    if steps != [] {
      var s1, rest := Next(s, steps[0], keep), steps[1..];
      MemoryHoldsLastApplied(s1, rest, keep, k);
      var first := if steps[0].ApplyWrite? && steps[0].writer in s.pending then [s.pending[steps[0].writer]] else [];
      LastWriteConcat(first, Applied(s1, rest, keep), k);
      assert first != [] ==> LastWrite(first, k) == if first[0].key == k then Some(first[0].value) else None;
    }
  }

  lemma {:induction false} LogGrowsByLogged(s: State, steps: seq<Step>, keep: nat)
    requires OnlyWrites(steps)
    ensures Final(s, steps, keep).disk == s.disk.(log := s.disk.log + Logged(s, steps, keep))
    decreases |steps|
  {
    if steps != [] { LogGrowsByLogged(Next(s, steps[0], keep), steps[1..], keep); }
  }

  lemma DiskHoldsLastLogged(s: State, steps: seq<Step>, keep: nat, k: Key)
    requires OnlyWrites(steps)
    ensures var last := LastWrite(Logged(s, steps, keep), k);
            Lookup(Recovered(Final(s, steps, keep).disk), k) ==
            if last.Some? then last else Lookup(Recovered(s.disk), k)
  {
    var logged := Logged(s, steps, keep);
    LogGrowsByLogged(s, steps, keep);
    LastWriteConcat(s.disk.log, logged, k);
    ReplayLookup(Latest(s.disk.saves), s.disk.log + logged, k);
    ReplayLookup(Latest(s.disk.saves), s.disk.log, k);
  }

  ghost predicate WritesKey(log: seq<Write>, k: Key) {
    LastWrite(log, k).Some?
  }

  lemma WritesKeyConcat(a: seq<Write>, b: seq<Write>, k: Key)
    ensures WritesKey(a + b, k) <==> WritesKey(a, k) || WritesKey(b, k)
    ensures |a| == 1 ==> (WritesKey(a, k) <==> a[0].key == k)
  {
    LastWriteConcat(a, b, k);
    if |a| == 1 {
      assert a == [] + [a[0]];
      LastWriteAppend([], a[0], k);
    }
  }

  /** Every logged write of a key is applied or still in flight, and every applied one was logged or in flight. */
  lemma {:induction false} WritesAccountedFor(s: State, steps: seq<Step>, keep: nat, k: Key)
    requires OnlyWrites(steps)
    ensures WritesKey(Applied(s, steps, keep), k) || KeyPending(Final(s, steps, keep).pending, k)
            <==> WritesKey(Logged(s, steps, keep), k) || KeyPending(s.pending, k)
    decreases |steps|
  {
    if steps != [] {
      var s1, rest := Next(s, steps[0], keep), steps[1..];
      WritesAccountedFor(s1, rest, keep, k);
      PendingStep(s, steps[0], keep, k);
      var logged := if steps[0].LogWrite? && steps[0].writer !in s.pending then [steps[0].write] else [];
      var applied := if steps[0].ApplyWrite? && steps[0].writer in s.pending then [s.pending[steps[0].writer]] else [];
      WritesKeyConcat(logged, Logged(s1, rest, keep), k);
      WritesKeyConcat(applied, Applied(s1, rest, keep), k);
    }
  }

  lemma PendingStep(s: State, step: Step, keep: nat, k: Key)
    requires step.LogWrite? || step.ApplyWrite?
    ensures var s1 := Next(s, step, keep);
            && (step.LogWrite? ==> (KeyPending(s1.pending, k) <==>
                  KeyPending(s.pending, k) || (step.writer !in s.pending && step.write.key == k)))
            && (step.ApplyWrite? ==> (KeyPending(s.pending, k) <==>
                  KeyPending(s1.pending, k) || (step.writer in s.pending && s.pending[step.writer].key == k)))
  {
    var s1 := Next(s, step, keep);
    forall v | v in s.pending && s.pending[v].key == k
      ensures KeyPending(s1.pending, k) || (step.ApplyWrite? && v == step.writer)
    {
      assert v in s1.pending ==> s1.pending[v] == s.pending[v];
    }
    if step.LogWrite? && step.writer !in s.pending && step.write.key == k {
      assert s1.pending[step.writer].key == k;
    }
  }

  /**
   After any racing writes, undisciplined ones included, once nothing is in flight memory and
   disk agree on a key exactly when the write of it applied last is equal to the one logged last.
   */
  lemma RacingWritesAgreeIff(s: State, steps: seq<Step>, keep: nat, k: Key)
    requires OnlyWrites(steps) && s.pending == map[] && Final(s, steps, keep).pending == map[]
    requires Lookup(s.mem, k) == Lookup(Recovered(s.disk), k)
    ensures var f := Final(s, steps, keep);
            Lookup(f.mem, k) == Lookup(Recovered(f.disk), k) <==>
            LastWrite(Applied(s, steps, keep), k) == LastWrite(Logged(s, steps, keep), k)
  {
    MemoryHoldsLastApplied(s, steps, keep, k);
    DiskHoldsLastLogged(s, steps, keep, k);
    WritesAccountedFor(s, steps, keep, k);
    assert !KeyPending(s.pending, k) && !KeyPending(Final(s, steps, keep).pending, k);
  }

  /**
   The smallest instance: two writes of one key logged in one order and applied in the other
   leave memory and disk disagreeing unless they wrote the same value.
   */
  lemma SameKeyRaceDiverges(s: State, k: Key, a: VersionedValue, b: VersionedValue, keep: nat)
    requires s.pending == map[]
    ensures var f := Final(s, [LogWrite(0, Write(k, a)), LogWrite(1, Write(k, b)), ApplyWrite(1), ApplyWrite(0)], keep);
            && f.pending == map[]
            && (Lookup(f.mem, k) == Lookup(Recovered(f.disk), k) <==> a == b)
  {
    FinalFour(s, LogWrite(0, Write(k, a)), LogWrite(1, Write(k, b)), ApplyWrite(1), ApplyWrite(0), keep);
    var s2 := Next(Next(s, LogWrite(0, Write(k, a)), keep), LogWrite(1, Write(k, b)), keep);
    var f := Next(Next(s2, ApplyWrite(1), keep), ApplyWrite(0), keep);
    assert s2.pending - {1} == map[0 := Write(k, a)];
    assert f.pending == map[];
    ReplayLookup(Latest(f.disk.saves), f.disk.log, k);
    LastWriteAppend(s.disk.log + [Write(k, a)], Write(k, b), k);
  }
}
