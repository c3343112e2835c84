/**
 The write-ahead log (src/storage/wal.rs) at the level of file bytes.  The JSON line format
 and CRC-32 are parameters; `Lawful` states what the format must provide.
 */
module WriteAheadLogs {
  import opened Options
  import opened Values

  datatype WalEntry = WalEntry(sequence: nat, key: Key, value: VersionedValue, checksum: nat)

  // The checksum covers sequence, key, value bytes and timestamp.
  type Checksum = (nat, Key, Bytes, int) -> nat

  function ComputeChecksum(crc: Checksum, e: WalEntry): nat {
    crc(e.sequence, e.key, e.value.value, e.value.timestamp)
  }

  function NewEntry(crc: Checksum, sequence: nat, k: Key, v: VersionedValue): WalEntry {
    var entry := WalEntry(sequence, k, v, 0);
    entry.(checksum := ComputeChecksum(crc, entry))
  }

  predicate Verify(crc: Checksum, e: WalEntry) {
    ComputeChecksum(crc, e.(checksum := 0)) == e.checksum
  }

  // ------------------------------------------------------------------------------
  // Lines

  predicate Whitespace(c: char) {
    c == ' ' || '\t' <= c <= '\r'
  }

  predicate Blank(line: string) {
    forall c :: c in line ==> Whitespace(c)
  }

  /** Index of the first newline, or the length if there is none. */
  function FirstNewline(f: string): (i: nat)
    ensures i <= |f| && '\n' !in f[..i] && (i < |f| ==> f[i] == '\n')
  {
    if f == [] || f[0] == '\n' then 0 else
    var i := FirstNewline(f[1..]);
    assert f[..i + 1] == [f[0]] + f[1..][..i];
    i + 1
  }

  function StripReturn(line: string): string {
    if line != [] && line[|line| - 1] == '\r' then line[..|line| - 1] else line
  }

  /** Terminated lines lose their terminator; a last unterminated line counts if non-empty. */
  function Lines(f: string): seq<string> {
    if f == [] then [] else
    var i := FirstNewline(f);
    if i == |f| then [f] else [StripReturn(f[..i])] + Lines(f[i + 1..])
  }

  datatype Codec<!E> = Codec(encode: E -> string, decode: string -> Option<E>)

  /** Encodings fit on one line, decode back, and have no decodable proper prefix. */
  ghost predicate Lawful<E(!new)>(c: Codec<E>) {
    && (forall e :: c.decode(c.encode(e)) == Some(e))
    && (forall e :: '\n' !in c.encode(e) && !Blank(c.encode(e)) && StripReturn(c.encode(e)) == c.encode(e))
    && (forall e, n: nat :: n < |c.encode(e)| ==> c.decode(c.encode(e)[..n]).None?)
  }

  /** The bytes that appending `es` to an empty file leaves behind. */
  function LogBytes<E>(c: Codec<E>, es: seq<E>): string {
    if es == [] then [] else c.encode(es[0]) + "\n" + LogBytes(c, es[1..])
  }

  lemma {:induction false} LogBytesAppend<E>(c: Codec<E>, es: seq<E>, e: E)
    ensures LogBytes(c, es + [e]) == LogBytes(c, es) + c.encode(e) + "\n"
  {
    if es == [] {
      assert es + [e] == [e] && [e][1..] == [];
    } else {
      assert (es + [e])[1..] == es[1..] + [e];
      LogBytesAppend(c, es[1..], e);
    }
  }

  lemma {:induction false} FirstLine(line: string, rest: string)
    requires '\n' !in line
    ensures FirstNewline(line + "\n" + rest) == |line|
  {
    var f := line + "\n" + rest;
    if line != [] {
      assert line[0] in line;
      assert f[1..] == line[1..] + "\n" + rest;
      FirstLine(line[1..], rest);
    }
  }

  lemma {:induction false} NoNewline(line: string)
    requires '\n' !in line
    ensures FirstNewline(line) == |line|
  {
    if line != [] {
      assert line[0] in line;
      NoNewline(line[1..]);
    }
  }

  lemma LinesCons(line: string, rest: string)
    requires '\n' !in line && StripReturn(line) == line
    ensures Lines(line + "\n" + rest) == [line] + Lines(rest)
  {
    var f := line + "\n" + rest;
    FirstLine(line, rest);
    assert f[..|line|] == line && f[|line| + 1..] == rest;
  }

  function Encodings(c: Codec<WalEntry>, es: seq<WalEntry>): seq<string> {
    seq(|es|, i requires 0 <= i < |es| => c.encode(es[i]))
  }

  lemma EncodingsCons(c: Codec<WalEntry>, es: seq<WalEntry>)
    requires es != []
    ensures Encodings(c, es) == [c.encode(es[0])] + Encodings(c, es[1..])
  {}

  /** A log of entries splits into exactly their encodings. */
  lemma {:induction false} LinesOfLog(c: Codec<WalEntry>, es: seq<WalEntry>)
    requires Lawful(c)
    ensures Lines(LogBytes(c, es)) == Encodings(c, es)
  {
    if es != [] {
      LinesCons(c.encode(es[0]), LogBytes(c, es[1..]));
      LinesOfLog(c, es[1..]);
      EncodingsCons(c, es);
    }
  }

  // ------------------------------------------------------------------------------
  // Replay

  /** What one line contributes: nothing unless it is non-blank, parses and passes its checksum. */
  function Kept(c: Codec<WalEntry>, crc: Checksum, line: string): seq<WalEntry> {
    var d := c.decode(line);
    if !Blank(line) && d.Some? && Verify(crc, d.value) then [d.value] else []
  }

  function Accepted(c: Codec<WalEntry>, crc: Checksum, lines: seq<string>): seq<WalEntry> {
    if lines == [] then [] else Kept(c, crc, lines[0]) + Accepted(c, crc, lines[1..])
  }

  function Replayed(c: Codec<WalEntry>, crc: Checksum, file: string): seq<WalEntry> {
    Accepted(c, crc, Lines(file))
  }

  method Replay(c: Codec<WalEntry>, crc: Checksum, file: string) returns (entries: seq<WalEntry>)
    ensures entries == Replayed(c, crc, file)
  {
    entries := [];
    var lines := Lines(file);
    for i := 0 to |lines|
      invariant entries + Accepted(c, crc, lines[i..]) == Accepted(c, crc, lines)
    {
      assert lines[i..][0] == lines[i] && lines[i..][1..] == lines[i + 1..];
      ghost var before, later := entries, Accepted(c, crc, lines[i + 1..]);
      assert before + (Kept(c, crc, lines[i]) + later) == (before + Kept(c, crc, lines[i])) + later;
      if !Blank(lines[i]) {
        var d := c.decode(lines[i]);
        if d.Some? && Verify(crc, d.value) {
          entries := entries + [d.value];
        }
      }
      assert entries == before + Kept(c, crc, lines[i]);
    }
  }

  /** A whole line is replayed and the rest of the file is replayed after it. */
  lemma ReplayedCons(c: Codec<WalEntry>, crc: Checksum, e: WalEntry, rest: string)
    requires Lawful(c) && Verify(crc, e)
    ensures Replayed(c, crc, c.encode(e) + "\n" + rest) == [e] + Replayed(c, crc, rest)
  {
    var line := c.encode(e);
    LinesCons(line, rest);
    assert ([line] + Lines(rest))[1..] == Lines(rest);
    assert Kept(c, crc, line) == [e];
  }

  ghost predicate AllVerify(crc: Checksum, es: seq<WalEntry>) {
    forall i :: 0 <= i < |es| ==> Verify(crc, es[i])
  }

  /** Position `n` entries into the log, without the n-th terminator. */
  ghost function EndOf(c: Codec<WalEntry>, es: seq<WalEntry>, n: nat): int
    requires n <= |es|
  {
    |LogBytes(c, es[..n])| - 1
  }

  lemma EndOfTail(c: Codec<WalEntry>, es: seq<WalEntry>, n: nat)
    requires es != [] && n < |es|
    ensures EndOf(c, es, n + 1) == |c.encode(es[0])| + 1 + EndOf(c, es[1..], n)
  {
    assert es[..n + 1][1..] == es[1..][..n];
  }

  /** Exactly the first `n` encodings lie whole within the first `cut` bytes. */
  ghost predicate Intact(c: Codec<WalEntry>, es: seq<WalEntry>, cut: nat, n: nat) {
    && n <= |es|
    && (n > 0 ==> EndOf(c, es, n) <= cut)
    && (n < |es| ==> cut < EndOf(c, es, n + 1))
  }

  /**
   Cutting a log at any byte offset replays exactly the entries whose encodings survive
   whole: a prefix, of the length the offset dictates.
   */
  lemma {:induction false} TornLogReplaysPrefix(c: Codec<WalEntry>, crc: Checksum, es: seq<WalEntry>, cut: nat)
    returns (n: nat)
    requires Lawful(c) && AllVerify(crc, es) && cut <= |LogBytes(c, es)|
    ensures Intact(c, es, cut, n) && Replayed(c, crc, LogBytes(c, es)[..cut]) == es[..n]
  {
    n := 0;
    if es != [] {
      if cut <= |c.encode(es[0])| {
        n := TornInFirstLine(c, crc, es, cut);
      } else {
        LogBytesHead(c, es);
        TailVerifies(crc, es);
        var m := TornLogReplaysPrefix(c, crc, es[1..], cut - |c.encode(es[0])| - 1);
        IntactShift(c, es, cut, m);
        TornBeyondFirst(c, crc, es, cut, m);
        n := m + 1;
      }
    }
  }

  lemma TailVerifies(crc: Checksum, es: seq<WalEntry>)
    requires AllVerify(crc, es) && es != []
    ensures AllVerify(crc, es[1..]) && Verify(crc, es[0])
  {}

  lemma {:induction false} TornBeyondFirst(c: Codec<WalEntry>, crc: Checksum, es: seq<WalEntry>, cut: nat, m: nat)
    requires Lawful(c) && AllVerify(crc, es) && es != [] && |c.encode(es[0])| < cut <= |LogBytes(c, es)|
    requires m < |es|
    requires Replayed(c, crc, LogBytes(c, es[1..])[..cut - |c.encode(es[0])| - 1]) == es[1..][..m]
    ensures Replayed(c, crc, LogBytes(c, es)[..cut]) == es[..m + 1]
  {
    LogBytesHead(c, es);
    TornBeyondLine(c, crc, es[0], LogBytes(c, es[1..]), cut);
    PrefixCons(es, m);
  }

  lemma {:induction false} LogBytesHead(c: Codec<WalEntry>, es: seq<WalEntry>)
    requires es != []
    ensures LogBytes(c, es) == c.encode(es[0]) + "\n" + LogBytes(c, es[1..])
  {}

  lemma {:induction false} IntactShift(c: Codec<WalEntry>, es: seq<WalEntry>, cut: nat, m: nat)
    requires es != [] && cut > |c.encode(es[0])|
    requires Intact(c, es[1..], cut - |c.encode(es[0])| - 1, m)
    ensures Intact(c, es, cut, m + 1)
  {
    EndOfTail(c, es, m);
    if m + 1 < |es| { EndOfTail(c, es, m + 1); }
  }

  lemma {:induction false} TornInFirstLine(c: Codec<WalEntry>, crc: Checksum, es: seq<WalEntry>, cut: nat)
    returns (n: nat)
    requires Lawful(c) && AllVerify(crc, es) && es != [] && cut <= |c.encode(es[0])|
    ensures cut <= |LogBytes(c, es)|
    ensures Intact(c, es, cut, n) && Replayed(c, crc, LogBytes(c, es)[..cut]) == es[..n]
  {
    LogBytesHead(c, es);
    CutWithinLine(c.encode(es[0]), LogBytes(c, es[1..]), cut);
    TornLine(c, crc, es[0], cut);
    n := if cut == |c.encode(es[0])| then 1 else 0;
    IntactInFirstLine(c, es, cut, n);
  }

  lemma {:induction false} IntactInFirstLine(c: Codec<WalEntry>, es: seq<WalEntry>, cut: nat, n: nat)
    requires es != [] && cut <= |c.encode(es[0])| && n == if cut == |c.encode(es[0])| then 1 else 0
    ensures Intact(c, es, cut, n)
  {
    EndOfTail(c, es, 0);
    if |es| > 1 { EndOfTail(c, es, 1); EndOfTail(c, es[1..], 0); }
  }

  lemma CutWithinLine(line: string, rest: string, cut: nat)
    requires cut <= |line|
    ensures (line + "\n" + rest)[..cut] == line[..cut]
  {}

  lemma CutBeyondLine(line: string, rest: string, cut: nat)
    requires |line| < cut <= |line| + 1 + |rest|
    ensures (line + "\n" + rest)[..cut] == line + "\n" + rest[..cut - |line| - 1]
  {}

  lemma PrefixCons(es: seq<WalEntry>, m: nat)
    requires m < |es|
    ensures es[..m + 1] == [es[0]] + es[1..][..m]
  {}

  lemma {:induction false} TornBeyondLine(c: Codec<WalEntry>, crc: Checksum, e: WalEntry, rest: string, cut: nat)
    requires Lawful(c) && Verify(crc, e) && |c.encode(e)| < cut <= |c.encode(e)| + 1 + |rest|
    ensures Replayed(c, crc, (c.encode(e) + "\n" + rest)[..cut]) ==
            [e] + Replayed(c, crc, rest[..cut - |c.encode(e)| - 1])
  {
    CutBeyondLine(c.encode(e), rest, cut);
    ReplayedCons(c, crc, e, rest[..cut - |c.encode(e)| - 1]);
  }

  lemma TornLine(c: Codec<WalEntry>, crc: Checksum, e: WalEntry, cut: nat)
    requires Lawful(c) && Verify(crc, e) && cut <= |c.encode(e)|
    ensures Replayed(c, crc, c.encode(e)[..cut]) == if cut == |c.encode(e)| then [e] else []
  {
    var f := c.encode(e)[..cut];
    if f != [] {
      assert forall x :: x in f ==> x in c.encode(e);
      NoNewline(f);
      assert Lines(f) == [f] && Lines(f)[1..] == [];
      assert Accepted(c, crc, Lines(f)) == Kept(c, crc, f);
      if cut == |c.encode(e)| {
        assert f == c.encode(e);
      } else {
        assert c.decode(f).None?;
      }
    }
  }

  /** An intact log replays to all of its entries. */
  lemma {:induction false} LogReplaysInFull(c: Codec<WalEntry>, crc: Checksum, es: seq<WalEntry>)
    requires Lawful(c) && AllVerify(crc, es)
    ensures Replayed(c, crc, LogBytes(c, es)) == es
  {
    if es != [] {
      ReplayedCons(c, crc, es[0], LogBytes(c, es[1..]));
      LogReplaysInFull(c, crc, es[1..]);
    }
  }

  /** Some char is neither a space nor one of the control characters from tab to carriage return. */
  ghost predicate HasText(line: string) {
    exists c :: c in line && c != ' ' && !('\t' <= c <= '\r')
  }

  /** What one line, with its terminator or as the unterminated rest of the file, contributes. */
  ghost function LineEntry(c: Codec<WalEntry>, crc: Checksum, text: string): seq<WalEntry> {
    var d := c.decode(text);
    if HasText(text) && d.Some?
       && d.value.checksum == crc(d.value.sequence, d.value.key, d.value.value.value, d.value.value.timestamp)
    then [d.value] else []
  }

  lemma KeptIff(c: Codec<WalEntry>, crc: Checksum, line: string)
    ensures Kept(c, crc, line) == LineEntry(c, crc, line)
  {
    if !Blank(line) {
      var x :| x in line && !Whitespace(x);
      assert HasText(line);
    }
  }

  lemma {:induction false} LinesAny(line: string, rest: string)
    requires '\n' !in line
    ensures var text := if line != [] && line[|line| - 1] == '\r' then line[..|line| - 1] else line;
            Lines(line + "\n" + rest) == [text] + Lines(rest)
    ensures Lines(line) == if line == [] then [] else [line]
  {
    var f := line + "\n" + rest;
    FirstLine(line, rest);
    NoNewline(line);
    assert f[..|line|] == line && f[|line| + 1..] == rest;
  }

  /**
   Replay line by line, on any file: a line, less its newline and one carriage return before it,
   contributes an entry exactly when it has text, parses, and the entry's checksum is that of
   its sequence number, key, value bytes and timestamp.
   */
  lemma ReplayLineByLine(c: Codec<WalEntry>, crc: Checksum, line: string, rest: string)
    requires '\n' !in line
    ensures var text := if line != [] && line[|line| - 1] == '\r' then line[..|line| - 1] else line;
            Replayed(c, crc, line + "\n" + rest) == LineEntry(c, crc, text) + Replayed(c, crc, rest)
    ensures Replayed(c, crc, line) == if line == [] then [] else LineEntry(c, crc, line)
  {
    var text := if line != [] && line[|line| - 1] == '\r' then line[..|line| - 1] else line;
    LinesAny(line, rest);
    assert ([text] + Lines(rest))[1..] == Lines(rest);
    KeptIff(c, crc, text);
    KeptIff(c, crc, line);
    if line != [] { OneAccepted(c, crc, line); }
  }

  lemma OneAccepted(c: Codec<WalEntry>, crc: Checksum, line: string)
    ensures Accepted(c, crc, [line]) == Kept(c, crc, line)
  {
    assert [line][1..] == [];
  }

  // ------------------------------------------------------------------------------
  // The log object

  function LastSequence(es: seq<WalEntry>): nat {
    if es == [] then 0 else es[|es| - 1].sequence
  }

  /** Numbers start above 0 and strictly increase along the log. */
  ghost predicate Numbered(es: seq<WalEntry>) {
    && (forall i :: 0 <= i < |es| ==> es[i].sequence > 0)
    && (forall i, j :: 0 <= i < j < |es| ==> es[i].sequence < es[j].sequence)
  }

  ghost predicate CleanLog(c: Codec<WalEntry>, crc: Checksum, file: string, es: seq<WalEntry>) {
    file == LogBytes(c, es) && AllVerify(crc, es) && Numbered(es)
  }

  lemma CleanLogGrows(c: Codec<WalEntry>, crc: Checksum, file: string, es: seq<WalEntry>, e: WalEntry)
    requires CleanLog(c, crc, file, es) && Verify(crc, e) && e.sequence == LastSequence(es) + 1
    ensures CleanLog(c, crc, file + c.encode(e) + "\n", es + [e])
  {
    LogBytesAppend(c, es, e);
  }

  /** The largest sequence number on any line that parses, checksum or not. */
  function MaxSequence(c: Codec<WalEntry>, lines: seq<string>): nat {
    if lines == [] then 0 else
    var rest, d := MaxSequence(c, lines[..|lines| - 1]), c.decode(lines[|lines| - 1]);
    if d.Some? && d.value.sequence > rest then d.value.sequence else rest
  }

  method RecoverSequence(c: Codec<WalEntry>, file: string) returns (maxSeq: nat)
    ensures maxSeq == MaxSequence(c, Lines(file))
  {
    maxSeq := 0;
    var lines := Lines(file);
    for i := 0 to |lines|
      invariant maxSeq == MaxSequence(c, lines[..i])
    {
      assert lines[..i + 1][..i] == lines[..i];
      var d := c.decode(lines[i]);
      if d.Some? && d.value.sequence > maxSeq {
        maxSeq := d.value.sequence;
      }
    }
    assert lines[..|lines|] == lines;
  }

  /** The recovered counter is the largest number on a line that parses, or 0. */
  lemma {:induction false} MaxSequenceIsMax(c: Codec<WalEntry>, lines: seq<string>)
    ensures var m := MaxSequence(c, lines);
            && (forall line :: line in lines && c.decode(line).Some? ==> c.decode(line).value.sequence <= m)
            && (m == 0 || exists line :: line in lines && c.decode(line).Some? && c.decode(line).value.sequence == m)
  {
    if lines != [] {
      var front, last := lines[..|lines| - 1], lines[|lines| - 1];
      assert lines == front + [last];
      MaxSequenceIsMax(c, front);
    }
  }

  /** The recovered counter of a clean log is the last number logged, or 0. */
  lemma RecoveredSequenceIsLast(c: Codec<WalEntry>, crc: Checksum, file: string, es: seq<WalEntry>)
    requires Lawful(c) && CleanLog(c, crc, file, es)
    ensures MaxSequence(c, Lines(file)) == LastSequence(es)
  {
    LinesOfLog(c, es);
    MaxOfNumbered(c, es);
  }

  lemma {:induction false} MaxOfNumbered(c: Codec<WalEntry>, es: seq<WalEntry>)
    requires Lawful(c) && Numbered(es)
    ensures MaxSequence(c, Encodings(c, es)) == LastSequence(es)
  {
    if es != [] {
      var front := es[..|es| - 1];
      MaxOfNumbered(c, front);
      assert Encodings(c, es)[..|es| - 1] == Encodings(c, front);
    }
  }

  class WriteAheadLog {
    const codec: Codec<WalEntry>
    const crc: Checksum
    var file: string
    var sequence: nat

    ghost predicate Valid()
      reads this
    {
      Lawful(codec)
    }

    /** What replaying the file returns. */
    ghost function Entries(): seq<WalEntry>
      reads this
    {
      Replayed(codec, crc, file)
    }

    /** The file does not stop inside a line. */
    predicate Terminated()
      reads this
    {
      EndsLine(file)
    }

    /** The file is a run of appended entries and the counter is the last number in it. */
    ghost predicate Clean()
      reads this
    {
      CleanLog(codec, crc, file, Entries()) && sequence == LastSequence(Entries())
    }

    /** Open any file, torn or corrupt lines included. */
    constructor (codec: Codec<WalEntry>, crc: Checksum, file: string)
      requires Lawful(codec)
      ensures Valid() && this.codec == codec && this.crc == crc && this.file == file
      ensures sequence == MaxSequence(codec, Lines(file))
      ensures CleanLog(codec, crc, file, Replayed(codec, crc, file)) ==> Clean()
    {
      this.codec, this.crc, this.file := codec, crc, file;
      var recovered := RecoverSequence(codec, file);
      sequence := recovered;
      if CleanLog(codec, crc, file, Replayed(codec, crc, file)) {
        RecoveredSequenceIsLast(codec, crc, file, Replayed(codec, crc, file));
      }
    }

    /** The line that records this write under number `n`. */
    function LineAt(n: nat, k: Key, v: VersionedValue): string {
      codec.encode(NewEntry(crc, n, k, v)) + "\n"
    }

    method Append(k: Key, v: VersionedValue) returns (n: nat)
      requires Valid()
      modifies this
      ensures Valid() && n == sequence == old(sequence) + 1
      ensures file == old(file) + LineAt(n, k, v)
      ensures Terminated()
      ensures old(Terminated()) ==> Entries() == old(Entries()) + [NewEntry(crc, n, k, v)]
      ensures old(Clean()) ==> Clean()
    {
      sequence := sequence + 1;
      var entry := NewEntry(crc, sequence, k, v);
      AppendKeepsClean(codec, crc, file, sequence - 1, entry);
      AppendIsReplayed(codec, crc, file, entry);
      assert file + (codec.encode(entry) + "\n") == file + codec.encode(entry) + "\n";
      file := file + codec.encode(entry) + "\n";
      n := sequence;
    }

    method Truncate()
      requires Valid()
      modifies this
      ensures Valid() && Clean() && Terminated() && Entries() == [] && file == [] && sequence == 0
    {
      file, sequence := [], 0;
    }
  }

  predicate EndsLine(file: string) {
    file == [] || file[|file| - 1] == '\n'
  }

  lemma {:induction false} FirstNewlineConcat(a: string, b: string)
    requires '\n' in a
    ensures FirstNewline(a + b) == FirstNewline(a) < |a|
  {
    if a[0] != '\n' {
      assert (a + b)[1..] == a[1..] + b;
      FirstNewlineConcat(a[1..], b);
    }
  }

  /** The first terminated line, then the lines after it. */
  lemma {:induction false} LinesSplit(f: string)
    requires FirstNewline(f) < |f|
    ensures Lines(f) == [StripReturn(f[..FirstNewline(f)])] + Lines(f[FirstNewline(f) + 1..])
  {}

  lemma {:induction false} LinesFrom(f: string, head: string, rest: string)
    requires FirstNewline(f) == |head| < |f| && f[..|head|] == head && f[|head| + 1..] == rest
    ensures Lines(f) == [StripReturn(head)] + Lines(rest)
  {
    LinesSplit(f);
  }

  lemma HeadSlices(a: string, b: string, i: nat)
    requires i < |a|
    ensures (a + b)[..i] == a[..i] && (a + b)[i + 1..] == a[i + 1..] + b
  {}

  lemma LastInside(a: string, i: nat)
    requires EndsLine(a) && i < |a|
    ensures '\n' in a && EndsLine(a[i + 1..])
  {
    assert a[|a| - 1] in a;
  }

  /** Where a file that ends a line ends its first one, whatever follows the file. */
  lemma {:induction false} FirstLineEnds(a: string, b: string) returns (head: string, rest: string)
    requires EndsLine(a) && a != []
    ensures FirstNewline(a) == FirstNewline(a + b) == |head| && |head| + 1 + |rest| == |a| && EndsLine(rest)
    ensures a[..|head|] == (a + b)[..|head|] == head
    ensures a[|head| + 1..] == rest && (a + b)[|head| + 1..] == rest + b
  {
    var i := FirstNewline(a);
    LastInside(a, 0);
    FirstNewlineConcat(a, b);
    LastInside(a, i);
    HeadSlices(a, b, i);
    head, rest := a[..i], a[i + 1..];
  }

  lemma LineThenLines(line: string, a: seq<string>, b: seq<string>)
    ensures [line] + (a + b) == ([line] + a) + b
  {}

  lemma {:induction false} LinesConcat(a: string, b: string)
    requires EndsLine(a)
    ensures Lines(a + b) == Lines(a) + Lines(b)
    decreases |a|
  {
    if a == [] {
      assert a + b == b;
    } else {
      var head, rest := FirstLineEnds(a, b);
      LinesFrom(a, head, rest);
      LinesFrom(a + b, head, rest + b);
      LinesConcat(rest, b);
      LineThenLines(StripReturn(head), Lines(rest), Lines(b));
    }
  }

  lemma {:induction false} AcceptedConcat(c: Codec<WalEntry>, crc: Checksum, a: seq<string>, b: seq<string>)
    ensures Accepted(c, crc, a + b) == Accepted(c, crc, a) + Accepted(c, crc, b)
  {
    if a == [] {
      assert a + b == b;
    } else {
      assert (a + b)[1..] == a[1..] + b;
      AcceptedConcat(c, crc, a[1..], b);
    }
  }

  /** What follows a file that ends a line, corrupt lines or not, is replayed after it. */
  lemma ReplayedThen(c: Codec<WalEntry>, crc: Checksum, file: string, rest: string)
    requires EndsLine(file)
    ensures Replayed(c, crc, file + rest) == Replayed(c, crc, file) + Replayed(c, crc, rest)
  {
    LinesConcat(file, rest);
    AcceptedConcat(c, crc, Lines(file), Lines(rest));
  }

  lemma ReplayedLine(c: Codec<WalEntry>, crc: Checksum, e: WalEntry)
    requires Lawful(c) && Verify(crc, e)
    ensures Replayed(c, crc, c.encode(e) + "\n") == [e]
  {
    ReplayedCons(c, crc, e, []);
    assert c.encode(e) + "\n" + [] == c.encode(e) + "\n";
  }

  /** An entry appended to any file that ends a line is replayed after what the file held. */
  lemma AppendIsReplayed(c: Codec<WalEntry>, crc: Checksum, file: string, e: WalEntry)
    requires Lawful(c) && Verify(crc, e)
    ensures EndsLine(file) ==> Replayed(c, crc, file + c.encode(e) + "\n") == Replayed(c, crc, file) + [e]
  {
    if EndsLine(file) {
      ReplayedThen(c, crc, file, c.encode(e) + "\n");
      ReplayedLine(c, crc, e);
      assert file + c.encode(e) + "\n" == file + (c.encode(e) + "\n");
    }
  }

  lemma AppendKeepsClean(c: Codec<WalEntry>, crc: Checksum, file: string, last: nat, e: WalEntry)
    requires Lawful(c) && Verify(crc, e) && e.sequence == last + 1
    ensures var es := Replayed(c, crc, file);
            var file' := file + c.encode(e) + "\n";
            CleanLog(c, crc, file, es) && last == LastSequence(es) ==>
              Replayed(c, crc, file') == es + [e] && CleanLog(c, crc, file', es + [e])
  {
    var es := Replayed(c, crc, file);
    if CleanLog(c, crc, file, es) && last == LastSequence(es) {
      CleanLogGrows(c, crc, file, es, e);
      LogReplaysInFull(c, crc, es + [e]);
    }
  }

  /**
   A crash inside the append of `e` to any file that ends a line, whatever it holds and whatever
   crashes it has been through, leaves a file that replays to what it replayed to before, with
   or without `e` whole: with it exactly when only the terminator, if anything, is missing.
   */
  lemma CrashInsideAppend(c: Codec<WalEntry>, crc: Checksum, file: string, e: WalEntry, cut: nat)
    requires Lawful(c) && EndsLine(file) && Verify(crc, e) && cut <= |c.encode(e)| + 1
    ensures Replayed(c, crc, file + (c.encode(e) + "\n")[..cut]) ==
            Replayed(c, crc, file) + if cut >= |c.encode(e)| then [e] else []
  {
    ReplayedThen(c, crc, file, (c.encode(e) + "\n")[..cut]);
    CutLine(c, crc, e, cut);
  }

  lemma CutLine(c: Codec<WalEntry>, crc: Checksum, e: WalEntry, cut: nat)
    requires Lawful(c) && Verify(crc, e) && cut <= |c.encode(e)| + 1
    ensures Replayed(c, crc, (c.encode(e) + "\n")[..cut]) == if cut >= |c.encode(e)| then [e] else []
  {
    var line := c.encode(e);
    if cut <= |line| {
      assert (line + "\n")[..cut] == line[..cut];
      TornLine(c, crc, e, cut);
    } else {
      assert (line + "\n")[..cut] == line + "\n";
      ReplayedLine(c, crc, e);
    }
  }

  /** No beginning of an entry's line joined with a whole one parses. */
  ghost predicate JoinsFail(c: Codec<WalEntry>) {
    forall d, e, n: nat :: 0 < n <= |c.encode(d)| ==> c.decode(c.encode(d)[..n] + c.encode(e)).None?
  }

  /**
   An append to a file that ends with a crash's cut of the line of `d`, opened with nothing in
   between, survives the next replay exactly when nothing of that line was left; otherwise it is
   lost, and `d` with it even if only its terminator was missing.
   */
  lemma AppendAfterTear(c: Codec<WalEntry>, crc: Checksum, file: string, d: WalEntry, n: nat, e: WalEntry)
    requires Lawful(c) && JoinsFail(c) && EndsLine(file) && Verify(crc, e) && n <= |c.encode(d)|
    ensures Replayed(c, crc, file + c.encode(d)[..n] + c.encode(e) + "\n") ==
            Replayed(c, crc, file) + if n == 0 then [e] else []
  {
    ReplayedThen(c, crc, file, c.encode(d)[..n] + c.encode(e) + "\n");
    TornThenLine(c, crc, d, n, e);
    Regroup(file, c.encode(d)[..n], c.encode(e));
  }

  lemma TornThenLine(c: Codec<WalEntry>, crc: Checksum, d: WalEntry, n: nat, e: WalEntry)
    requires Lawful(c) && JoinsFail(c) && Verify(crc, e) && n <= |c.encode(d)|
    ensures Replayed(c, crc, c.encode(d)[..n] + c.encode(e) + "\n") == if n == 0 then [e] else []
  {
    var torn := c.encode(d)[..n];
    if n == 0 {
      assert torn + c.encode(e) + "\n" == c.encode(e) + "\n";
      ReplayedLine(c, crc, e);
    } else {
      assert forall x :: x in torn ==> x in c.encode(d);
      JoinedLine(c, crc, torn, e);
    }
  }

  lemma Regroup(a: string, b: string, s: string)
    ensures a + b + s + "\n" == a + (b + s + "\n")
  {}

  lemma JoinedLine(c: Codec<WalEntry>, crc: Checksum, torn: string, e: WalEntry)
    requires Lawful(c) && '\n' !in torn && c.decode(torn + c.encode(e)).None?
    ensures Replayed(c, crc, torn + c.encode(e) + "\n") == []
  {
    var line, s := torn + c.encode(e), c.encode(e);
    assert s != [] by { assert !Blank(s); }
    assert line[|line| - 1] == s[|s| - 1] && |StripReturn(s)| == |s|;
    assert StripReturn(line) == line;
    LinesCons(line, []);
    assert line + "\n" + [] == line + "\n";
    assert Lines(line + "\n") == [line] && [line][1..] == [];
    assert Kept(c, crc, line) == [];
    assert Accepted(c, crc, [line]) == [] + Accepted(c, crc, []);
  }
}
