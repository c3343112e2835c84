/**
 A line format for log entries that meets the laws the log relies on, so that what is proved
 under those laws is not empty.  Every field becomes a number, every number a run of ones, and
 braces enclose the line.
 */
module LineFormats {
  import opened Options
  import opened Ordered
  import opened VectorClocks
  import opened Values
  import opened WriteAheadLogs

  // ------------------------------------------------------------------------------
  // Numbers as strings

  function Num(n: nat): string {
    seq(n, _ => '1') + ","
  }

  function Nums(ns: seq<nat>): string {
    if ns == [] then [] else Num(ns[0]) + Nums(ns[1..])
  }

  lemma NumSplits(m: nat, n: nat, x: string, y: string)
    requires Num(m) + x == Num(n) + y
    ensures m == n && x == y
  {
    var s := Num(m) + x;
    assert s[m] == ',' && s[n] == ',';
    assert forall i :: 0 <= i < m ==> s[i] == '1';
    assert forall i :: 0 <= i < n ==> s[i] == '1';
    assert x == s[m + 1..] && y == s[n + 1..];
  }

  lemma {:induction false} NumsInjective(a: seq<nat>, b: seq<nat>)
    requires Nums(a) == Nums(b)
    ensures a == b
  {
    if a != [] && b != [] {
      NumSplits(a[0], b[0], Nums(a[1..]), Nums(b[1..]));
      NumsInjective(a[1..], b[1..]);
      assert a == [a[0]] + a[1..] && b == [b[0]] + b[1..];
    }
  }

  lemma {:induction false} NumsAlphabet(ns: seq<nat>)
    ensures forall c :: c in Nums(ns) ==> c == '1' || c == ','
  {
    if ns != [] { NumsAlphabet(ns[1..]); }
  }

  // ------------------------------------------------------------------------------
  // Fields as numbers

  /** A sequence of numbers preceded by its length. */
  function Block(s: seq<nat>): seq<nat> {
    [|s|] + s
  }

  lemma BlockSplits(a: seq<nat>, b: seq<nat>, x: seq<nat>, y: seq<nat>)
    requires Block(a) + x == Block(b) + y
    ensures a == b && x == y
  {
    var s := Block(a) + x;
    assert s[0] == |a| == |b|;
    assert a == s[1..|a| + 1] && b == s[1..|b| + 1];
    assert x == s[|a| + 1..] && y == s[|b| + 1..];
  }

  function Chars(s: string): seq<nat> {
    seq(|s|, i requires 0 <= i < |s| => s[i] as nat)
  }

  function Octets(s: Bytes): seq<nat> {
    seq(|s|, i requires 0 <= i < |s| => s[i] as nat)
  }

  function Signed(i: int): nat {
    if i >= 0 then 2 * i else -2 * i - 1
  }

  lemma CharsInjective(a: string, b: string)
    requires Chars(a) == Chars(b)
    ensures a == b
  {
    forall i | 0 <= i < |a| ensures a[i] == b[i] { assert Chars(a)[i] == Chars(b)[i]; }
  }

  lemma OctetsInjective(a: Bytes, b: Bytes)
    requires Octets(a) == Octets(b)
    ensures a == b
  {
    forall i | 0 <= i < |a| ensures a[i] == b[i] { assert Octets(a)[i] == Octets(b)[i]; }
  }

  function ClockKeys(c: Clock): (ks: seq<string>)
    ensures forall k :: k in ks <==> k in c
  {
    LexStrictTotal();
    Sorted(c.Keys, LexLess)
  }

  /** The counters of `ks`, each after its id. */
  function Counters(c: Clock, ks: seq<string>): seq<nat> {
    if ks == [] then [] else Block(Chars(ks[0])) + ([Count(c, ks[0])] + Counters(c, ks[1..]))
  }

  lemma {:induction false} CountersInjective(c: Clock, ks: seq<string>, d: Clock, js: seq<string>)
    requires Counters(c, ks) == Counters(d, js)
    ensures ks == js && forall k :: k in ks ==> Count(c, k) == Count(d, k)
  {
    if ks != [] && js != [] {
      var x, y := [Count(c, ks[0])] + Counters(c, ks[1..]), [Count(d, js[0])] + Counters(d, js[1..]);
      BlockSplits(Chars(ks[0]), Chars(js[0]), x, y);
      CharsInjective(ks[0], js[0]);
      assert x[0] == y[0] && x[1..] == Counters(c, ks[1..]) && y[1..] == Counters(d, js[1..]);
      CountersInjective(c, ks[1..], d, js[1..]);
      assert ks == [ks[0]] + ks[1..] && js == [js[0]] + js[1..];
    }
  }

  function ClockNumbers(c: Clock): seq<nat> {
    Counters(c, ClockKeys(c))
  }

  lemma ClockNumbersInjective(c: Clock, d: Clock)
    requires ClockNumbers(c) == ClockNumbers(d)
    ensures c == d
  {
    CountersInjective(c, ClockKeys(c), d, ClockKeys(d));
    assert forall k :: k in c <==> k in ClockKeys(c);
    assert forall k :: k in c ==> Count(c, k) == Count(d, k);
  }

  /** The fields of fixed size. */
  function Header(e: WalEntry): seq<nat> {
    [e.sequence, e.checksum, Signed(e.value.timestamp), Signed(e.value.ttl), if e.value.deleted then 1 else 0]
  }

  function Numbers(e: WalEntry): seq<nat> {
    Header(e) + (Block(Chars(e.key)) + (Block(Octets(e.value.value)) + ClockNumbers(e.value.clock)))
  }

  lemma HeaderInjective(d: WalEntry, e: WalEntry)
    requires Header(d) == Header(e)
    ensures d.sequence == e.sequence && d.checksum == e.checksum
    ensures d.value.timestamp == e.value.timestamp && d.value.ttl == e.value.ttl && d.value.deleted == e.value.deleted
  {
    assert forall i :: 0 <= i < 5 ==> Header(d)[i] == Header(e)[i];
    assert Header(d)[0] == Header(e)[0] && Header(d)[1] == Header(e)[1] && Header(d)[2] == Header(e)[2];
    assert Header(d)[3] == Header(e)[3] && Header(d)[4] == Header(e)[4];
  }

  lemma NumbersInjective(d: WalEntry, e: WalEntry)
    requires Numbers(d) == Numbers(e)
    ensures d == e
  {
    var x := Block(Octets(d.value.value)) + ClockNumbers(d.value.clock);
    var y := Block(Octets(e.value.value)) + ClockNumbers(e.value.clock);
    assert Numbers(d)[..5] == Header(d) && Numbers(e)[..5] == Header(e);
    HeaderInjective(d, e);
    assert Numbers(d)[5..] == Block(Chars(d.key)) + x && Numbers(e)[5..] == Block(Chars(e.key)) + y;
    BlockSplits(Chars(d.key), Chars(e.key), x, y);
    CharsInjective(d.key, e.key);
    BlockSplits(Octets(d.value.value), Octets(e.value.value), ClockNumbers(d.value.clock), ClockNumbers(e.value.clock));
    OctetsInjective(d.value.value, e.value.value);
    ClockNumbersInjective(d.value.clock, e.value.clock);
  }

  // ------------------------------------------------------------------------------
  // The format

  function EncodeEntry(e: WalEntry): string {
    "{" + Nums(Numbers(e)) + "}"
  }

  ghost function DecodeEntry(s: string): Option<WalEntry> {
    if e :| EncodeEntry(e) == s then Some(e) else None
  }

  lemma EncodeInjective(d: WalEntry, e: WalEntry)
    requires EncodeEntry(d) == EncodeEntry(e)
    ensures d == e
  {
    var s := EncodeEntry(d);
    assert s[1..|s| - 1] == Nums(Numbers(d)) == Nums(Numbers(e));
    NumsInjective(Numbers(d), Numbers(e));
    NumbersInjective(d, e);
  }

  lemma EntryLine(e: WalEntry)
    ensures '\n' !in EncodeEntry(e) && !Blank(EncodeEntry(e)) && StripReturn(EncodeEntry(e)) == EncodeEntry(e)
  {
    var s := EncodeEntry(e);
    NumsAlphabet(Numbers(e));
    assert s[|s| - 1] == '}' && '}' in s && !Whitespace('}');
  }

  lemma EntryPrefix(e: WalEntry, n: nat)
    requires n < |EncodeEntry(e)|
    ensures DecodeEntry(EncodeEntry(e)[..n]).None?
  {
    var s := EncodeEntry(e)[..n];
    Braces(e);
    forall d ensures EncodeEntry(d) != s {
      Braces(d);
      assert n > 1 ==> s[n - 1] != '}';
    }
  }

  /** Braces stand at the two ends of a line and nowhere else. */
  lemma Braces(e: WalEntry)
    ensures var s := EncodeEntry(e);
            && |s| >= 2 && s[0] == '{' && s[|s| - 1] == '}'
            && forall i :: 0 < i < |s| - 1 ==> s[i] != '{' && s[i] != '}'
  {
    var s, digits := EncodeEntry(e), Nums(Numbers(e));
    NumsAlphabet(Numbers(e));
    forall i | 0 < i < |s| - 1 ensures s[i] != '{' && s[i] != '}' {
      assert s[i] == digits[i - 1] && digits[i - 1] in digits;
    }
  }

  /** Log entries have a line format that fits one line, decodes back and survives no cut. */
  lemma EntryFormatIsLawful()
    ensures Lawful(Codec(EncodeEntry, s => DecodeEntry(s)))
  {
    forall e: WalEntry ensures DecodeEntry(EncodeEntry(e)) == Some(e) {
      var d := DecodeEntry(EncodeEntry(e));
      assert EncodeEntry(e) == EncodeEntry(e);
      EncodeInjective(d.value, e);
    }
    forall e: WalEntry
      ensures '\n' !in EncodeEntry(e) && !Blank(EncodeEntry(e)) && StripReturn(EncodeEntry(e)) == EncodeEntry(e)
    {
      EntryLine(e);
    }
    forall e: WalEntry, n: nat | n < |EncodeEntry(e)| ensures DecodeEntry(EncodeEntry(e)[..n]).None? {
      EntryPrefix(e, n);
    }
  }

  /** Nor does it accept a line on which another was begun. */
  lemma EntryFormatRefusesJoins()
    ensures JoinsFail(Codec(EncodeEntry, s => DecodeEntry(s)))
  {
    forall d, e, n: nat | 0 < n <= |EncodeEntry(d)|
      ensures DecodeEntry(EncodeEntry(d)[..n] + EncodeEntry(e)).None?
    {
      var s := EncodeEntry(d)[..n] + EncodeEntry(e);
      Braces(e);
      forall x ensures EncodeEntry(x) != s {
        Braces(x);
        assert s[n] == '{';
      }
    }
  }
}
