/** Decimal rendering of a number, as used in ring labels and snapshot file names. */
module Decimal {
  import opened Ordered

  function Digit(d: nat): (c: char)
    requires d < 10
    ensures '0' <= c <= '9'
  {
    '0' + d as char
  }

  function Render(n: nat): (s: string)
    ensures s != [] && forall c :: c in s ==> '0' <= c <= '9'
  {
    if n < 10 then [Digit(n)] else Render(n / 10) + [Digit(n % 10)]
  }

  lemma {:induction false} RenderInjective(m: nat, n: nat)
    requires Render(m) == Render(n)
    ensures m == n
  {
    var a, b := Render(m), Render(n);
    assert a[|a| - 1] == Digit(m % 10) && b[|b| - 1] == Digit(n % 10);
    if m >= 10 && n >= 10 {
      assert a[..|a| - 1] == Render(m / 10) && b[..|b| - 1] == Render(n / 10);
      RenderInjective(m / 10, n / 10);
    }
  }

  /** On renderings of equal length the path sort is the numeric order. */
  lemma {:induction false} EqualLengthOrder(m: nat, n: nat)
    requires |Render(m)| == |Render(n)|
    ensures LexLess(Render(m), Render(n)) <==> m < n
  {
    if m >= 10 && n >= 10 {
      EqualLengthOrder(m / 10, n / 10);
      LexHeads(Render(m / 10), Render(n / 10), [Digit(m % 10)], [Digit(n % 10)]);
      if Render(m / 10) == Render(n / 10) { RenderInjective(m / 10, n / 10); }
    }
  }

  lemma {:induction false} LongerIsNotSmaller(m: nat, n: nat)
    requires m <= n
    ensures |Render(m)| <= |Render(n)|
  {
    if m >= 10 { LongerIsNotSmaller(m / 10, n / 10); }
  }

  function Power10(k: nat): (p: nat)
    ensures p > 0
  {
    if k == 0 then 1 else 10 * Power10(k - 1)
  }

  lemma ProductOrder(a: int, b: int, d: int)
    ensures d > 0 && a <= b ==> a * d <= b * d
  {}

  lemma QuotientUnique(x: nat, d: nat, q: nat, r: nat)
    requires x == q * d + r && r < d
    ensures x / d == q
  {
    ProductOrder(x / d + 1, q, d);
    ProductOrder(q + 1, x / d, d);
  }

  lemma DivideTwice(x: nat, p: nat)
    requires p > 0
    ensures x / 10 / p == x / (10 * p)
  {
    var y := x / 10;
    var q, r := y / p, y % p;
    assert x == q * (10 * p) + (10 * r + x % 10) by {
      assert y == q * p + r;
      assert 10 * (q * p) == q * (10 * p);
    }
    QuotientUnique(x, 10 * p, q, 10 * r + x % 10);
  }

  /** `n` without its last `k` digits. */
  function Leading(n: nat, k: nat): nat {
    QuotientNonNegative(n, Power10(k));
    n / Power10(k)
  }

  lemma QuotientNonNegative(n: nat, p: nat)
    requires p > 0
    ensures n / p >= 0
  {}

  lemma LeadingStep(n: nat, k: nat)
    ensures Leading(n, 0) == n
    ensures Leading(n, k + 1) == Leading(n / 10, k)
  {
    DivideTwice(n, Power10(k));
  }

  lemma {:induction false} LeadingDigits(n: nat, k: nat)
    requires k < |Render(n)|
    ensures Render(Leading(n, k)) == Render(n)[..|Render(n)| - k]
  {
    LeadingStep(n, 0);
    if k > 0 {
      LeadingStep(n, k - 1);
      LeadingDigits(n / 10, k - 1);
    }
  }

  /** The number a run of digits stands for. */
  function ValueOf(s: string): int {
    if s == [] then 0 else 10 * ValueOf(s[..|s| - 1]) + (s[|s| - 1] as int - '0' as int)
  }

  /** A rendering stands for the number rendered, without leading zeros. */
  lemma {:induction false} RenderedValue(n: nat)
    ensures ValueOf(Render(n)) == n && (|Render(n)| > 1 ==> Render(n)[0] != '0')
  {
    if n >= 10 {
      RenderedValue(n / 10);
      assert Render(n)[..|Render(n)| - 1] == Render(n / 10);
    } else {
      assert Render(n)[..0] == [] && ValueOf([]) == 0;
    }
  }
}
