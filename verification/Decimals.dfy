/** Decimal text: writing a number's digits, and reading them back. */
module Decimals {
  import opened Powers

  predicate IsDigit(c: char) {
    '0' <= c <= '9'
  }

  function Digit(d: nat): (c: char)
    requires d < 10
    ensures IsDigit(c)
  {
    '0' + d as char
  }

  function DigitValue(c: char): (d: nat)
    requires IsDigit(c)
    ensures d < 10 && Digit(d) == c
  {
    (c - '0') as nat
  }

  /** The ten digits. */
  lemma DigitTable(d: nat)
    requires d < 10
    ensures Digit(d) == "0123456789"[d]
    ensures DigitValue("0123456789"[d]) == d
  {
  }

  predicate AllDigits(s: string) {
    forall i :: 0 <= i < |s| ==> IsDigit(s[i])
  }

  /** The last width decimal digits of n, with leading zeros. */
  function Padded(n: nat, width: nat): (s: string)
    ensures |s| == width && AllDigits(s)
  {
    if width == 0 then "" else Padded(n / 10, width - 1) + [Digit(n % 10)]
  }

  function DigitCount(n: nat): (c: nat)
    ensures c > 0
  {
    if n < 10 then 1 else 1 + DigitCount(n / 10)
  }

  /** n without leading zeros. */
  function Decimal(n: nat): (s: string)
    ensures AllDigits(s)
  {
    Padded(n, DigitCount(n))
  }

  function Zeros(k: nat): (s: string)
    ensures |s| == k && forall i :: 0 <= i < k ==> s[i] == '0'
  {
    seq(k, _ => '0')
  }

  /** The number the digits from p to end denote. */
  function Numeral(f: string, p: nat, end: nat): nat
    requires p <= end <= |f| && forall i :: p <= i < end ==> IsDigit(f[i])
    decreases end - p
  {
    if p == end then 0 else Numeral(f, p, end - 1) * 10 + DigitValue(f[end - 1])
  }

  /** The number a text of digits denotes. */
  function NumberIn(s: string): nat
    requires AllDigits(s)
  {
    Numeral(s, 0, |s|)
  }

  lemma {:induction false} NumeralShift(f: string, p: nat, end: nat, g: string, q: nat, end': nat)
    requires p <= end <= |f| && q <= end' <= |g| && f[p..end] == g[q..end']
    requires forall i :: p <= i < end ==> IsDigit(f[i])
    requires forall i :: q <= i < end' ==> IsDigit(g[i])
    ensures Numeral(f, p, end) == Numeral(g, q, end')
    decreases end - p
  {
    assert |f[p..end]| == |g[q..end']|;
    if p < end {
      assert f[end - 1] == f[p..end][end - 1 - p] == g[end' - 1];
      assert f[p..end - 1] == f[p..end][..end - 1 - p] == g[q..end' - 1];
      NumeralShift(f, p, end - 1, g, q, end' - 1);
    }
  }

  lemma NumberAppend(s: string, c: char)
    requires AllDigits(s) && IsDigit(c)
    ensures NumberIn(s + [c]) == NumberIn(s) * 10 + DigitValue(c)
  {
    assert (s + [c])[..|s|] == s[..|s|];
    NumeralShift(s + [c], 0, |s|, s, 0, |s|);
  }

  /** The last digit and the ones before it, below a power of ten. */
  lemma LastDigitBelow(n: nat, p: nat)
    requires p > 0
    ensures n % (10 * p) == n / 10 % p * 10 + n % 10
  {
    var a, b := n / 10, n % 10;
    Parts(n, 10);
    Parts(a, p);
    TimesTen(p, a / p);
    assert n == (10 * p) * (a / p) + (10 * (a % p) + b);
    RemainderIs(n, 10 * p, a / p, 10 * (a % p) + b);
  }

  lemma Parts(n: nat, d: nat)
    requires d > 0
    ensures n == d * (n / d) + n % d && n % d < d
  {
  }

  lemma TimesTen(p: nat, q: nat)
    ensures 10 * (p * q) == (10 * p) * q
  {
  }

  lemma RemainderIs(n: nat, d: nat, q: nat, r: nat)
    requires d > 0 && n == d * q + r && r < d
    ensures n % d == r
  {
    var q' := n / d;
    assert d * q' + n % d == d * q + r;
    if q' != q {
      Apart(d, q', q);
      Apart(d, q, q');
    }
  }

  lemma Apart(d: nat, a: nat, b: nat)
    ensures a < b ==> d * b >= d * a + d
  {
    if a < b {
      assert d * b == d * a + d * (b - a);
      GrowsBy(d, b - a);
    }
  }

  lemma {:induction false} GrowsBy(d: nat, k: nat)
    requires k > 0
    ensures d * k >= d
  {
    if k > 1 {
      GrowsBy(d, k - 1);
      assert d * k == d * (k - 1) + d;
    }
  }

  /** Reading back what was written: the last width digits of n. */
  lemma {:induction false} PaddedReads(n: nat, width: nat)
    ensures NumberIn(Padded(n, width)) == n % Pow10(width)
  {
    if width > 0 {
      PaddedReads(n / 10, width - 1);
      NumberAppend(Padded(n / 10, width - 1), Digit(n % 10));
      LastDigitBelow(n, Pow10(width - 1));
    }
  }

  /** Writing what was read: a text of digits is the padded form of its number. */
  lemma {:induction false} ReadsPadded(s: string)
    requires AllDigits(s)
    ensures Padded(NumberIn(s), |s|) == s
  {
    if s != "" {
      var t, c := s[..|s| - 1], s[|s| - 1];
      ReadsPadded(t);
      assert s == t + [c];
      NumberAppend(t, c);
    }
  }

  lemma {:induction false} DigitCountRange(n: nat)
    ensures n < Pow10(DigitCount(n))
    ensures n > 0 ==> Pow10(DigitCount(n) - 1) <= n
  {
    if n >= 10 {
      DigitCountRange(n / 10);
    }
  }

  lemma SmallRemainder(n: nat, d: nat)
    requires n < d
    ensures n % d == n
  {
  }

  /** The decimal form denotes the number, and has a leading zero only if that is all of it. */
  lemma DecimalReads(n: nat)
    ensures NumberIn(Decimal(n)) == n
    ensures Decimal(n)[0] == '0' <==> n == 0
    ensures n == 0 ==> Decimal(n) == "0"
  {
    DigitCountRange(n);
    PaddedReads(n, DigitCount(n));
    SmallRemainder(n, Pow10(DigitCount(n)));
    LeadingDigit(n);
  }

  lemma {:induction false} LeadingDigit(n: nat)
    ensures Decimal(n)[0] == '0' <==> n == 0
    ensures n < 10 ==> Decimal(n) == [Digit(n)]
  {
    if n >= 10 {
      LeadingDigit(n / 10);
      assert Decimal(n) == Decimal(n / 10) + [Digit(n % 10)];
    } else {
      assert Padded(n, 1) == Padded(n / 10, 0) + [Digit(n % 10)] == [Digit(n)];
    }
  }

  /** A numeral without a leading zero is the decimal form of its number. */
  lemma CanonicalNumeral(s: string)
    requires AllDigits(s) && s != "" && (s[0] == '0' ==> |s| == 1)
    ensures Decimal(NumberIn(s)) == s
  {
    ReadsPadded(s);
    CanonicalCount(s);
  }

  lemma {:induction false} CanonicalCount(s: string)
    requires AllDigits(s) && s != "" && (s[0] == '0' ==> |s| == 1)
    ensures DigitCount(NumberIn(s)) == |s| && (s[0] != '0' ==> NumberIn(s) > 0)
  {
    var t, c := s[..|s| - 1], s[|s| - 1];
    assert s == t + [c];
    NumberAppend(t, c);
    if t != "" {
      CanonicalCount(t);
      assert NumberIn(s) / 10 == NumberIn(t);
    }
  }
}
