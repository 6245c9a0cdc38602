/** Decimal text of years, centuries and fractions of a second, as fmt's chrono writers produce it. */
module ChronoText {
  import opened Basics
  import opened Decimals
  import DigitPairs
  import opened Powers

  // ---------------------------------------------------------------- decimal digits

  lemma {:induction false} PaddedZero(width: nat)
    ensures Padded(0, width) == Zeros(width)
  {
    if width > 0 {
      PaddedZero(width - 1);
    }
  }

  /** Extra width in front is zeros. */
  lemma {:induction false} PaddedFront(n: nat, zeros: nat, width: nat)
    requires n < Pow10(width)
    ensures Padded(n, zeros + width) == Zeros(zeros) + Padded(n, width)
  {
    if width == 0 {
      PaddedZero(zeros);
    } else {
      PaddedFront(n / 10, zeros, width - 1);
    }
  }

  lemma PaddedTen(m: nat, width: nat)
    ensures Padded(10 * m, width + 1) == Padded(m, width) + ['0']
  {
    assert 10 * m / 10 == m && 10 * m % 10 == 0;
  }

  /** Multiplying by a power of ten appends zeros. */
  lemma {:induction false} PaddedShift(n: nat, width: nat, k: nat)
    ensures Padded(n * Pow10(k), width + k) == Padded(n, width) + Zeros(k)
  {
    if k == 0 {
      assert Zeros(0) == "" && n * Pow10(0) == n;
      assert Padded(n, width) + "" == Padded(n, width);
    } else {
      PaddedShift(n, width, k - 1);
      TenTimes(n, Pow10(k - 1));
      PaddedTen(n * Pow10(k - 1), width + k - 1);
      assert Zeros(k) == Zeros(k - 1) + ['0'];
    }
  }

  lemma TenTimes(n: nat, p: nat)
    ensures n * (10 * p) == 10 * (n * p)
  {
  }

  lemma {:induction false} PowSum(a: nat, b: nat)
    ensures Pow10(a + b) == Pow10(a) * Pow10(b)
  {
    if a > 0 {
      PowSum(a - 1, b);
      TimesTen(Pow10(a - 1), Pow10(b));
    }
  }

  // ---------------------------------------------------------------- the digit writers

  /** count_digits, four digits a step. */
  method CountDigits(value: nat) returns (count: nat)
    ensures count == DigitCount(value)
  {
    var n := value;
    count := 1;
    while true
      invariant count + DigitCount(n) == 1 + DigitCount(value)
      decreases n
    {
      SmallCounts(n);
      if n < 10 { return count; }
      if n < 100 { return count + 1; }
      if n < 1000 { return count + 2; }
      if n < 10000 { return count + 3; }
      FourDigits(n);
      n := n / 10000;
      count := count + 4;
    }
  }

  lemma SmallCounts(n: nat)
    ensures 10 <= n < 100 ==> DigitCount(n) == 2
    ensures 100 <= n < 1000 ==> DigitCount(n) == 3
    ensures 1000 <= n < 10000 ==> DigitCount(n) == 4
  {
    assert n >= 10 ==> DigitCount(n) == 1 + DigitCount(n / 10);
    assert n >= 100 ==> DigitCount(n / 10) == 1 + DigitCount(n / 10 / 10);
    assert n >= 1000 ==> DigitCount(n / 10 / 10) == 1 + DigitCount(n / 10 / 10 / 10);
  }

  lemma FourDigits(n: nat)
    requires n >= 10000
    ensures DigitCount(n) == 4 + DigitCount(n / 10000)
  {
    assert n / 10 / 10 / 10 / 10 == n / 10000;
    assert DigitCount(n / 10) == 1 + DigitCount(n / 10 / 10);
    assert DigitCount(n / 10 / 10) == 1 + DigitCount(n / 10 / 10 / 10);
  }

  /** do_format_decimal: fills the last digits of a region of out from the right, two a step. */
  method FormatDecimal(out: array<char>, value: nat, size: nat, narrow: bool) returns (start: nat)
    requires DigitCount(value) <= size <= out.Length && (narrow ==> value < DigitPairs.TWO32)
    modifies out
    ensures start == size - DigitCount(value)
    ensures out[..] == old(out[..start]) + Decimal(value) + old(out[size..])
    ensures AllDigits(out[start..size]) && NumberIn(out[start..size]) == value
  {
    ghost var before := out[..];
    var v: nat, n: nat := value, size;
    assert Pow10(0) == 1 && Padded(value, 0) == "";
    assert before == before[..size] + "" + before[size..];
    hide Pow10, Padded;
    while v >= 100
      invariant n <= size && DigitCount(v) + (size - n) == DigitCount(value) && DigitCount(v) <= n
      invariant v == value / Pow10(size - n) && v <= value
      invariant out[..] == before[..n] + Padded(value, size - n) + before[size..]
      decreases v
    {
      SmallCounts(v);
      TwoDigitsLess(v);
      n := n - 2;
      var pair, rest := DigitPairs.Split(v, narrow);
      PutPair(out, before, value, size, n, v, pair);
      v := rest;
    }
    if v >= 10 {
      SmallCounts(v);
      n := n - 2;
      PutPair(out, before, value, size, n, v, v);
    } else {
      n := n - 1;
      PutDigit(out, before, value, size, n, v);
    }
    start := n;
    assert out[start..size] == Decimal(value);
    DecimalReads(value);
  }

  /** The last digit of all. */
  method PutDigit(out: array<char>, ghost before: string, ghost value: nat, size: nat, n: nat, v: nat)
    requires n + 1 <= size <= out.Length == |before| && v < 10 && v == value / Pow10(size - n - 1)
    requires out[..] == before[..n + 1] + Padded(value, size - n - 1) + before[size..]
    modifies out
    ensures out[..] == before[..n] + Padded(value, size - n) + before[size..]
  {
    ghost var was := out[..];
    OneMore(value, size - n - 1, v);
    hide Pow10, Padded;
    out[n] := Digit(v);
    assert out[..] == was[n := Digit(v)];
    assert was[n := Digit(v)] == before[..n] + ([Digit(v % 10)] + Padded(value, size - n - 1)) + before[size..];
  }

  /** write2digits: the next two digits of value, in front of those written. */
  method PutPair(out: array<char>, ghost before: string, ghost value: nat, size: nat, n: nat, ghost v: nat, pair: nat)
    requires n + 2 <= size <= out.Length == |before| && pair == v % 100 && v == value / Pow10(size - n - 2)
    requires out[..] == before[..n + 2] + Padded(value, size - n - 2) + before[size..]
    modifies out
    ensures out[..] == before[..n] + Padded(value, size - n) + before[size..]
    ensures value / Pow10(size - n) == v / 100
  {
    ghost var was := out[..];
    out[n], out[n + 1] := Digit(pair / 10), Digit(pair % 10);
    assert out[..] == was[n := Digit(pair / 10)][n + 1 := Digit(pair % 10)];
    LowDigits(v);
    TwoMore(value, size - n - 2, v);
    FilledTwo(before, Padded(value, size - n - 2), n, size, Digit(pair / 10), Digit(pair % 10), out[..]);
  }

  lemma TwoDigitsLess(v: nat)
    requires v >= 100
    ensures DigitCount(v) == 2 + DigitCount(v / 100)
  {
    assert v / 10 / 10 == v / 100 && DigitCount(v / 10) == 1 + DigitCount(v / 10 / 10);
  }

  lemma FilledTwo(before: string, tail: string, n: nat, size: nat, a: char, b: char, now: string)
    requires n + 2 <= size <= |before| && |tail| == size - n - 2
    requires now == (before[..n + 2] + tail + before[size..])[n := a][n + 1 := b]
    ensures now == before[..n] + ([a, b] + tail) + before[size..]
  {
  }

  /** The next higher digits of value, whose digits from position k on are v. */
  lemma {:induction false} OneMore(value: nat, k: nat, v: nat)
    requires v == value / Pow10(k)
    ensures Padded(value, k + 1) == [Digit(v % 10)] + Padded(value, k)
    ensures value / Pow10(k + 1) == v / 10
  {
    if k > 0 {
      DivPow(value, 1, k - 1);
      OneMore(value / 10, k - 1, v);
      DivPow(value, 1, k);
    }
  }

  lemma TwoMore(value: nat, k: nat, v: nat)
    requires v == value / Pow10(k)
    ensures Padded(value, k + 2) == [Digit(v % 100 / 10), Digit(v % 10)] + Padded(value, k)
    ensures value / Pow10(k + 2) == v / 100
  {
    OneMore(value, k, v);
    OneMore(value, k + 1, v / 10);
    TensDigit(v);
    TenTimesTen(v);
    hide Padded, Pow10;
    assert [Digit(v % 100 / 10)] + ([Digit(v % 10)] + Padded(value, k)) ==
      [Digit(v % 100 / 10), Digit(v % 10)] + Padded(value, k);
  }

  lemma TensDigit(v: nat)
    ensures v / 10 % 10 == v % 100 / 10
  {
    var q, r := v / 100, v % 100;
    assert v / 10 == 10 * q + r / 10;
  }

  lemma TenTimesTen(v: nat)
    ensures v / 10 / 10 == v / 100
  {
  }

  lemma DivPow(n: nat, a: nat, b: nat)
    ensures n / Pow10(a) / Pow10(b) == n / Pow10(a + b)
  {
    PowSum(a, b);
    DivDiv(n, Pow10(a), Pow10(b));
  }

  lemma DivDiv(n: nat, p: nat, q: nat)
    requires p > 0 && q > 0
    ensures p * q > 0 && n / p / q == n / (p * q)
  {
    var a, r := n / p, n % p;
    var b, s := a / q, a % q;
    assert p * q > 0 by { MulPositive(p, q); }
    assert n == b * (p * q) + (s * p + r) by {
      assert n == (b * q + s) * p + r;
      assert (b * q + s) * p == b * (p * q) + s * p;
    }
    assert 0 <= s * p + r < p * q by {
      MulLess(s, q, p);
    }
    QuotientIs(n, p * q, b, s * p + r);
  }

  lemma MulPositive(p: nat, q: nat)
    requires p > 0 && q > 0
    ensures p * q > 0
  {
  }

  lemma {:induction false} MulLess(s: nat, q: nat, p: nat)
    requires s < q
    ensures s * p + p <= q * p
  {
    if p > 0 {
      MulLess(s, q, p - 1);
      assert s * p == s * (p - 1) + s && q * p == q * (p - 1) + q;
    }
  }

  lemma {:induction false} ProductNat(a: nat, b: nat)
    ensures a * b >= 0
  {
    if b > 0 {
      ProductNat(a, b - 1);
      assert a * b == a * (b - 1) + a;
    }
  }

  lemma QuotientNat(a: nat, b: nat)
    requires b > 0
    ensures a / b >= 0
  {
  }

  lemma QuotientIs(n: nat, d: nat, b: nat, r: nat)
    requires d > 0 && n == b * d + r && r < d
    ensures n / d == b
  {
    var q := n / d;
    assert n == q * d + n % d;
    if q < b {
      MulLess(q, b, d);
    } else if q > b {
      MulLess(b, q, d);
    }
  }

  /** format_decimal through a scratch buffer. The whole buffer is copied, so the digit count must
      be exact. */
  method AppendDecimal(out: string, value: nat, numDigits: nat) returns (r: string)
    requires numDigits == DigitCount(value)
    ensures r == out + Decimal(value) && NumberIn(Decimal(value)) == value
  {
    var buffer := new char[numDigits];
    var start := FormatDecimal(buffer, value, numDigits, false);
    assert buffer[..] == Decimal(value);
    r := out + buffer[..];
  }

  // ---------------------------------------------------------------- fractions of a second

  /** The first precision digits after the point of n / 10^digits. */
  function Fraction(n: nat, digits: nat, precision: nat): nat
  {
    ProductNat(n, Pow10(precision));
    QuotientNat(n * Pow10(precision), Pow10(digits));
    n * Pow10(precision) / Pow10(digits)
  }

  /** write_fractional_seconds for n < 10^digits: a point and exactly the asked-for digits, rounded
      down; with a negative precision all digits, and nothing when there are none. */
  method WriteFractionalSeconds(out: string, n: nat, digits: nat, precision: int) returns (r: string)
    requires n < Pow10(digits)
    ensures precision > 0 ==> r == out + "." + Padded(Fraction(n, digits, precision), precision)
    ensures precision == 0 ==> r == out
    ensures precision < 0 ==> r == if digits == 0 then out else out + "." + Padded(n, digits)
    ensures precision > 0 ==> NumberIn(Padded(Fraction(n, digits, precision), precision)) == Fraction(n, digits, precision)
    ensures NumberIn(Padded(n, digits)) == n
  {
    FractionReads(n, digits, precision);
    var numDigits := CountDigits(n);
    var leadingZeroes: nat := Max(0, digits - numDigits);
    if precision < 0 {
      if digits == 0 {
        return out;
      }
      CountWithin(n, digits);
      DigitCountRange(n);
      PaddedFront(n, leadingZeroes, numDigits);
      r := AppendDecimal(out + "." + Zeros(leadingZeroes), n, numDigits);
      assert r == out + "." + (Zeros(leadingZeroes) + Decimal(n));
    } else if precision > 0 {
      leadingZeroes := Min(leadingZeroes, precision);
      r := WriteDigits(out + ".", n, digits, precision, numDigits, leadingZeroes);
    } else {
      r := out;
    }
  }

  /** The part after the point: leading zeros, then what fits of n, then zeros on the right. */
  method WriteDigits(out: string, n: nat, digits: nat, precision: nat, numDigits: nat, leadingZeroes: nat)
    returns (r: string)
    requires n < Pow10(digits) && precision > 0 && numDigits == DigitCount(n)
    requires leadingZeroes == Min(Max(0, digits - numDigits), precision)
    ensures r == out + Padded(Fraction(n, digits, precision), precision)
  {
    var remaining := precision - leadingZeroes;
    r := out + Zeros(leadingZeroes);
    if remaining < numDigits {
      var m := n / Pow10(numDigits - remaining);
      QuotientNat(n, Pow10(numDigits - remaining));
      Truncated(n, digits, precision, leadingZeroes, remaining, m);
      if m != 0 {
        r := AppendDecimal(r, m, remaining);
        assert r == out + (Zeros(leadingZeroes) + Decimal(m));
      }
      return;
    }
    Extended(n, digits, precision, leadingZeroes, remaining);
    if n != 0 {
      r := AppendDecimal(r, n, numDigits);
      r := r + Zeros(remaining - numDigits);
      assert r == out + (Zeros(leadingZeroes) + Decimal(n) + Zeros(remaining - numDigits));
    } else {
      r := r + Zeros(remaining);
      assert Zeros(leadingZeroes) + Zeros(remaining) == Zeros(precision);
      assert r == out + (Zeros(leadingZeroes) + Zeros(remaining));
    }
  }

  /** The written digits denote the count, and the fraction when it is cut or extended. */
  lemma FractionReads(n: nat, digits: nat, precision: int)
    requires n < Pow10(digits)
    ensures NumberIn(Padded(n, digits)) == n
    ensures precision > 0 ==> NumberIn(Padded(Fraction(n, digits, precision), precision)) == Fraction(n, digits, precision)
  {
    PaddedReads(n, digits);
    SmallRemainder(n, Pow10(digits));
    if precision > 0 {
      FractionBelow(n, digits, precision);
      PaddedReads(Fraction(n, digits, precision), precision);
      SmallRemainder(Fraction(n, digits, precision), Pow10(precision));
    }
  }

  lemma FractionBelow(n: nat, digits: nat, precision: nat)
    requires n < Pow10(digits)
    ensures Fraction(n, digits, precision) < Pow10(precision)
  {
    QuotientBelow(n, Pow10(precision), Pow10(digits));
  }

  lemma QuotientBelow(n: nat, p: nat, d: nat)
    requires n < d && p > 0
    ensures n * p / d < p
  {
    var q, r := n * p / d, n * p % d;
    assert n * p == q * d + r;
    MulLess(n, d, p);
    Commutes(d, p);
    if q >= p {
      AtLeast(p, q, d);
    }
  }

  lemma Commutes(d: nat, p: nat)
    ensures d * p == p * d
  {
  }

  lemma AtLeast(p: nat, q: nat, d: nat)
    requires p <= q
    ensures p * d <= q * d
  {
    if p < q {
      MulLess(p, q, d);
    }
  }

  lemma CountWithin(n: nat, digits: nat)
    requires n < Pow10(digits)
    ensures n > 0 || digits > 0 ==> DigitCount(n) <= digits
    ensures n == 0 ==> DigitCount(n) == 1
  {
    DigitCountRange(n);
    PowMonotone(digits, Max(digits, DigitCount(n) - 1));
  }

  lemma MulDiv(n: nat, p: nat, q: nat)
    requires p > 0 && q > 0
    ensures p * q > 0 && n * p / (p * q) == n / q
  {
    assert p * q > 0 by { MulPositive(p, q); }
    var b, r := n / q, n % q;
    assert n * p == b * (p * q) + r * p by {
      assert n == b * q + r;
      assert (b * q + r) * p == b * (p * q) + r * p;
    }
    MulLess(r, q, p);
    QuotientIs(n * p, p * q, b, r * p);
  }

  /** Cutting digits off: the fraction is a quotient by a power of ten. */
  lemma FractionShort(n: nat, digits: nat, precision: nat)
    requires precision <= digits
    ensures Fraction(n, digits, precision) == n / Pow10(digits - precision)
  {
    PowSum(precision, digits - precision);
    MulDiv(n, Pow10(precision), Pow10(digits - precision));
  }

  /** Asking for more digits than there are: the fraction is a multiple. */
  lemma FractionLong(n: nat, digits: nat, precision: nat)
    requires precision >= digits
    ensures Fraction(n, digits, precision) == n * Pow10(precision - digits)
  {
    PowSum(precision - digits, digits);
    var p, d := Pow10(precision - digits), Pow10(digits);
    assert n * (p * d) == (n * p) * d;
    QuotientIs(n * (p * d), d, n * p, 0);
  }

  lemma {:induction false} DigitCountQuotient(n: nat, k: nat)
    requires k < DigitCount(n)
    ensures n > 0 ==> n / Pow10(k) > 0 && DigitCount(n / Pow10(k)) == DigitCount(n) - k
  {
    if k > 0 {
      DigitCountQuotient(n / 10, k - 1);
      DivPow(n, 1, k - 1);
    }
  }

  lemma BelowPower(n: nat, k: nat)
    requires n < Pow10(k)
    ensures n / Pow10(k) == 0
  {
    QuotientIs(n, Pow10(k), 0, n);
  }

  /** The branch that drops digits: what is left fills the remaining places exactly. */
  lemma Truncated(n: nat, digits: nat, precision: nat, leading: nat, remaining: nat, m: nat)
    requires n < Pow10(digits) && precision > 0
    requires leading == Min(Max(0, digits - DigitCount(n)), precision) && remaining == precision - leading
    requires remaining < DigitCount(n) && m == n / Pow10(DigitCount(n) - remaining)
    ensures m != 0 ==> DigitCount(m) == remaining
    ensures m != 0 ==> Padded(Fraction(n, digits, precision), precision) == Zeros(leading) + Decimal(m)
    ensures m == 0 ==> Padded(Fraction(n, digits, precision), precision) == Zeros(leading)
  {
    CountWithin(n, digits);
    DigitCountRange(n);
    var c := DigitCount(n);
    assert precision <= digits;
    FractionShort(n, digits, precision);
    if remaining == 0 {
      BelowPower(n, c);
      PowMonotone(c, digits - precision);
      BelowPower(n, digits - precision);
      PaddedZero(precision);
    } else {
      assert digits - precision == c - remaining;
      if n > 0 {
        DigitCountQuotient(n, c - remaining);
        DigitCountRange(m);
        PaddedFront(m, leading, remaining);
      }
    }
  }

  /** The branch that keeps all digits and pads on the right. */
  lemma Extended(n: nat, digits: nat, precision: nat, leading: nat, remaining: nat)
    requires n < Pow10(digits) && precision > 0
    requires leading == Min(Max(0, digits - DigitCount(n)), precision) && remaining == precision - leading
    requires remaining >= DigitCount(n)
    ensures n == 0 ==> Padded(Fraction(n, digits, precision), precision) == Zeros(precision)
    ensures n != 0 ==>
      Padded(Fraction(n, digits, precision), precision) ==
        Zeros(leading) + Decimal(n) + Zeros(remaining - DigitCount(n))
  {
    CountWithin(n, digits);
    DigitCountRange(n);
    if n == 0 {
      PaddedZero(precision);
      assert 0 * Pow10(precision) == 0;
      BelowPower(0, digits);
    } else {
      FractionLong(n, digits, precision);
      var k := precision - digits;
      PaddedShift(n, digits, k);
      PaddedFront(n, leading, DigitCount(n));
      assert k == remaining - DigitCount(n);
    }
  }

  // ---------------------------------------------------------------- years

  datatype Pad = NoPad | ZeroPad | SpacePad

  function Spaces(k: nat): (s: string)
    ensures |s| == k && forall i :: 0 <= i < k ==> s[i] == ' '
  {
    seq(k, _ => ' ')
  }

  method WritePadding(out: string, pad: Pad, width: nat) returns (r: string)
    ensures r == out + if pad.NoPad? then "" else if pad.SpacePad? then Spaces(width) else Zeros(width)
  {
    if pad.NoPad? {
      return out + "";
    }
    r := out + if pad.SpacePad? then Spaces(width) else Zeros(width);
  }

  /** How many characters of padding a year gets: it is at least four wide, sign included. */
  function YearFill(year: int): nat
  {
    Max(0, (if year < 0 then 3 else 4) - DigitCount(Abs(year)))
  }

  function Sign(year: int): string { if year < 0 then "-" else "" }

  /** The text is the lead and then digits that denote n. */
  ghost predicate Reads(text: string, lead: string, n: nat)
  {
    exists digits :: AllDigits(digits) && NumberIn(digits) == n && text == lead + digits
  }

  /** Zero padding goes after the sign, space padding before it. */
  method WriteYear(out: string, year: int, pad: Pad) returns (r: string)
    ensures pad == ZeroPad ==>
      r == out + Sign(year) + Padded(Abs(year), YearFill(year) + DigitCount(Abs(year)))
    ensures pad == SpacePad ==> r == out + Spaces(YearFill(year)) + Sign(year) + Decimal(Abs(year))
    ensures pad == NoPad ==> r == out + Sign(year) + Decimal(Abs(year))
    ensures Reads(r, out + (if pad == SpacePad then Spaces(YearFill(year)) else "") + Sign(year), Abs(year))
  {
    hide Padded, DigitCount, Pow10, AllDigits, Numeral, Reads;
    var width := 4;
    var y := year;
    var negative := year < 0;
    if negative {
      y := 0 - y;
      width := width - 1;
    }
    var numDigits := CountDigits(y);
    r := out;
    if negative && pad == ZeroPad {
      r := r + "-";
    }
    assert r == if pad == ZeroPad then out + Sign(year) else out;
    ghost var front := r;
    if width > numDigits {
      r := WritePadding(r, pad, width - numDigits);
    }
    NothingWritten(front);
    assert r == front +
      if pad == NoPad then "" else if pad == SpacePad then Spaces(YearFill(year)) else Zeros(YearFill(year));
    front := r;
    if negative && pad != ZeroPad {
      r := r + "-";
    }
    assert r == front + if pad == ZeroPad then "" else Sign(year);
    r := AppendDecimal(r, y, numDigits);
    DigitCountRange(y);
    PaddedFront(y, YearFill(year), numDigits);
    Assembled(out, Sign(year), Zeros(YearFill(year)), Decimal(y));
    YearText(r, out, Sign(year), YearFill(year), y, pad);
  }

  /** Each of the three forms is a lead and then digits that denote y. */
  lemma YearText(r: string, out: string, sign: string, fill: nat, y: nat, pad: Pad)
    requires pad == ZeroPad ==> r == out + sign + Padded(y, fill + DigitCount(y))
    requires pad == SpacePad ==> r == out + Spaces(fill) + sign + Decimal(y)
    requires pad == NoPad ==> r == out + sign + Decimal(y)
    ensures Reads(r, out + (if pad == SpacePad then Spaces(fill) else "") + sign, y)
  {
    YearReads(y, fill);
    hide Padded, DigitCount, Decimal, AllDigits, Numeral;
    var lead := out + (if pad == SpacePad then Spaces(fill) else "") + sign;
    assert pad != SpacePad ==> out + "" + sign == out + sign;
    ReadsAs(r, lead, if pad == ZeroPad then Padded(y, fill + DigitCount(y)) else Decimal(y), y);
  }

  lemma ReadsAs(text: string, lead: string, digits: string, n: nat)
    requires AllDigits(digits) && NumberIn(digits) == n && text == lead + digits
    ensures Reads(text, lead, n)
  {
  }

  lemma YearReads(n: nat, fill: nat)
    ensures NumberIn(Decimal(n)) == n == NumberIn(Padded(n, fill + DigitCount(n)))
  {
    DecimalReads(n);
    DigitCountRange(n);
    PowMonotone(DigitCount(n), fill + DigitCount(n));
    PaddedReads(n, fill + DigitCount(n));
    SmallRemainder(n, Pow10(fill + DigitCount(n)));
  }

  lemma NothingWritten(front: string)
    ensures front + "" == front && Spaces(0) == "" && Zeros(0) == ""
  {
  }

  lemma Assembled(out: string, sign: string, fill: string, digits: string)
    ensures out + sign + fill + "" + digits == out + sign + (fill + digits)
    ensures out + "" + sign + digits == out + sign + digits
  {
    assert out + "" == out;
  }

  lemma TwoDigits(n: nat)
    ensures Padded(n, 2) == [Digit(n / 10 % 10), Digit(n % 10)]
  {
    assert Padded(n / 10, 1) == Padded(n / 10 / 10, 0) + [Digit(n / 10 % 10)] == [Digit(n / 10 % 10)];
  }

  lemma LowDigits(n: nat)
    ensures n % 100 / 10 % 10 == n / 10 % 10 && n % 100 / 10 == n / 10 % 10 && n % 100 % 10 == n % 10
  {
    var q, r := n / 100, n % 100;
    assert n == 10 * (10 * q + r / 10) + r % 10;
    assert n / 10 == 10 * q + r / 10;
  }

  method Write2(out: string, value: nat) returns (r: string)
    ensures r == out + Padded(value, 2)
  {
    var v := value % 100;
    TwoDigits(value);
    LowDigits(value);
    r := out + [Digit(v / 10), Digit(v % 10)];
  }

  lemma ModOfYear(year: int)
    ensures Abs(Mod(year, 100)) == Abs(year) % 100
  {
  }

  method WriteShortYear(out: string, year: int) returns (r: string)
    ensures r == out + Padded(Abs(year), 2) && Reads(r, out, Abs(year) % 100)
  {
    var l := Mod(year, 100);
    if l < 0 {
      l := -l;
    }
    ModOfYear(year);
    TwoDigits(Abs(year));
    TwoDigits(l);
    LowDigits(Abs(year));
    r := Write2(out, l);
    ShortReads(r, out, Abs(year));
  }

  lemma ShortReads(r: string, out: string, y: nat)
    requires r == out + Padded(y, 2)
    ensures Reads(r, out, y % 100)
  {
    PaddedReads(y, 2);
    assert Pow10(1) == 10 && Pow10(2) == 100;
    hide Padded, AllDigits, Numeral;
    ReadsAs(r, out, Padded(y, 2), y % 100);
  }

  method WriteCentury(out: string, year: int) returns (r: string)
    ensures r == out + (if year < 0 then "-" else "") +
      Padded(Abs(year) / 100, Max(if year < 0 then 1 else 2, DigitCount(Abs(year) / 100)))
    ensures Reads(r, out + Sign(year), Abs(year) / 100)
  {
    var upper := Div(year, 100);
    var c := Abs(year) / 100;
    if -99 <= year < 0 {
      r := out + "-" + "0";
      assert Padded(0, 1) == Padded(0, 0) + [Digit(0)];
    } else if 0 <= upper < 100 {
      assert upper == c;
      SmallCounts(c);
      r := Write2(out, upper);
      assert out + "" == out;
    } else {
      assert Abs(upper) == c;
      if c >= 100 { assert DigitCount(c) == 1 + DigitCount(c / 10); }
      var n := CountDigits(Abs(upper));
      r := AppendDecimal(if upper < 0 then out + "-" else out + "", Abs(upper), n);
    }
    WideReads(r, out + Sign(year), c, Max(if year < 0 then 1 else 2, DigitCount(c)));
  }

  lemma WideReads(r: string, lead: string, n: nat, width: nat)
    requires width >= DigitCount(n) && r == lead + Padded(n, width)
    ensures Reads(r, lead, n)
  {
    YearReads(n, width - DigitCount(n));
    hide Padded, AllDigits, Numeral, DigitCount;
    ReadsAs(r, lead, Padded(n, width), n);
  }

  /** Main result. For every year, negative, short or beyond 9999, the century followed by the short
      year is the zero-padded year. */
  method CenturyThenShortYear(year: int) returns (split: string, whole: string)
    ensures split == whole && Reads(whole, Sign(year), Abs(year))
    ensures |whole| >= 4
  {
    hide Reads, Padded, DigitCount, AllDigits, Numeral, Decimal, Spaces;
    split := WriteCentury("", year);
    split := WriteShortYear(split, year);
    whole := WriteYear("", year, ZeroPad);
    SplitYear(year, Abs(year), if year < 0 then "-" else "", split, whole);
    assert "" + "" + Sign(year) == Sign(year);
  }

  lemma SplitYear(year: int, a: nat, sign: string, split: string, whole: string)
    requires a == Abs(year) && sign == if year < 0 then "-" else ""
    requires split ==
      "" + sign + Padded(a / 100, Max(if year < 0 then 1 else 2, DigitCount(a / 100))) + Padded(a, 2)
    requires whole == "" + sign + Padded(a, YearFill(year) + DigitCount(a))
    ensures split == whole && |whole| >= 4
  {
    hide Padded, DigitCount, YearFill;
    var width := Max(if year < 0 then 1 else 2, DigitCount(a / 100));
    YearSplit(a, width);
    YearWidth(year, a);
    assert split == sign + (Padded(a / 100, width) + Padded(a, 2));
    assert whole == sign + Padded(a, width + 2);
  }

  lemma YearWidth(year: int, a: nat)
    requires a == Abs(year)
    ensures Max(if year < 0 then 1 else 2, DigitCount(a / 100)) + 2 == YearFill(year) + DigitCount(a)
    ensures |Sign(year)| + YearFill(year) + DigitCount(a) >= 4
  {
    SmallCounts(a);
    if a >= 100 {
      TwoDigitsLess(a);
    } else {
      assert a / 100 == 0;
    }
  }

  lemma YearSplit(a: nat, width: nat)
    ensures Padded(a, width + 2) == Padded(a / 100, width) + Padded(a, 2)
  {
    TwoDigits(a);
    assert a / 10 / 10 == a / 100;
    assert Padded(a, width + 2) == (Padded(a / 100, width) + [Digit(a / 10 % 10)]) + [Digit(a % 10)];
  }
}
