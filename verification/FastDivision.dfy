/** Division by constants through multiplication, as the shortest-decimal code of fmt does it. */
module FastDivision {
  import opened Powers

  const TWO16: nat := 0x1_0000
  const TWO32: nat := 0x1_0000_0000
  const TWO64: nat := 0x1_0000_0000_0000_0000
  const TWO71: nat := 0x80_0000_0000_0000_0000
  const TWO128: nat := 0x1_0000_0000_0000_0000_0000_0000_0000_0000

  type Uint32 = x: nat | x < TWO32
  type Uint64 = x: nat | x < TWO64

  // ---------------------------------------------------------------- multiply and shift

  /** n * ceil(2^37 / 100) >> 37. */
  function DivideBy100(n: Uint32): (q: nat)
    ensures q == n / 100
  {
    n * 1374389535 / 0x20_0000_0000
  }

  /** The upper half of n * ceil(2^71 / 1000), shifted right by 7. */
  function DivideBy1000(n: Uint64): nat
  {
    n * 2361183241434822607 / TWO64 / 128
  }

  /** The 64-bit form is exact except on the largest arguments with last digits 999. */
  lemma DivideBy1000Exact(n: Uint64)
    ensures DivideBy1000(n) == n / 1000 <==> 152 * n < TWO71 || n % 1000 != 999
    ensures n % 1000 == 999 && 152 * n >= TWO71 ==> DivideBy1000(n) == n / 1000 + 1
  {
    var q, r := n / 1000, n % 1000;
    var p := n * 2361183241434822607;
    assert 1000 * p == 1000 * q * TWO71 + (r * TWO71 + 152 * n);
    assert p / TWO64 / 128 == p / TWO71;
  }

  /** The first quotient that is one too large. */
  lemma ThousandthTooLarge()
    ensures 15534100272597517999 / 1000 == 15534100272597517
    ensures DivideBy1000(15534100272597517999) == 15534100272597518
  {
    DivideBy1000Exact(15534100272597517999);
  }

  /** 2^16 / 10 + 1 or 2^16 / 100 + 1. */
  function Magic(power: nat): (m: nat)
    requires power == 1 || power == 2
    ensures m == if power == 1 then 6554 else 656
  {
    TWO16 / (if power == 1 then 10 else 100) + 1
  }

  lemma TenthOf(n: nat)
    requires n <= 100
    ensures n * 6554 % TWO32 / TWO16 == n / 10 && n * 6554 < TWO32
    ensures n * 6554 % TWO32 % TWO16 < 6554 <==> n % 10 == 0
  {
    var q, r := n / 10, n % 10;
    assert n * 6554 == q * TWO16 + (4 * q + 6554 * r);
  }

  lemma HundredthOf(n: nat)
    requires n <= 1000
    ensures n * 656 % TWO32 / TWO16 == n / 100 && n * 656 < TWO32
    ensures n * 656 % TWO32 % TWO16 < 656 <==> n % 100 == 0
  {
    var q, r := n / 100, n % 100;
    assert n * 656 == q * TWO16 + (64 * q + 656 * r);
  }

  /** Divides n by 10 or 100 in place with one multiplication, and tells whether it was divisible. */
  method CheckDivisibilityAndDivideByPow10(n: Uint32, power: nat) returns (quotient: Uint32, divisible: bool)
    requires power == 1 || power == 2
    requires n <= (if power == 1 then 100 else 1000)
    ensures quotient == n / (if power == 1 then 10 else 100)
    ensures divisible <==> n % (if power == 1 then 10 else 100) == 0
  {
    var magic := Magic(power);
    if power == 1 {
      TenthOf(n);
    } else {
      HundredthOf(n);
    }
    var product := n * magic % TWO32;
    divisible := product % TWO16 < magic;
    quotient := product / TWO16;
  }

  function SmallDivisionByPow10(n: Uint32, power: nat): (q: nat)
    requires power == 1 || power == 2
    requires n <= (if power == 1 then 100 else 1000)
    ensures q == n / (if power == 1 then 10 else 100)
  {
    if power == 1 then TenthOf(n); n * Magic(power) % TWO32 / TWO16
    else HundredthOf(n); n * Magic(power) % TWO32 / TWO16
  }

  // ---------------------------------------------------------------- wide products

  /** A 128-bit value as its high and low words. */
  datatype Uint128 = Uint128(high: nat, low: nat)

  ghost function Value(w: Uint128): nat { w.high * TWO64 + w.low }

  ghost predicate IsUint128(w: Uint128) { w.high < TWO64 && w.low < TWO64 }

  /** The 64 by 64 bit product from four 32-bit products, every word wrapping at 64 bits. */
  function Umul128(x: Uint64, y: Uint64): Uint128
  {
    var a, b, c, d := x / TWO32, x % TWO32, y / TWO32, y % TWO32;
    Words(a * c % TWO64, b * c % TWO64, a * d % TWO64, b * d % TWO64)
  }

  function Words(ac: nat, bc: nat, ad: nat, bd: nat): Uint128
  {
    var intermediate := (bd / TWO32 + ad % TWO32 + bc % TWO32) % TWO64;
    Uint128((ac + intermediate / TWO32 + ad / TWO32 + bc / TWO32) % TWO64,
            (intermediate * TWO32 + bd % TWO32) % TWO64)
  }

  lemma {:induction false} MulMonotone(a: nat, c: nat, b: nat)
    requires a <= c
    ensures a * b <= c * b
  {
    if b > 0 {
      MulMonotone(a, c, b - 1);
      assert a * b == a * (b - 1) + a && c * b == c * (b - 1) + c;
    }
  }

  lemma HalfProduct(a: nat, b: nat)
    requires a < TWO32 && b < TWO32
    ensures a * b <= (TWO32 - 1) * (TWO32 - 1)
  {
    MulMonotone(a, TWO32 - 1, b);
  }

  lemma SplitProduct(a: nat, b: nat, c: nat, d: nat)
    ensures (a * TWO32 + b) * (c * TWO32 + d) == a * c * TWO64 + (b * c + a * d) * TWO32 + b * d
  {
    var x := c * TWO32 + d;
    assert (a * TWO32 + b) * x == TWO32 * (a * x) + b * x;
    assert a * x == TWO32 * (a * c) + a * d;
    assert b * x == TWO32 * (b * c) + b * d;
  }

  /** No word overflows: the two words are the exact product. */
  lemma Umul128Exact(x: Uint64, y: Uint64)
    ensures IsUint128(Umul128(x, y)) && Value(Umul128(x, y)) == x * y
  {
    var a, b, c, d := x / TWO32, x % TWO32, y / TWO32, y % TWO32;
    HalfProduct(a, c);
    HalfProduct(b, c);
    HalfProduct(a, d);
    HalfProduct(b, d);
    SplitProduct(a, b, c, d);
    WordsExact(a * c, b * c, a * d, b * d);
  }

  lemma WordsExact(p: nat, q: nat, r: nat, s: nat)
    requires p <= (TWO32 - 1) * (TWO32 - 1) && q <= (TWO32 - 1) * (TWO32 - 1)
    requires r <= (TWO32 - 1) * (TWO32 - 1) && s <= (TWO32 - 1) * (TWO32 - 1)
    ensures p % TWO64 == p && q % TWO64 == q && r % TWO64 == r && s % TWO64 == s
    ensures IsUint128(Words(p, q, r, s))
    ensures Value(Words(p, q, r, s)) == p * TWO64 + (q + r) * TWO32 + s
  {
    var q1, q0, r1, r0, s1, s0 := q / TWO32, q % TWO32, r / TWO32, r % TWO32, s / TWO32, s % TWO32;
    UpperHalf(p);
    UpperHalf(q);
    UpperHalf(r);
    UpperHalf(s);
    var mid := s1 + r0 + q0;
    NoWrap(mid);
    LowWord(mid, s0);
    NoWrap(p + mid / TWO32 + r1 + q1);
    assert Words(p, q, r, s) == Uint128(p + mid / TWO32 + r1 + q1, mid % TWO32 * TWO32 + s0);
  }

  lemma UpperHalf(p: nat)
    requires p <= (TWO32 - 1) * (TWO32 - 1)
    ensures p / TWO32 <= TWO32 - 2 && p % TWO64 == p
  {
  }

  lemma NoWrap(v: nat)
    requires v < TWO64
    ensures v % TWO64 == v
  {
  }

  lemma LowWord(mid: nat, s0: nat)
    requires s0 < TWO32 && mid < TWO64
    ensures (mid * TWO32 + s0) % TWO64 == mid % TWO32 * TWO32 + s0
  {
    assert mid * TWO32 + s0 == mid / TWO32 * TWO64 + (mid % TWO32 * TWO32 + s0);
  }

  /** The 64 by 128 bit product, cut to its low 128 bits. */
  function Umul192Lower128(x: Uint64, y: Uint128): Uint128
    requires IsUint128(y)
  {
    var high := x * y.high % TWO64;
    var highLow := Umul128(x, y.low);
    Uint128((high + highLow.high) % TWO64, highLow.low)
  }

  lemma Umul192Lower128Exact(x: Uint64, y: Uint128)
    requires IsUint128(y)
    ensures IsUint128(Umul192Lower128(x, y))
    ensures Value(Umul192Lower128(x, y)) == x * Value(y) % TWO128
  {
    hide Umul128, Umul192Lower128, Value;
    Umul128Exact(x, y.low);
    var w, h := Umul128(x, y.low), x * y.high;
    DistributeWords(x, y);
    LowerWords(x, y);
    WordsOf(w);
    WordsOf(Umul192Lower128(x, y));
    LowWords(h, w.high, w.low);
  }

  lemma WordsOf(w: Uint128)
    ensures Value(w) == w.high * TWO64 + w.low
  {
  }

  lemma LowerWords(x: Uint64, y: Uint128)
    requires IsUint128(y)
    ensures var w := Umul128(x, y.low);
      Umul192Lower128(x, y) == Uint128((x * y.high % TWO64 + w.high) % TWO64, w.low)
  {
  }

  lemma DistributeWords(x: nat, y: Uint128)
    ensures x * Value(y) == x * y.high * TWO64 + x * y.low
  {
  }

  lemma LowWords(h: nat, high: nat, low: nat)
    requires high < TWO64 && low < TWO64
    ensures (h % TWO64 + high) % TWO64 * TWO64 + low == (h * TWO64 + (high * TWO64 + low)) % TWO128
  {
    var k := (h + high) / TWO64;
    assert (h % TWO64 + high) % TWO64 == h + high - k * TWO64;
    assert h * TWO64 + (high * TWO64 + low) == k * TWO128 + ((h + high - k * TWO64) * TWO64 + low);
  }

  // ---------------------------------------------------------------- trailing zeros

  function Rotr32(n: Uint32, r: nat): (q: Uint32)
    requires r == 1 || r == 2
  {
    var k := if r == 1 then 2 else 4;
    n / k + n % k * (TWO32 / k)
  }

  function Rotr64(n: Uint64, r: nat): (q: Uint64)
    requires r == 1 || r == 2
  {
    var k := if r == 1 then 2 else 4;
    n / k + n % k * (TWO64 / k)
  }

  /** Multiplying by the inverse of 25 and back: 25 x is n up to multiples of the word size. */
  lemma Times25In32(n: Uint32) returns (t: int)
    ensures 25 * (n * 0xc28f5c29 % TWO32) == n + t * TWO32
    ensures n % 25 == 0 ==> t % 25 == 0
  {
    var k := n * 0xc28f5c29 / TWO32;
    t := 19 * n - 25 * k;
    assert n * 0xc28f5c29 % TWO32 == n * 0xc28f5c29 - k * TWO32;
  }

  lemma Times5In32(n: Uint32) returns (t: int)
    ensures 5 * (n * 0xcccccccd % TWO32) == n + t * TWO32
    ensures n % 5 == 0 ==> t % 5 == 0
  {
    var k := n * 0xcccccccd / TWO32;
    t := 4 * n - 5 * k;
    assert n * 0xcccccccd % TWO32 == n * 0xcccccccd - k * TWO32;
  }

  lemma Times25In64(n: Uint64) returns (t: int)
    ensures 25 * (n * 0x8f5c28f5c28f5c29 % TWO64) == n + t * TWO64
    ensures n % 25 == 0 ==> t % 25 == 0
  {
    var k := n * 0x8f5c28f5c28f5c29 / TWO64;
    t := 14 * n - 25 * k;
    assert n * 0x8f5c28f5c28f5c29 % TWO64 == n * 0x8f5c28f5c28f5c29 - k * TWO64;
  }

  lemma Times5In64(n: Uint64) returns (t: int)
    ensures 5 * (n * 0xcccccccccccccccd % TWO64) == n + t * TWO64
    ensures n % 5 == 0 ==> t % 5 == 0
  {
    var k := n * 0xcccccccccccccccd / TWO64;
    t := 4 * n - 5 * k;
    assert n * 0xcccccccccccccccd % TWO64 == n * 0xcccccccccccccccd - k * TWO64;
  }

  /** The rotated product with the inverse of 25 is small exactly on multiples of 100, and then it
      is the quotient. */
  lemma Test100In32(n: Uint32)
    ensures var q := Rotr32(n * 0xc28f5c29 % TWO32, 2);
      && (q <= (TWO32 - 1) / 100 <==> n % 100 == 0)
      && (n % 100 == 0 ==> q == n / 100)
  {
    var t := Times25In32(n);
    RotatedTest100In32(n, n * 0xc28f5c29 % TWO32, t);
  }

  lemma RotatedTest100In32(n: Uint32, x: Uint32, t: int)
    requires 25 * x == n + t * TWO32 && (n % 25 == 0 ==> t % 25 == 0)
    ensures Rotr32(x, 2) <= (TWO32 - 1) / 100 <==> n % 100 == 0
    ensures n % 100 == 0 ==> Rotr32(x, 2) == n / 100
  {
  }

  lemma Test10In32(n: Uint32)
    ensures var q := Rotr32(n * 0xcccccccd % TWO32, 1);
      && (q <= (TWO32 - 1) / 10 <==> n % 10 == 0)
      && (n % 10 == 0 ==> q == n / 10)
  {
    var t := Times5In32(n);
    RotatedTest10In32(n, n * 0xcccccccd % TWO32, t);
  }

  lemma RotatedTest10In32(n: Uint32, x: Uint32, t: int)
    requires 5 * x == n + t * TWO32 && (n % 5 == 0 ==> t % 5 == 0)
    ensures Rotr32(x, 1) <= (TWO32 - 1) / 10 <==> n % 10 == 0
    ensures n % 10 == 0 ==> Rotr32(x, 1) == n / 10
  {
  }

  lemma Test100In64(n: Uint64)
    ensures var q := Rotr64(n * 0x8f5c28f5c28f5c29 % TWO64, 2);
      && (q <= (TWO64 - 1) / 100 <==> n % 100 == 0)
      && (n % 100 == 0 ==> q == n / 100)
  {
    var t := Times25In64(n);
    RotatedTest100In64(n, n * 0x8f5c28f5c28f5c29 % TWO64, t);
  }

  lemma RotatedTest100In64(n: Uint64, x: Uint64, t: int)
    requires 25 * x == n + t * TWO64 && (n % 25 == 0 ==> t % 25 == 0)
    ensures Rotr64(x, 2) <= (TWO64 - 1) / 100 <==> n % 100 == 0
    ensures n % 100 == 0 ==> Rotr64(x, 2) == n / 100
  {
    hide Rotr64;
    if n % 25 == 0 {
      ExactQuotient(n, x, t);
      RotatedQuotient(n);
    } else {
      Wrapped(n, x, t);
      RotatedTooLarge(x);
    }
  }

  lemma RotatedQuotient(n: Uint64)
    requires n % 25 == 0
    ensures Rotr64(n / 25, 2) <= (TWO64 - 1) / 100 <==> n % 100 == 0
    ensures n % 100 == 0 ==> Rotr64(n / 25, 2) == n / 100
  {
    Hundredths(n);
    RotatedUp(n / 25);
    hide Rotr64;
  }

  lemma RotatedTooLarge(x: Uint64)
    requires 25 * x > TWO64
    ensures Rotr64(x, 2) > (TWO64 - 1) / 100
  {
    RotatedUp(x);
    hide Rotr64;
    TooLarge(x);
  }

  lemma ExactQuotient(n: Uint64, x: Uint64, t: int)
    requires 25 * x == n + t * TWO64 && n % 25 == 0 && t % 25 == 0
    ensures x == n / 25
  {
    var a, b := n / 25, t / 25;
    assert n == 25 * a && t == 25 * b;
    assert x == a + b * TWO64;
  }

  lemma Hundredths(n: Uint64)
    requires n % 25 == 0
    ensures n / 25 % 4 == 0 <==> n % 100 == 0
    ensures n / 25 / 4 == n / 100 <= (TWO64 - 1) / 100
  {
    var q, r := n / 100, n % 100;
    assert n == 100 * q + r;
  }

  lemma Wrapped(n: Uint64, x: Uint64, t: int)
    requires 25 * x == n + t * TWO64 && n % 25 != 0
    ensures 25 * x > TWO64 && n % 100 != 0
  {
    NotAHundred(n);
    assert t != 0;
  }

  lemma NotAHundred(n: nat)
    ensures n % 100 == 0 ==> n % 25 == 0
  {
    assert n % 100 == 0 ==> n == 25 * (4 * (n / 100));
  }

  lemma TooLarge(x: Uint64)
    requires 25 * x > TWO64
    ensures x % 4 == 0 ==> x / 4 > (TWO64 - 1) / 100
  {
  }

  /** Rotating by two keeps small only what ends in two zero bits. */
  lemma RotatedUp(x: Uint64)
    ensures x % 4 == 0 ==> Rotr64(x, 2) == x / 4
    ensures x % 4 != 0 ==> Rotr64(x, 2) > (TWO64 - 1) / 100
  {
  }

  lemma Test10In64(n: Uint64)
    ensures var q := Rotr64(n * 0xcccccccccccccccd % TWO64, 1);
      && (q <= (TWO64 - 1) / 10 <==> n % 10 == 0)
      && (n % 10 == 0 ==> q == n / 10)
  {
    var t := Times5In64(n);
    RotatedTest10In64(n, n * 0xcccccccccccccccd % TWO64, t);
  }

  lemma RotatedTest10In64(n: Uint64, x: Uint64, t: int)
    requires 5 * x == n + t * TWO64 && (n % 5 == 0 ==> t % 5 == 0)
    ensures Rotr64(x, 1) <= (TWO64 - 1) / 10 <==> n % 10 == 0
    ensures n % 10 == 0 ==> Rotr64(x, 1) == n / 10
  {
  }

  /** How many trailing zeros the decimal form of n has. */
  function TrailingZeros(n: nat): nat
    requires n > 0
  {
    if n % 10 != 0 then 0 else 1 + TrailingZeros(n / 10)
  }

  /** s | 1. */
  function OrOne(s: nat): nat { if s % 2 == 0 then s + 1 else s }

  /** One test of the loop: a quotient by 100 that is small exactly on multiples. */
  method Hundredth32(n: Uint32) returns (q: Uint32, divisible: bool)
    ensures divisible <==> n % 100 == 0
    ensures divisible ==> q == n / 100
  {
    Test100In32(n);
    q := Rotr32(n * 0xc28f5c29 % TWO32, 2);
    divisible := q <= (TWO32 - 1) / 100;
  }

  method Tenth32(n: Uint32) returns (q: Uint32, divisible: bool)
    ensures divisible <==> n % 10 == 0
    ensures divisible ==> q == n / 10
  {
    Test10In32(n);
    q := Rotr32(n * 0xcccccccd % TWO32, 1);
    divisible := q <= (TWO32 - 1) / 10;
  }

  method Hundredth64(n: Uint64) returns (q: Uint64, divisible: bool)
    ensures divisible <==> n % 100 == 0
    ensures divisible ==> q == n / 100
  {
    Test100In64(n);
    q := Rotr64(n * 0x8f5c28f5c28f5c29 % TWO64, 2);
    divisible := q <= (TWO64 - 1) / 100;
  }

  method Tenth64(n: Uint64) returns (q: Uint64, divisible: bool)
    ensures divisible <==> n % 10 == 0
    ensures divisible ==> q == n / 10
  {
    Test10In64(n);
    q := Rotr64(n * 0xcccccccccccccccd % TWO64, 1);
    divisible := q <= (TWO64 - 1) / 10;
  }

  lemma TwoZeros(n: nat)
    requires n > 0 && n % 100 == 0
    ensures TrailingZeros(n) == 2 + TrailingZeros(n / 100)
  {
    assert n / 10 / 10 == n / 100 && n / 10 % 10 == 0;
  }

  /** n is n0 without its last e digits, which are zeros. */
  ghost predicate Stripped(n0: nat, n: nat, e: nat)
    decreases e
  {
    if e == 0 then n0 == n else n0 % 10 == 0 && Stripped(n0 / 10, n, e - 1)
  }

  lemma {:induction false} StripOne(n0: nat, n: nat, e: nat)
    requires Stripped(n0, n, e) && n % 10 == 0
    ensures Stripped(n0, n / 10, e + 1)
    decreases e
  {
    if e > 0 {
      StripOne(n0 / 10, n, e - 1);
    }
  }

  lemma StripTwo(n0: nat, n: nat, e: nat)
    requires Stripped(n0, n, e) && n % 100 == 0
    ensures Stripped(n0, n / 100, e + 2)
  {
    assert n / 10 / 10 == n / 100 && n / 10 % 10 == 0;
    StripOne(n0, n, e);
    StripOne(n0, n / 10, e + 1);
  }

  lemma LastZero(n: nat)
    requires n % 10 == 0 && n % 100 != 0
    ensures n / 10 % 10 != 0
  {
  }

  /** Without zeros left, as many are gone as there were. */
  lemma {:induction false} StripEnd(n0: nat, n: nat, e: nat)
    requires Stripped(n0, n, e) && n % 10 != 0
    ensures n0 > 0 && e == TrailingZeros(n0) && n * Pow10(e) == n0
    decreases e
  {
    if e > 0 {
      StripEnd(n0 / 10, n, e - 1);
      assert n * (10 * Pow10(e - 1)) == 10 * (n * Pow10(e - 1));
    }
  }

  lemma SameParity(s: nat, even: nat)
    requires even % 2 == 0
    ensures (s + even) % 2 == s % 2 && (even + 1) % 2 == 1
    ensures OrOne(s + even) == if s % 2 == 0 then s + even + 1 else s + even
  {
  }

  /** Strips the trailing decimal zeros of n and adds their number to s, which is even at both of
      its callers. */
  method RemoveTrailingZeros32(n0: Uint32, s0: nat) returns (n: Uint32, s: nat)
    requires n0 != 0
    ensures n % 10 != 0 && n * Pow10(TrailingZeros(n0)) == n0
    ensures s0 % 2 == 0 || TrailingZeros(n0) % 2 == 0 ==> s == s0 + TrailingZeros(n0)
    ensures s0 % 2 == 1 && TrailingZeros(n0) % 2 == 1 ==> s == s0 + TrailingZeros(n0) - 1
  {
    n, s := n0, s0;
    ghost var removed := 0;
    var q, divisible := Hundredth32(n);
    while divisible
      invariant n > 0 && Stripped(n0, n, removed) && s == s0 + removed && removed % 2 == 0
      invariant (divisible <==> n % 100 == 0) && (divisible ==> q == n / 100)
      decreases n
    {
      StripTwo(n0, n, removed);
      n := q;
      s := s + 2;
      removed := removed + 2;
      q, divisible := Hundredth32(n);
    }
    q, divisible := Tenth32(n);
    SameParity(s0, removed);
    if divisible {
      LastZero(n);
      StripOne(n0, n, removed);
      n := q;
      s := OrOne(s);
      removed := removed + 1;
    }
    StripEnd(n0, n, removed);
  }

  /** The 64-bit form hands multiples of 10^8 to the 32-bit one after a cast to 32 bits. Its assert
      excludes a quotient that the cast turns into 0; apart from that, the decimal value is kept
      exactly when the cast loses nothing. */
  method RemoveTrailingZeros64(n0: Uint64) returns (n: Uint64, s: nat)
    requires n0 != 0
    requires n0 % 100000000 == 0 ==> n0 / 100000000 % TWO32 != 0
    ensures n % 10 != 0
    ensures n * Pow10(s) == n0 <==> n0 % 100000000 != 0 || n0 / 100000000 < TWO32
    ensures n0 % 100000000 != 0 || n0 / 100000000 < TWO32 ==> s == TrailingZeros(n0)
    ensures n0 % 100000000 == 0 ==> s >= 8 && n * Pow10(s - 8) == n0 / 100000000 % TWO32
  {
    if n0 % 100000000 == 0 {
      var m: Uint32 := n0 / 100000000 % TWO32;
      n, s := RemoveTrailingZeros32(m, 8);
      StripEight(n0, m, n);
      return;
    }
    n, s := n0, 0;
    var q, divisible := Hundredth64(n);
    while divisible
      invariant n > 0 && Stripped(n0, n, s) && s % 2 == 0
      invariant (divisible <==> n % 100 == 0) && (divisible ==> q == n / 100)
      decreases n
    {
      StripTwo(n0, n, s);
      n := q;
      s := s + 2;
      q, divisible := Hundredth64(n);
    }
    q, divisible := Tenth64(n);
    if divisible {
      LastZero(n);
      StripOne(n0, n, s);
      n := q;
      s := OrOne(s);
    }
    StripEnd(n0, n, s);
  }

  /** A quotient by 10^8 of 2^32 + 1 is cast to 1: the value is lost. */
  method LostInCast() returns (n: Uint64, s: nat)
    ensures n == 1 && s == 8 && n * Pow10(s) != 429496729700000000
  {
    n, s := RemoveTrailingZeros64(429496729700000000);
    OnlyOne(n, s - 8);
  }

  lemma TenFold(n: nat, k: nat)
    ensures k > 0 ==> n * Pow10(k) == 10 * (n * Pow10(k - 1))
  {
  }

  lemma OnlyOne(n: nat, k: nat)
    requires n * Pow10(k) == 1
    ensures n == 1 && k == 0
  {
    TenFold(n, k);
  }

  lemma StripEight(n0: nat, m: nat, n32: nat)
    requires n0 > 0 && n0 % 100000000 == 0 && m == n0 / 100000000 % TWO32 && m > 0
    requires n32 * Pow10(TrailingZeros(m)) == m
    ensures n32 * Pow10(8 + TrailingZeros(m)) == n0 <==> n0 / 100000000 < TWO32
    ensures n0 / 100000000 < TWO32 ==> TrailingZeros(n0) == 8 + TrailingZeros(m)
  {
    PowEight(TrailingZeros(m));
    Regroup(n32, Pow10(TrailingZeros(m)), m);
    CastLoss(n0, m);
    var k := n0 / 100000000;
    EightZeros(k);
    assert n0 == 100000000 * k;
  }

  lemma Regroup(a: nat, p: nat, m: nat)
    requires a * p == m
    ensures a * (100000000 * p) == 100000000 * m
  {
  }

  lemma CastLoss(n0: nat, m: nat)
    requires n0 % 100000000 == 0 && m == n0 / 100000000 % TWO32
    ensures 100000000 * m == n0 <==> n0 / 100000000 < TWO32
  {
  }

  lemma EightZeros(k: nat)
    requires k > 0
    ensures TrailingZeros(100000000 * k) == 8 + TrailingZeros(k)
  {
    TwoMoreZeros(k);
    TwoMoreZeros(100 * k);
    TwoMoreZeros(10000 * k);
    TwoMoreZeros(1000000 * k);
  }

  lemma TwoMoreZeros(k: nat)
    requires k > 0
    ensures TrailingZeros(100 * k) == 2 + TrailingZeros(k)
  {
    TwoZeros(100 * k);
  }

  lemma PowEight(e: nat)
    ensures Pow10(8 + e) == 100000000 * Pow10(e)
  {
    assert Pow10(8 + e) == 10000 * Pow10(4 + e) by {
      assert Pow10(8 + e) == 100 * Pow10(6 + e) && Pow10(6 + e) == 100 * Pow10(4 + e);
    }
    assert Pow10(4 + e) == 100 * Pow10(2 + e) && Pow10(2 + e) == 100 * Pow10(e);
  }
}
