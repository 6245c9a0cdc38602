/**
 * Two decimal digits at a time without a division (deps/fmt/format.h, digits2_i and the 32-bit branch of
 * do_format_decimal): one multiplication gives the quotient by 100 and, in seven bits after the binary point, an index
 * into a table that holds the two digits of the remainder.
 */
module DigitPairs {
  const TWO25: nat := 0x200_0000
  const TWO32: nat := 0x1_0000_0000
  const TWO39: nat := 0x80_0000_0000
  const TWO64: nat := 0x1_0000_0000_0000_0000

  /** floor(2^39 / 100) + 1. */
  const MAGIC: nat := 5497558139

  const BLANK: nat := 100

  /** digits2_i: 128 pairs of digits, sixteen to a row, each as the number it spells. Some remainders appear twice,
      because the error of the multiplication can carry into the seven bits; blanks are never looked at. */
  function Row(k: nat): seq<nat>
    requires k < 8
  {
    if k == 0 then [0, 1, 2, 3, BLANK, 4, 5, 6, 7, 7, 8, 9, 10, BLANK, 11, 12]
    else if k == 1 then [13, 14, 14, 15, 16, 17, BLANK, 18, 19, 20, 21, BLANK, 22, 23, 24, BLANK]
    else if k == 2 then [25, 26, 27, 28, BLANK, 29, 30, 31, 32, 32, 33, 34, 35, BLANK, 36, 37]
    else if k == 3 then [38, 39, 39, 40, 41, 42, BLANK, 43, 44, 45, 46, BLANK, 47, 48, 49, BLANK]
    else if k == 4 then [50, 51, 52, 53, BLANK, 54, 55, 56, 57, 57, 58, 59, 60, BLANK, 61, 62]
    else if k == 5 then [63, 64, 64, 65, 66, 67, BLANK, 68, 69, 70, 71, BLANK, 72, 73, 74, BLANK]
    else if k == 6 then [75, 76, 77, 78, BLANK, 79, 80, 81, 82, 82, 83, 84, 85, BLANK, 86, 87]
    else [88, 89, 89, 90, 91, 92, BLANK, 93, 94, 95, 96, BLANK, 97, 98, 99, BLANK]
  }

  function PairAt(x: nat): nat {
    if x < 128 then Row(x / 16)[x % 16] else BLANK
  }

  /** The product as a 64-bit word: it overflows for the largest values. */
  function Product(v: nat): nat {
    v * MAGIC % TWO64
  }

  function PairIndex(v: nat): (x: nat)
    ensures x < 128
  {
    Product(v) / TWO32 % 128
  }

  /** The quotient, with what the overflow lost put back. */
  function Hundreds(v: nat): nat {
    Product(v) / TWO39 + (if v >= 100 * TWO25 then TWO25 else 0)
  }

  /** The word holds the quotient modulo 2^25 above bit 39, and below it the remainder, a little too large. */
  lemma ProductParts(v: nat, q: nat, r: nat, s: nat)
    requires v < TWO32 && v == 100 * q + r && r < 100 && 100 * s == r * TWO39 + 12 * v
    ensures s < TWO39
    ensures Product(v) == (if q >= TWO25 then q - TWO25 else q) * TWO39 + s
  {
    assert v * MAGIC == q * TWO39 + s;
    assert q < 2 * TWO25;
    if q >= TWO25 {
      assert v * MAGIC == TWO64 + (q - TWO25) * TWO39 + s;
    }
  }

  lemma Remainders(v: nat) returns (s: nat)
    requires v < TWO32
    ensures 100 * s == v % 100 * TWO39 + 12 * v
  {
    s := v * MAGIC - v / 100 * TWO39;
    assert 100 * MAGIC == TWO39 + 12;
    assert v == 100 * (v / 100) + v % 100;
    assert 100 * (v * MAGIC) == v * TWO39 + 12 * v;
  }

  /** The multiplication divides exactly, for every 32-bit value. */
  lemma HundredsExact(v: nat)
    requires v < TWO32
    ensures Hundreds(v) == v / 100
  {
    var s := Remainders(v);
    ProductParts(v, v / 100, v % 100, s);
  }

  lemma IndexBounds(s: nat, r: nat, v: nat)
    requires v < TWO32 && s < TWO39 && 100 * s == r * TWO39 + 12 * v
    ensures r * 128 / 100 <= s / TWO32 <= (r * 128 + 11) / 100
    ensures s / TWO32 < 128
  {
    var y := s / TWO32;
    assert 100 * y * TWO32 <= 100 * s < (r * 128 + 12) * TWO32;
    assert 100 * (y + 1) * TWO32 > 100 * s >= r * 128 * TWO32;
  }

  lemma LowSeven(top: nat, s: nat)
    requires s < TWO39
    ensures (top * TWO39 + s) / TWO32 % 128 == s / TWO32
  {
    assert (top * TWO39 + s) / TWO32 == top * 128 + s / TWO32;
  }

  /** The index is off by less than 12 hundredths. */
  lemma PairIndexClose(v: nat)
    requires v < TWO32
    ensures v % 100 * 128 / 100 <= PairIndex(v) <= (v % 100 * 128 + 11) / 100
  {
    var s := Remainders(v);
    ProductParts(v, v / 100, v % 100, s);
    IndexBounds(s, v % 100, v);
    LowSeven(if v / 100 >= TWO25 then v / 100 - TWO25 else v / 100, s);
  }

  /** What stands at place x: the only remainder that can lead there, if one can. */
  function Entry(x: nat): nat {
    var r := (100 * x + 99) / 128;
    if 128 * r + 11 >= 100 * x then r else BLANK
  }

  lemma Row0(x: nat)
    requires x < 16
    ensures Row(0)[x] == Entry(0 + x)
  {
  }

  lemma Row1(x: nat)
    requires x < 16
    ensures Row(1)[x] == Entry(16 + x)
  {
  }

  lemma Row2(x: nat)
    requires x < 16
    ensures Row(2)[x] == Entry(32 + x)
  {
  }

  lemma Row3(x: nat)
    requires x < 16
    ensures Row(3)[x] == Entry(48 + x)
  {
  }

  lemma Row4(x: nat)
    requires x < 16
    ensures Row(4)[x] == Entry(64 + x)
  {
  }

  lemma Row5(x: nat)
    requires x < 16
    ensures Row(5)[x] == Entry(80 + x)
  {
  }

  lemma Row6(x: nat)
    requires x < 16
    ensures Row(6)[x] == Entry(96 + x)
  {
  }

  lemma Row7(x: nat)
    requires x < 16
    ensures Row(7)[x] == Entry(112 + x)
  {
  }

  lemma PairAtEntry(x: nat)
    requires x < 128
    ensures PairAt(x) == Entry(x)
  {
    var k, y := x / 16, x % 16;
    match k {
      case 0 => Row0(y);
      case 1 => Row1(y);
      case 2 => Row2(y);
      case 3 => Row3(y);
      case 4 => Row4(y);
      case 5 => Row5(y);
      case 6 => Row6(y);
      case _ => Row7(y);
    }
  }

  lemma EntryAt(r: nat, x: nat)
    requires r < 100 && r * 128 / 100 <= x <= (r * 128 + 11) / 100
    ensures Entry(x) == r
  {
  }

  /** Main result. One multiplication gives the quotient by 100 and the two digits of the remainder. */
  lemma TwoDigitsExact(v: nat)
    requires v < TWO32
    ensures Hundreds(v) == v / 100 && PairAt(PairIndex(v)) == v % 100
  {
    HundredsExact(v);
    PairIndexClose(v);
    PairAtEntry(PairIndex(v));
    EntryAt(v % 100, PairIndex(v));
  }

  /** One turn of the loop: the two last digits and what is left, for a 32-bit or a wider value. */
  method Split(v: nat, narrow: bool) returns (pair: nat, rest: nat)
    requires narrow ==> v < TWO32
    ensures pair == v % 100 && rest == v / 100
  {
    if narrow {
      TwoDigitsExact(v);
      pair, rest := PairAt(PairIndex(v)), Hundreds(v);
    } else {
      pair, rest := v % 100, v / 100;
    }
  }
}
