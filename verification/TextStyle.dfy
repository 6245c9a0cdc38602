/** fmt's packed text styles: combining two of them with one 64-bit addition as the conflict test. */
module TextStyle {

  // ---------------------------------------------------------------- styles as values

  datatype Color = Unset | Rgb(rgb: bv64) | Terminal(code: bv64)

  datatype Style = Style(foreground: Color, background: Color, emphasis: bv64)

  /** 24 bits of color value, of which a terminal color uses 8. */
  predicate IsColor(c: Color)
  {
    match c
    case Unset => true
    case Rgb(v) => Fits24(v)
    case Terminal(v) => Fits8(v)
  }

  predicate Fits24(v: bv64) { v & 0xFFFF_FFFF_FF00_0000 == 0 }

  predicate Fits26(v: bv64) { v & 0xFFFF_FFFF_FC00_0000 == 0 }

  predicate Fits8(v: bv64) { v & 0xFFFF_FFFF_FFFF_FF00 == 0 }

  predicate IsStyle(s: Style)
  {
    IsColor(s.foreground) && IsColor(s.background) && Fits8(s.emphasis)
  }

  /** One side names a terminal color and the other names any color. */
  predicate Conflict(a: Color, b: Color)
  {
    (a.Terminal? && !b.Unset?) || (b.Terminal? && !a.Unset?)
  }

  function Mix(a: Color, b: Color): Color
  {
    if a.Unset? then b else if b.Unset? then a
    else if a.Rgb? && b.Rgb? then Rgb(a.rgb | b.rgb) else a
  }

  /** What combining two styles should mean. */
  function Combine(a: Style, b: Style): Style
  {
    Style(Mix(a.foreground, b.foreground), Mix(a.background, b.background), a.emphasis | b.emphasis)
  }

  // ---------------------------------------------------------------- styles as packed words

  function PackRgb(v: bv64): bv64 { v | 0x100_0000 }

  function PackTerminal(v: bv64): bv64 { v | 0x300_0000 }

  function PackColor(c: Color): bv64
  {
    match c
    case Unset => 0
    case Rgb(v) => PackRgb(v)
    case Terminal(v) => PackTerminal(v)
  }

  function Pack(s: Style): bv64
  {
    Layout(PackColor(s.foreground), PackColor(s.background), s.emphasis)
  }

  function Layout(foreground: bv64, background: bv64, emphasis: bv64): bv64
  {
    foreground | (background << 27) | (emphasis << 54)
  }

  /** Bits 26 and 53. */
  const OVERFLOW: bv64 := 0x20_0000_0400_0000

  function Foreground(w: bv64): bv64 { w & 0x3FF_FFFF }

  function Background(w: bv64): bv64 { (w >> 27) & 0x3FF_FFFF }

  /** Bits 24 and 25 of a packed color: unset, RGB or terminal. */
  function Discriminator(c: bv64): bv64 { c & 0x300_0000 }

  predicate Discriminated(c: bv64)
  {
    var d := Discriminator(c);
    (d == 0 && c == 0) || d == 0x100_0000 || (d == 0x300_0000 && c & 0xFF_FF00 == 0)
  }

  /** The overflow, unused and impossible bits are zero, and an unset color has no value. */
  predicate WellFormed(w: bv64)
  {
    && w & OVERFLOW == 0 && w & 0xC000_0000_0000_0000 == 0
    && Discriminated(Foreground(w)) && Discriminated(Background(w))
  }

  datatype Result = Ok(word: bv64) | CannotOr

  function Or(lhs: bv64, rhs: bv64): Result
  {
    if (lhs + rhs) & OVERFLOW != 0 then CannotOr else Ok(lhs | rhs)
  }

  /** On packed colors: a terminal discriminator on one side, any set one on the other. */
  predicate ColorsConflict(a: bv64, b: bv64)
  {
    (Discriminator(a) == 0x300_0000 && Discriminator(b) != 0) ||
    (Discriminator(b) == 0x300_0000 && Discriminator(a) != 0)
  }

  /** The carries of one addition tell all conflicts. */
  lemma AdditionTest(w: bv64, v: bv64)
    requires WellFormed(w) && WellFormed(v)
    ensures (w + v) & OVERFLOW != 0 <==>
      ColorsConflict(Foreground(w), Foreground(v)) || ColorsConflict(Background(w), Background(v))
  {
  }

  lemma OrWellFormed(w: bv64, v: bv64)
    requires WellFormed(w) && WellFormed(v)
    requires !ColorsConflict(Foreground(w), Foreground(v)) && !ColorsConflict(Background(w), Background(v))
    ensures WellFormed(w | v)
  {
  }

  /** operator|=. */
  method OrAssign(lhs: bv64, rhs: bv64) returns (r: Result)
    requires WellFormed(lhs) && WellFormed(rhs)
    ensures r == Or(lhs, rhs)
    ensures r.Ok? ==> WellFormed(r.word) && r.word == lhs | rhs
    ensures r.CannotOr? <==>
      ColorsConflict(Foreground(lhs), Foreground(rhs)) || ColorsConflict(Background(lhs), Background(rhs))
  {
    AdditionTest(lhs, rhs);
    if (lhs + rhs) & OVERFLOW != 0 {
      r := CannotOr;
    } else {
      OrWellFormed(lhs, rhs);
      r := Ok(lhs | rhs);
    }
  }

  // ---------------------------------------------------------------- packing loses nothing

  lemma RgbFields(v: bv64)
    requires Fits24(v)
    ensures Fits26(PackRgb(v)) && Discriminator(PackRgb(v)) == 0x100_0000 && PackRgb(v) & 0xFF_FFFF == v
  {
  }

  lemma TerminalFields(v: bv64)
    requires Fits8(v)
    ensures Fits26(PackTerminal(v)) && Discriminator(PackTerminal(v)) == 0x300_0000
    ensures PackTerminal(v) & 0xFF_FFFF == v && PackTerminal(v) & 0xFF_FF00 == 0
  {
  }

  /** The discriminator of a packed color. */
  function Kind(c: Color): bv64
  {
    if c.Unset? then 0 else if c.Rgb? then 0x100_0000 else 0x300_0000
  }

  lemma PackColorFields(c: Color)
    requires IsColor(c)
    ensures Discriminated(PackColor(c)) && Fits26(PackColor(c))
    ensures Discriminator(PackColor(c)) == Kind(c)
    ensures c.Rgb? ==> PackColor(c) & 0xFF_FFFF == c.rgb
    ensures c.Terminal? ==> PackColor(c) & 0xFF_FFFF == c.code
  {
    match c
    case Unset =>
    case Rgb(v) => RgbFields(v);
    case Terminal(v) => TerminalFields(v);
  }

  /** The three fields of a word do not disturb each other. */
  lemma Fields(f: bv64, b: bv64, e: bv64)
    requires Fits26(f) && Fits26(b) && Fits8(e)
    ensures var w := Layout(f, b, e);
      && Foreground(w) == f && Background(w) == b && w >> 54 == e
      && w & OVERFLOW == 0 && w & 0xC000_0000_0000_0000 == 0
  {
  }

  lemma PackFields(s: Style)
    requires IsStyle(s)
    ensures WellFormed(Pack(s))
    ensures Foreground(Pack(s)) == PackColor(s.foreground)
    ensures Background(Pack(s)) == PackColor(s.background)
    ensures Pack(s) >> 54 == s.emphasis
  {
    PackColorFields(s.foreground);
    PackColorFields(s.background);
    Fields(PackColor(s.foreground), PackColor(s.background), s.emphasis);
  }

  // ---------------------------------------------------------------- combining two styles

  lemma ConflictPacked(a: Color, b: Color)
    requires IsColor(a) && IsColor(b)
    ensures Conflict(a, b) <==> ColorsConflict(PackColor(a), PackColor(b))
  {
    PackColorFields(a);
    PackColorFields(b);
  }

  lemma OrZero(x: bv64)
    ensures x | 0 == x && 0 | x == x
  {
  }

  lemma MixRgb(x: bv64, y: bv64)
    requires Fits24(x) && Fits24(y)
    ensures Fits24(x | y) && PackRgb(x | y) == PackRgb(x) | PackRgb(y)
  {
  }

  lemma MixLeft(a: Color, b: Color)
    requires IsColor(b) && a.Unset?
    ensures IsColor(Mix(a, b)) && PackColor(Mix(a, b)) == PackColor(a) | PackColor(b)
  {
    OrZero(PackColor(b));
  }

  lemma MixRight(a: Color, b: Color)
    requires IsColor(a) && b.Unset?
    ensures IsColor(Mix(a, b)) && PackColor(Mix(a, b)) == PackColor(a) | PackColor(b)
  {
    OrZero(PackColor(a));
  }

  lemma MixBothColor(a: Color, b: Color)
    requires IsColor(a) && IsColor(b) && a.Rgb? && b.Rgb?
    ensures IsColor(Mix(a, b))
  {
    MixRgb(a.rgb, b.rgb);
  }

  lemma MixBoth(a: Color, b: Color)
    requires IsColor(a) && IsColor(b) && a.Rgb? && b.Rgb?
    ensures PackColor(Mix(a, b)) == PackColor(a) | PackColor(b)
  {
    MixRgb(a.rgb, b.rgb);
  }

  lemma MixPacked(a: Color, b: Color)
    requires IsColor(a) && IsColor(b) && !Conflict(a, b)
    ensures IsColor(Mix(a, b)) && PackColor(Mix(a, b)) == PackColor(a) | PackColor(b)
  {
    if a.Unset? {
      MixLeft(a, b);
    } else if b.Unset? {
      MixRight(a, b);
    } else {
      MixBothColor(a, b);
      MixBoth(a, b);
    }
  }

  lemma OrLayout(f: bv64, b: bv64, e: bv64, f': bv64, b': bv64, e': bv64)
    ensures Layout(f, b, e) | Layout(f', b', e') == Layout(f | f', b | b', e | e')
  {
  }

  lemma OrEmphasis(e: bv64, e': bv64)
    requires Fits8(e) && Fits8(e')
    ensures Fits8(e | e')
  {
  }

  /** The test on two words, given their color fields. */
  lemma WordTest(w: bv64, v: bv64, f: bv64, b: bv64, f': bv64, b': bv64)
    requires WellFormed(w) && WellFormed(v)
    requires Foreground(w) == f && Background(w) == b && Foreground(v) == f' && Background(v) == b'
    ensures Or(w, v) == if ColorsConflict(f, f') || ColorsConflict(b, b') then CannotOr else Ok(w | v)
  {
    AdditionTest(w, v);
  }

  lemma PackedTest(a: Style, b: Style)
    requires IsStyle(a) && IsStyle(b)
    ensures Or(Pack(a), Pack(b)) ==
      if ColorsConflict(PackColor(a.foreground), PackColor(b.foreground)) ||
         ColorsConflict(PackColor(a.background), PackColor(b.background))
      then CannotOr else Ok(Pack(a) | Pack(b))
  {
    PackFields(a);
    PackFields(b);
    WordTest(Pack(a), Pack(b), PackColor(a.foreground), PackColor(a.background),
             PackColor(b.foreground), PackColor(b.background));
  }

  lemma PackedConflicts(a: Style, b: Style)
    requires IsStyle(a) && IsStyle(b)
    ensures Or(Pack(a), Pack(b)) ==
      if Conflict(a.foreground, b.foreground) || Conflict(a.background, b.background) then CannotOr
      else Ok(Pack(a) | Pack(b))
  {
    ConflictPacked(a.foreground, b.foreground);
    ConflictPacked(a.background, b.background);
    PackedTest(a, b);
  }

  lemma CombinedWord(a: Style, b: Style)
    requires IsStyle(a) && IsStyle(b)
    requires !Conflict(a.foreground, b.foreground) && !Conflict(a.background, b.background)
    ensures IsStyle(Combine(a, b)) && Pack(a) | Pack(b) == Pack(Combine(a, b))
  {
    MixPacked(a.foreground, b.foreground);
    MixPacked(a.background, b.background);
    OrEmphasis(a.emphasis, b.emphasis);
    OrLayout(PackColor(a.foreground), PackColor(a.background), a.emphasis,
             PackColor(b.foreground), PackColor(b.background), b.emphasis);
  }

  /** Main result. On packed words the single addition reports an error exactly when a terminal color
      meets any color, in the foreground or the background; otherwise the word is the packed
      combination. */
  lemma OrRefinesCombine(a: Style, b: Style)
    requires IsStyle(a) && IsStyle(b)
    ensures Or(Pack(a), Pack(b)) ==
      if Conflict(a.foreground, b.foreground) || Conflict(a.background, b.background) then CannotOr
      else Ok(Pack(Combine(a, b)))
    ensures Or(Pack(a), Pack(b)).Ok? ==> IsStyle(Combine(a, b))
  {
    PackedConflicts(a, b);
    if !Conflict(a.foreground, b.foreground) && !Conflict(a.background, b.background) {
      CombinedWord(a, b);
    }
  }

  // ---------------------------------------------------------------- chains of combinations

  /** Combining left to right, up to the first conflict. */
  function OrAll(ss: seq<Style>): Result
  {
    if ss == [] then Ok(0)
    else
      match OrAll(ss[..|ss| - 1])
      case CannotOr => CannotOr
      case Ok(w) => Or(w, Pack(ss[|ss| - 1]))
  }

  function CombineAll(ss: seq<Style>): Style
  {
    if ss == [] then Style(Unset, Unset, 0)
    else Combine(CombineAll(ss[..|ss| - 1]), ss[|ss| - 1])
  }

  /** Both styles name colors for the same layer, one of them a terminal color. */
  predicate Clash(a: Style, b: Style)
  {
    Conflict(a.foreground, b.foreground) || Conflict(a.background, b.background)
  }

  predicate ChainConflict(ss: seq<Style>)
  {
    exists i, j :: 0 <= i < j < |ss| && Clash(ss[i], ss[j])
  }

  lemma MixConflict(a: Color, b: Color, c: Color)
    requires !Conflict(a, b)
    ensures Conflict(Mix(a, b), c) <==> Conflict(a, c) || Conflict(b, c)
  {
  }

  lemma CombineClash(a: Style, b: Style, c: Style)
    requires !Clash(a, b)
    ensures Clash(Combine(a, b), c) <==> Clash(a, c) || Clash(b, c)
  {
    MixConflict(a.foreground, b.foreground, c.foreground);
    MixConflict(a.background, b.background, c.background);
  }

  /** A combined chain clashes with a further style exactly when one of its styles does. */
  lemma {:induction false} CombinedClash(ss: seq<Style>, c: Style)
    requires !ChainConflict(ss)
    ensures Clash(CombineAll(ss), c) <==> exists i :: 0 <= i < |ss| && Clash(ss[i], c)
  {
    if ss != [] {
      var n := |ss| - 1;
      var init := ss[..n];
      assert forall i :: 0 <= i < n ==> ss[i] == init[i];
      CombinedClash(init, c);
      CombinedClash(init, ss[n]);
      CombineClash(CombineAll(init), ss[n], c);
    }
  }

  lemma LastClash(ss: seq<Style>)
    requires ss != []
    ensures var n := |ss| - 1;
      ChainConflict(ss) <==> ChainConflict(ss[..n]) || exists i :: 0 <= i < n && Clash(ss[i], ss[n])
  {
    var init := ss[..|ss| - 1];
    assert forall i :: 0 <= i < |init| ==> ss[i] == init[i];
  }

  /** Main result. Over every chain of combinations the word stays the packed combined style, and an
      error is reported exactly when two styles of the chain clash. */
  lemma {:induction false} ChainRefines(ss: seq<Style>)
    requires forall i :: 0 <= i < |ss| ==> IsStyle(ss[i])
    ensures OrAll(ss) == if ChainConflict(ss) then CannotOr else Ok(Pack(CombineAll(ss)))
    ensures !ChainConflict(ss) ==> IsStyle(CombineAll(ss))
  {
    if ss == [] {
      EmptyWord();
    } else {
      var n := |ss| - 1;
      var init := ss[..n];
      assert forall i :: 0 <= i < n ==> ss[i] == init[i];
      ChainRefines(init);
      LastClash(ss);
      if !ChainConflict(init) {
        CombinedClash(init, ss[n]);
        OrRefinesCombine(CombineAll(init), ss[n]);
      }
    }
  }

  lemma EmptyWord()
    ensures Pack(Style(Unset, Unset, 0)) == 0 && IsStyle(Style(Unset, Unset, 0))
  {
  }
}
