/**
 * The language of fmt's format strings and its runtime scanner (deps/fmt/base.h, deps/fmt/format.h).
 *
 * Text, doubled braces and the fields `{}` and `{N}` are modelled; a field with a format spec or a name ends a scan as
 * Unmodelled. An argument is given by the text its default formatting writes.
 */
module FormatString {
  import opened Decimals
  import opened Powers

  const INT_MAX: nat := 0x7FFF_FFFF
  const UINT_SIZE: nat := 0x1_0000_0000

  /** parse_context's next_arg_id_ once explicit indices are in use. */
  const MANUAL: int := -1

  datatype Outcome<T> = Done(value: T) | Failed | Unmodelled

  /** What parse_arg_id finds: an index and where it ends, a name, or an error. */
  datatype ArgId = Index(id: nat, end: nat) | Name | Invalid

  // ----- Numbers

  /** The end of the digits that start at p. */
  function DigitsEnd(f: string, p: nat): (end: nat)
    requires p <= |f|
    ensures p <= end <= |f| && (forall i :: p <= i < end ==> IsDigit(f[i])) && (end < |f| ==> !IsDigit(f[end]))
    decreases |f| - p
  {
    if p < |f| && IsDigit(f[p]) then DigitsEnd(f, p + 1) else p
  }

  /** k digits are worth less than 10^k, and at least 10^(k-1) if the first is not zero. */
  lemma {:induction false} NumeralBounds(f: string, p: nat, end: nat)
    requires p <= end <= |f| && forall i :: p <= i < end ==> IsDigit(f[i])
    ensures Numeral(f, p, end) < Pow10(end - p)
    ensures p < end && f[p] != '0' ==> Numeral(f, p, end) >= Pow10(end - p - 1)
    decreases end - p
  {
    if p < end {
      NumeralBounds(f, p, end - 1);
    }
  }

  lemma NinthAndTenth()
    ensures Pow10(9) == 1_000_000_000 && Pow10(10) == 10_000_000_000
  {
    assert Pow10(3) == 1000;
    assert Pow10(6) == 1_000_000;
    assert Pow10(9) == 1_000_000_000;
  }

  lemma NumeralNone(f: string, p: nat)
    requires p <= |f|
    ensures Numeral(f, p, p) == 0
  {
  }

  lemma NumeralNext(f: string, p: nat, end: nat)
    requires p <= end < |f| && forall i :: p <= i <= end ==> IsDigit(f[i])
    ensures Numeral(f, p, end + 1) == Numeral(f, p, end) * 10 + DigitValue(f[end])
  {
  }

  lemma WrapStep(v: nat, d: nat)
    ensures (v % UINT_SIZE * 10 + d) % UINT_SIZE == (v * 10 + d) % UINT_SIZE
  {
    var q := v / UINT_SIZE;
    assert v * 10 + d == v % UINT_SIZE * 10 + d + UINT_SIZE * (q * 10);
  }

  /** An index that fits in an int; a numeral too long or too large is taken for INT_MAX. */
  function IndexOf(f: string, p: nat): nat
    requires p < |f| && IsDigit(f[p])
  {
    var end := DigitsEnd(f, p);
    if end - p <= 10 && Numeral(f, p, end) <= INT_MAX then Numeral(f, p, end) else INT_MAX
  }

  /** Without a leading zero that is exactly saturation: no value is lost below INT_MAX. */
  lemma IndexSaturates(f: string, p: nat)
    requires p < |f| && IsDigit(f[p]) && f[p] != '0'
    ensures IndexOf(f, p) == if Numeral(f, p, DigitsEnd(f, p)) <= INT_MAX then Numeral(f, p, DigitsEnd(f, p)) else INT_MAX
  {
    var end := DigitsEnd(f, p);
    if end - p > 10 {
      NumeralBounds(f, p, end);
      PowMonotone(10, end - p - 1);
      NinthAndTenth();
    }
  }

  /** Up to nine digits stay within an int, and ten differ from their first nine by one exact step. */
  lemma FewDigits(f: string, p: nat, end: nat)
    requires p < end <= |f| && forall i :: p <= i < end ==> IsDigit(f[i])
    ensures end - p <= 9 ==> Numeral(f, p, end) <= INT_MAX
    ensures end - p <= 10 ==> Numeral(f, p, end - 1) < UINT_SIZE
  {
    NinthAndTenth();
    NumeralBounds(f, p, end);
    NumeralBounds(f, p, end - 1);
    if end - p <= 9 {
      PowMonotone(end - p, 9);
    }
    if end - p <= 10 {
      PowMonotone(end - p - 1, 9);
    }
  }

  /** parse_nonnegative_int: the digits are added up in 32 bits, and overflow is noticed afterwards. */
  method ParseNonnegativeInt(f: string, start: nat, errorValue: int) returns (value: int, end: nat)
    requires start < |f| && IsDigit(f[start])
    ensures end == DigitsEnd(f, start)
    ensures value == if end - start <= 10 && Numeral(f, start, end) <= INT_MAX then Numeral(f, start, end) else errorValue
  {
    hide Numeral;
    var v, prev, p := 0, 0, start;
    ghost var stop := DigitsEnd(f, start);
    NumeralNone(f, start);
    while p == start || (p < |f| && IsDigit(f[p]))
      invariant start <= p <= stop
      decreases stop - p
      invariant v == Numeral(f, start, p) % UINT_SIZE
      invariant p > start ==> prev == Numeral(f, start, p - 1) % UINT_SIZE
    {
      prev := v;
      NumeralNext(f, start, p);
      WrapStep(Numeral(f, start, p), DigitValue(f[p]));
      v := (v * 10 + DigitValue(f[p])) % UINT_SIZE;
      p := p + 1;
    }
    var digits := p - start;
    end := p;
    FewDigits(f, start, p);
    NumeralNext(f, start, p - 1);
    if digits <= 9 {
      return v, end;
    }
    if digits == 10 && prev * 10 + DigitValue(f[p - 1]) <= INT_MAX {
      return v, end;
    }
    return errorValue, end;
  }

  predicate IsNameStart(c: char) {
    'a' <= c <= 'z' || 'A' <= c <= 'Z' || c == '_'
  }

  /** The letters and the underscore. */
  lemma NameStarts(c: char)
    ensures IsNameStart(c) <==> c in {'_',
      'A', 'B', 'C', 'D', 'E', 'F', 'G', 'H', 'I', 'J', 'K', 'L', 'M', 'N', 'O', 'P', 'Q', 'R', 'S', 'T', 'U', 'V', 'W', 'X', 'Y', 'Z',
      'a', 'b', 'c', 'd', 'e', 'f', 'g', 'h', 'i', 'j', 'k', 'l', 'm', 'n', 'o', 'p', 'q', 'r', 's', 't', 'u', 'v', 'w', 'x', 'y', 'z'}
  {
  }

  /** What stands at p, after a '{'. */
  function ArgIdAt(f: string, p: nat): (a: ArgId)
    requires p < |f|
    ensures a.Index? ==> p < a.end < |f| && f[a.end] in {'}', ':'}
  {
    if IsDigit(f[p]) then
      var end := if f[p] == '0' then p + 1 else DigitsEnd(f, p);
      if end == |f| || f[end] !in {'}', ':'} then Invalid
      else Index(if f[p] == '0' then 0 else IndexOf(f, p), end)
    else if IsNameStart(f[p]) then Name
    else Invalid
  }

  method ParseArgId(f: string, begin: nat) returns (a: ArgId)
    requires begin < |f|
    ensures a == ArgIdAt(f, begin)
  {
    var c := f[begin];
    if '0' <= c <= '9' {
      var index, p := 0, begin;
      if c != '0' {
        index, p := ParseNonnegativeInt(f, begin, INT_MAX);
      } else {
        p := p + 1;
      }
      if p == |f| || (f[p] != '}' && f[p] != ':') {
        return Invalid;
      }
      return Index(index, p);
    }
    if !IsNameStart(c) {
      return Invalid;
    }
    return Name;
  }

  // ----- What a format string means

  function After(text: string, rest: Outcome<string>): Outcome<string> {
    if rest.Done? then Done(text + rest.value) else rest
  }

  /** The text for the format string from p on, when the next automatic argument is `next`. */
  function Meaning(f: string, p: nat, next: int, args: seq<string>): Outcome<string>
    requires p <= |f|
    decreases |f| - p
  {
    if p == |f| then Done("")
    else if f[p] == '{' then
      if p + 1 == |f| then Failed
      else if f[p + 1] == '{' then After("{", Meaning(f, p + 2, next, args))
      else if f[p + 1] == '}' then
        if 0 <= next < |args| then After(args[next], Meaning(f, p + 2, next + 1, args)) else Failed
      else if f[p + 1] == ':' then
        if 0 <= next < |args| then Unmodelled else Failed
      else
        match ArgIdAt(f, p + 1)
        case Invalid => Failed
        case Name => Unmodelled
        case Index(id, end) =>
          if next > 0 || id >= |args| then Failed
          else if f[end] == '}' then After(args[id], Meaning(f, end + 1, MANUAL, args))
          else Unmodelled
    else if f[p] == '}' then
      if p + 1 < |f| && f[p + 1] == '}' then After("}", Meaning(f, p + 2, next, args)) else Failed
    else After([f[p]], Meaning(f, p + 1, next, args))
  }

  lemma AfterTwice(s: string, t: string, rest: Outcome<string>)
    ensures After(s, After(t, rest)) == After(s + t, rest)
  {
    if rest.Done? {
      assert s + (t + rest.value) == (s + t) + rest.value;
    }
  }

  // ----- The scanner

  /** format_handler: the output so far, the arguments, and parse_context's counter. */
  class Handler {
    const args: seq<string>
    var out: string
    var nextArgId: int

    constructor (args: seq<string>)
      ensures this.args == args && out == "" && nextArgId == 0
    {
      this.args, out, nextArgId := args, "", 0;
    }

    method OnText(text: string)
      modifies this`out
      ensures out == old(out) + text
    {
      out := out + text;
    }

    /** next_arg_id(): automatic numbering. */
    method OnAutoId() returns (id: int, ok: bool)
      modifies this`nextArgId
      ensures ok <==> old(nextArgId) >= 0
      ensures ok ==> id == old(nextArgId) && nextArgId == old(nextArgId) + 1
      ensures !ok ==> id == 0 && nextArgId == old(nextArgId)
    {
      if nextArgId < 0 {
        return 0, false;
      }
      id, ok := nextArgId, true;
      nextArgId := nextArgId + 1;
    }

    /** check_arg_id(id): explicit numbering. */
    method OnIndex(id: int) returns (ok: bool)
      modifies this`nextArgId
      ensures ok <==> old(nextArgId) <= 0
      ensures nextArgId == if ok then MANUAL else old(nextArgId)
    {
      if nextArgId > 0 {
        return false;
      }
      nextArgId := MANUAL;
      return true;
    }

    method OnReplacementField(id: int) returns (ok: bool)
      requires id >= 0
      modifies this`out
      ensures ok <==> id < |args|
      ensures out == if ok then old(out) + args[id] else old(out)
    {
      if id >= |args| {
        return false;
      }
      out := out + args[id];
      return true;
    }

    /** parse_replacement_field: from the '{' at p; the result is where the scan goes on. */
    method ParseReplacementField(f: string, p: nat) returns (r: Outcome<nat>)
      requires p < |f| && f[p] == '{' && nextArgId >= MANUAL
      modifies this
      ensures nextArgId >= MANUAL
      ensures r.Done? ==> p < r.value <= |f|
      ensures r.Done? ==> exists written ::
        out == old(out) + written
        && Meaning(f, p, old(nextArgId), args) == After(written, Meaning(f, r.value, nextArgId, args))
      ensures r.Failed? ==> Meaning(f, p, old(nextArgId), args).Failed?
      ensures r.Unmodelled? ==> Meaning(f, p, old(nextArgId), args).Unmodelled?
    {
      var begin := p + 1;
      if begin == |f| {
        return Failed;
      }
      if f[begin] == '}' {
        var id, numbered := OnAutoId();
        if !numbered {
          return Failed;
        }
        var written := OnReplacementField(id);
        return if written then Done(begin + 1) else Failed;
      } else if f[begin] == '{' {
        OnText(f[begin..begin + 1]);
        return Done(begin + 1);
      } else if f[begin] == ':' {
        var id, numbered := OnAutoId();
        return if numbered && id < |args| then Unmodelled else Failed;
      }
      var a := ParseArgId(f, begin);
      match a {
        case Invalid =>
          return Failed;
        case Name =>
          return Unmodelled;
        case Index(id, end) =>
          var numbered := OnIndex(id);
          if !numbered {
            return Failed;
          }
          if f[end] == '}' {
            var written := OnReplacementField(id);
            return if written then Done(end + 1) else Failed;
          }
          return if id < |args| then Unmodelled else Failed;
      }
    }
  }

  /** parse_format_string with format_handler: one pass that copies text in runs computes the meaning. */
  method Format(f: string, args: seq<string>) returns (r: Outcome<string>)
    ensures r == Meaning(f, 0, 0, args)
  {
    var h := new Handler(args);
    var begin, p := 0, 0;
    assert Meaning(f, 0, 0, args).Done? ==> "" + Meaning(f, 0, 0, args).value == Meaning(f, 0, 0, args).value;
    assert h.out + f[begin..p] == "";
    while p != |f|
      invariant begin <= p <= |f| && h.args == args && fresh(h) && h.nextArgId >= MANUAL
      invariant Meaning(f, 0, 0, args) == After(h.out + f[begin..p], Meaning(f, p, h.nextArgId, args))
      decreases |f| - p
    {
      var c := f[p];
      ghost var done := h.out + f[begin..p];
      p := p + 1;
      if c == '{' {
        ghost var next := h.nextArgId;
        h.OnText(f[begin..p - 1]);
        label Field:
        var rest := h.ParseReplacementField(f, p - 1);
        if !rest.Done? {
          return if rest.Failed? then Failed else Unmodelled;
        }
        ghost var written :| h.out == old@Field(h.out) + written
          && Meaning(f, p - 1, next, args) == After(written, Meaning(f, rest.value, h.nextArgId, args));
        AfterTwice(done, written, Meaning(f, rest.value, h.nextArgId, args));
        begin, p := rest.value, rest.value;
        assert h.out + f[begin..p] == done + written;
      } else if c == '}' {
        if p == |f| || f[p] != '}' {
          return Failed;
        }
        h.OnText(f[begin..p]);
        assert h.out == done + "}";
        p := p + 1;
        begin := p;
        AfterTwice(done, "}", Meaning(f, p, h.nextArgId, args));
        assert h.out + f[begin..p] == done + "}";
      } else {
        AfterTwice(done, [c], Meaning(f, p, h.nextArgId, args));
        assert h.out + f[begin..p] == done + [c];
      }
    }
    h.OnText(f[begin..]);
    assert f[begin..] == f[begin..p];
    assert h.out + "" == h.out;
    r := Done(h.out);
  }
}
