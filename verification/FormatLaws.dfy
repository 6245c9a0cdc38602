/**
 * What a format string denotes, said without scanning it: a list of parts, each a text, a `{}` or a `{N}`. The n-th `{}`
 * stands for the n-th argument, and `{N}` for argument N; the two kinds of fields must not be mixed.
 */
module FormatLaws {
  import opened Decimals
  import opened FormatString

  datatype Part = Literal(text: string) | Auto | At(arg: nat)

  /** A text as it is written in a format string: every brace doubled. */
  function Escape(s: string): string {
    if s == "" then ""
    else (if s[0] == '{' then "{{" else if s[0] == '}' then "}}" else [s[0]]) + Escape(s[1..])
  }

  function SpellPart(p: Part): string {
    match p
    case Literal(s) => Escape(s)
    case Auto => "{}"
    case At(k) => "{" + Decimal(k) + "}"
  }

  function Spell(ps: seq<Part>): string {
    if ps == [] then "" else SpellPart(ps[0]) + Spell(ps[1..])
  }

  /** How many `{}` there are. */
  function Autos(ps: seq<Part>): nat {
    if ps == [] then 0 else Autos(ps[..|ps| - 1]) + if ps[|ps| - 1].Auto? then 1 else 0
  }

  predicate UsesAt(ps: seq<Part>) {
    exists k :: 0 <= k < |ps| && ps[k].At?
  }

  /** There are enough arguments, and the fields are numbered in one way. */
  predicate Good(ps: seq<Part>, n: nat) {
    && Autos(ps) <= n && (forall k :: 0 <= k < |ps| && ps[k].At? ==> ps[k].arg < n)
    && (Autos(ps) == 0 || !UsesAt(ps))
  }

  /** The text with every field replaced by its argument. */
  function Filled(ps: seq<Part>, args: seq<string>): string
    requires Good(ps, |args|)
  {
    if ps == [] then ""
    else
      var init := ps[..|ps| - 1];
      GoodPrefix(ps, |args|);
      Filled(init, args) + match ps[|ps| - 1]
                           case Literal(s) => s
                           case Auto => args[Autos(init)]
                           case At(k) => args[k]
  }

  lemma GoodPrefix(ps: seq<Part>, n: nat)
    requires ps != [] && Good(ps, n)
    ensures Good(ps[..|ps| - 1], n)
    ensures ps[|ps| - 1].Auto? ==> Autos(ps[..|ps| - 1]) < n
  {
    var init := ps[..|ps| - 1];
    assert forall k :: 0 <= k < |init| ==> init[k] == ps[k];
  }

  // ----- A scan depends only on what is ahead

  lemma {:induction false} DigitsEndShift(f: string, p: nat, g: string, q: nat)
    requires p <= |f| && q <= |g| && f[p..] == g[q..]
    ensures DigitsEnd(f, p) - p == DigitsEnd(g, q) - q
    decreases |f| - p
  {
    assert |f[p..]| == |g[q..]|;
    if p < |f| && IsDigit(f[p]) {
      assert f[p] == f[p..][0] == g[q];
      assert f[p + 1..] == f[p..][1..] == g[q + 1..];
      DigitsEndShift(f, p + 1, g, q + 1);
    } else if p < |f| {
      assert f[p] == f[p..][0] == g[q];
    }
  }

  /** The same finding, its end as far from the start. */
  ghost predicate SameFinding(a: ArgId, p: nat, b: ArgId, q: nat) {
    match a
    case Index(id, end) => b.Index? && b.id == id && end - p == b.end - q
    case _ => a == b
  }

  lemma ArgIdShift(f: string, p: nat, g: string, q: nat)
    requires p < |f| && q < |g| && f[p..] == g[q..]
    ensures SameFinding(ArgIdAt(f, p), p, ArgIdAt(g, q), q)
  {
    DigitsEndShift(f, p, g, q);
    assert f[p] == f[p..][0] == g[q] && |f[p..]| == |g[q..]|;
    var end, end' := DigitsEnd(f, p), DigitsEnd(g, q);
    assert f[p..end] == f[p..][..end - p] == g[q..end'];
    NumeralShift(f, p, end, g, q, end');
    assert end < |f| ==> f[end] == f[p..][end - p] == g[end'];
    assert p + 1 < |f| ==> f[p + 1] == f[p..][1] == g[q + 1];
  }

  lemma {:induction false} MeaningShift(f: string, p: nat, g: string, q: nat, next: int, args: seq<string>)
    requires p <= |f| && q <= |g| && f[p..] == g[q..]
    ensures Meaning(f, p, next, args) == Meaning(g, q, next, args)
    decreases |f| - p
  {
    hide ArgIdAt;
    Ahead(f, p, g, q, 0);
    if p < |f| {
      Ahead(f, p, g, q, 1);
      if f[p] != '{' && f[p] != '}' {
        MeaningShift(f, p + 1, g, q + 1, next, args);
      } else if p + 1 < |f| {
        Ahead(f, p, g, q, 2);
        MeaningShift(f, p + 2, g, q + 2, next, args);
        MeaningShift(f, p + 2, g, q + 2, next + 1, args);
        ArgIdShift(f, p + 1, g, q + 1);
        var a := ArgIdAt(f, p + 1);
        if f[p] == '{' && a.Index? {
          Ahead(f, p, g, q, a.end - p);
          Ahead(f, p, g, q, a.end + 1 - p);
          MeaningShift(f, a.end + 1, g, q + (a.end + 1 - p), MANUAL, args);
        }
      }
    }
  }

  /** Equal rests stay equal further on. */
  lemma Ahead(f: string, p: nat, g: string, q: nat, k: nat)
    requires p + k <= |f| && q <= |g| && f[p..] == g[q..]
    ensures |f| - p == |g| - q && f[p + k..] == g[q + k..]
    ensures p + k < |f| ==> f[p + k] == g[q + k]
  {
    assert |f[p..]| == |g[q..]|;
    assert f[p + k..] == f[p..][k..] == g[q..][k..] == g[q + k..];
    assert p + k < |f| ==> f[p + k] == f[p..][k] == g[q..][k];
  }

  // ----- One law for each kind of part

  lemma MeaningAhead(head: string, g: string, next: int, args: seq<string>)
    ensures Meaning(head + g, |head|, next, args) == Meaning(g, 0, next, args)
  {
    assert (head + g)[|head|..] == g == g[0..];
    MeaningShift(head + g, |head|, g, 0, next, args);
  }

  /** Escaped text stands for itself. */
  lemma {:induction false} LiteralLaw(s: string, g: string, next: int, args: seq<string>)
    ensures Meaning(Escape(s) + g, 0, next, args) == After(s, Meaning(g, 0, next, args))
  {
    var rest := Meaning(g, 0, next, args);
    if s == "" {
      assert Escape(s) + g == g;
      assert rest.Done? ==> "" + rest.value == rest.value;
    } else {
      var head := if s[0] == '{' then "{{" else if s[0] == '}' then "}}" else [s[0]];
      var tail := Escape(s[1..]) + g;
      assert Escape(s) + g == head + tail;
      LiteralLaw(s[1..], g, next, args);
      MeaningAhead(head, tail, next, args);
      AfterTwice([s[0]], s[1..], rest);
      assert [s[0]] + s[1..] == s;
    }
  }

  /** `{}` stands for the next argument. */
  lemma AutoLaw(g: string, next: int, args: seq<string>)
    ensures Meaning("{}" + g, 0, next, args) ==
      if 0 <= next < |args| then After(args[next], Meaning(g, 0, next + 1, args)) else Failed
  {
    MeaningAhead("{}", g, next + 1, args);
  }

  lemma {:induction false} DigitsEndAt(f: string, p: nat, end: nat)
    requires p <= end < |f| && !IsDigit(f[end]) && forall i :: p <= i < end ==> IsDigit(f[i])
    ensures DigitsEnd(f, p) == end
    decreases end - p
  {
    if p < end {
      DigitsEndAt(f, p + 1, end);
    }
  }

  lemma DecimalIndex(k: nat, g: string, numArgs: nat)
    requires numArgs <= INT_MAX
    ensures var f, a := "{" + Decimal(k) + "}" + g, ArgIdAt("{" + Decimal(k) + "}" + g, 1);
      && a.Index? && a.end == 1 + |Decimal(k)| && f[a.end] == '}' && f[1] !in {'{', '}', ':'}
      && (a.id < numArgs <==> k < numArgs) && (k < numArgs ==> a.id == k)
  {
    var d := Decimal(k);
    var f := "{" + d + "}" + g;
    DecimalReads(k);
    assert forall i :: 0 <= i < |d| ==> f[1 + i] == d[i] && IsDigit(d[i]);
    assert forall i :: 1 <= i < 1 + |d| ==> f[i] == d[i - 1];
    assert f[1 + |d|] == '}';
    DigitsEndAt(f, 1, 1 + |d|);
    assert f[1..1 + |d|] == d == d[0..|d|];
    NumeralShift(f, 1, 1 + |d|, d, 0, |d|);
    if k != 0 {
      IndexSaturates(f, 1);
    }
  }

  /** `{k}` stands for argument k, unless `{}` was used before. */
  lemma AtLaw(k: nat, g: string, next: int, args: seq<string>)
    requires |args| <= INT_MAX
    ensures Meaning("{" + Decimal(k) + "}" + g, 0, next, args) ==
      if next <= 0 && k < |args| then After(args[k], Meaning(g, 0, MANUAL, args)) else Failed
  {
    DecimalIndex(k, g, |args|);
    MeaningAhead("{" + Decimal(k) + "}", g, MANUAL, args);
  }

  // ----- Every list of parts

  /** The parts so far are good; this is the counter they leave. */
  function Counter(done: seq<Part>): int {
    if UsesAt(done) then MANUAL else Autos(done)
  }

  ghost function Outcomes(ps: seq<Part>, args: seq<string>): Outcome<string> {
    if Good(ps, |args|) then Done(Filled(ps, args)) else Failed
  }

  lemma {:induction false} GoodStart(done: seq<Part>, more: seq<Part>, n: nat)
    requires Good(done + more, n)
    ensures Good(done, n)
    decreases |more|
  {
    var ps := done + more;
    if more == [] {
      assert ps == done;
    } else {
      GoodPrefix(ps, n);
      assert ps[..|ps| - 1] == done + more[..|more| - 1];
      GoodStart(done, more[..|more| - 1], n);
    }
  }

  /** With the counter at next, the part can be formatted. */
  predicate Takes(p: Part, next: int, numArgs: nat) {
    (p.Auto? ==> 0 <= next < numArgs) && (p.At? ==> next <= 0 && p.arg < numArgs)
  }

  function Advance(p: Part, next: int): int {
    if p.Literal? then next else if p.Auto? then next + 1 else MANUAL
  }

  function Added(p: Part, next: int, args: seq<string>): string
    requires Takes(p, next, |args|)
  {
    if p.Literal? then p.text else if p.Auto? then args[next] else args[p.arg]
  }

  /** One more part: whether the list stays good, its counter, and what is added to the text. */
  lemma OneMorePart(done: seq<Part>, p: Part, args: seq<string>)
    requires Good(done, |args|)
    ensures var next, all := Counter(done), done + [p];
      && (Good(all, |args|) <==> Takes(p, next, |args|))
      && (Good(all, |args|) ==> Counter(all) == Advance(p, next))
      && (Good(all, |args|) ==> Filled(all, args) == Filled(done, args) + Added(p, next, args))
  {
    var all := done + [p];
    assert all[..|all| - 1] == done && all[|all| - 1] == p;
    assert forall k :: 0 <= k < |done| ==> all[k] == done[k];
    assert UsesAt(all) <==> UsesAt(done) || p.At? by {
      if p.At? { assert all[|done|].At?; }
    }
  }

  lemma {:induction false} RestMeans(done: seq<Part>, rest: seq<Part>, args: seq<string>)
    requires |args| <= INT_MAX && Good(done, |args|)
    ensures After(Filled(done, args), Meaning(Spell(rest), 0, Counter(done), args)) == Outcomes(done + rest, args)
    decreases |rest|
  {
    if rest == [] {
      assert done + rest == done && Filled(done, args) + "" == Filled(done, args);
    } else {
      var p, more, next := rest[0], rest[1..], Counter(done);
      assert done + rest == (done + [p]) + more;
      OneMorePart(done, p, args);
      PartLaw(p, Spell(more), next, args);
      hide Meaning, Filled, Good, Counter, SpellPart, Takes, Added, Advance;
      if Takes(p, next, |args|) {
        RestMeans(done + [p], more, args);
        AfterTwice(Filled(done, args), Added(p, next, args), Meaning(Spell(more), 0, Counter(done + [p]), args));
      } else if Good(done + rest, |args|) {
        GoodStart(done + [p], more, |args|);
      }
    }
  }

  lemma PartLaw(p: Part, g: string, next: int, args: seq<string>)
    requires |args| <= INT_MAX
    ensures Meaning(SpellPart(p) + g, 0, next, args) ==
      if Takes(p, next, |args|) then After(Added(p, next, args), Meaning(g, 0, Advance(p, next), args)) else Failed
  {
    match p {
      case Literal(s) => LiteralLaw(s, g, next, args);
      case Auto => AutoLaw(g, next, args);
      case At(k) => AtLaw(k, g, next, args);
    }
  }

  /** Main result. A format string that spells a list of parts formats to the filled list, and fails exactly when
      arguments are missing or the two kinds of fields are mixed. */
  lemma SpelledMeans(ps: seq<Part>, args: seq<string>)
    requires |args| <= INT_MAX
    ensures Meaning(Spell(ps), 0, 0, args) == Outcomes(ps, args)
  {
    RestMeans([], ps, args);
    assert [] + ps == ps;
    var m := Meaning(Spell(ps), 0, 0, args);
    assert m.Done? ==> "" + m.value == m.value;
  }

  // ----- And nothing else is accepted

  /** The part that stands at p of an accepted string, and where it ends. */
  function FirstPart(f: string, p: nat): (Part, nat)
    requires p < |f|
  {
    if f[p] == '{' && p + 1 < |f| && f[p + 1] == '}' then (Auto, p + 2)
    else if f[p] == '{' && p + 1 < |f| && f[p + 1] != '{' && ArgIdAt(f, p + 1).Index? then
      (At(ArgIdAt(f, p + 1).id), ArgIdAt(f, p + 1).end + 1)
    else (Literal([f[p]]), if f[p] == '{' || f[p] == '}' then p + 2 else p + 1)
  }

  lemma FirstPartSpelled(f: string, p: nat, next: int, args: seq<string>)
    requires p < |f| && |args| <= INT_MAX && Meaning(f, p, next, args).Done?
    ensures var (part, to) := FirstPart(f, p);
      && p < to <= |f| && f[p..to] == SpellPart(part)
      && Meaning(f, to, Advance(part, next), args).Done?
  {
    EscapeOne(f[p]);
    var (part, to) := FirstPart(f, p);
    match part {
      case At(k) =>
        FoundDecimal(f, p + 1, |args|);
        assert f[p..to] == "{" + f[p + 1..to - 1] + "}";
      case _ =>
    }
  }

  lemma {:induction false} AcceptedParts(f: string, p: nat, next: int, args: seq<string>) returns (ps: seq<Part>)
    requires p <= |f| && |args| <= INT_MAX && Meaning(f, p, next, args).Done?
    ensures Spell(ps) == f[p..]
    decreases |f| - p
  {
    if p == |f| {
      ps := [];
    } else {
      FirstPartSpelled(f, p, next, args);
      var (part, to) := FirstPart(f, p);
      hide Meaning, FirstPart, SpellPart;
      var rest := AcceptedParts(f, to, Advance(part, next), args);
      ps := [part] + rest;
      assert ps[1..] == rest;
      assert f[p..] == f[p..to] + f[to..];
    }
  }

  lemma EscapeOne(c: char)
    ensures Escape([c]) == if c == '{' then "{{" else if c == '}' then "}}" else [c]
  {
    assert [c][1..] == "";
  }

  /** An index that is small enough is spelled in decimal. */
  lemma FoundDecimal(f: string, p: nat, numArgs: nat)
    requires p < |f| && numArgs <= INT_MAX && ArgIdAt(f, p).Index? && ArgIdAt(f, p).id < numArgs
    ensures f[p..ArgIdAt(f, p).end] == Decimal(ArgIdAt(f, p).id)
  {
    var a := ArgIdAt(f, p);
    var s := f[p..a.end];
    assert AllDigits(s);
    NumeralShift(f, p, a.end, s, 0, |s|);
    if f[p] == '0' {
      DecimalReads(0);
      assert s == "0";
    } else {
      CanonicalNumeral(s);
    }
  }

  /** Main result. The accepted format strings are exactly those that spell a good list of parts. */
  lemma AcceptedExactly(f: string, args: seq<string>)
    requires |args| <= INT_MAX
    ensures Meaning(f, 0, 0, args).Done? <==> exists ps :: Spell(ps) == f && Good(ps, |args|)
  {
    if Meaning(f, 0, 0, args).Done? {
      var ps := AcceptedParts(f, 0, 0, args);
      assert f[0..] == f;
      SpelledMeans(ps, args);
    }
    forall ps | Spell(ps) == f && Good(ps, |args|)
      ensures Meaning(f, 0, 0, args).Done?
    {
      SpelledMeans(ps, args);
    }
  }
}
