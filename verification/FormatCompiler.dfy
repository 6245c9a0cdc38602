/**
 * fmt's format-string compiler (deps/fmt/compile.h): a recursive-descent parse into a tree, which renders without
 * looking at the string again. It is an implementation of the language of module FormatString that shares only
 * parse_arg_id with the runtime scanner.
 */
module FormatCompiler {
  import opened FormatString

  datatype Compiled =
    | Text(data: string)
    | CodeUnit(value: char)
    | Field(arg: nat)
    | Concat(lhs: Compiled, rhs: Compiled)

  /** The fields refer to arguments that exist; get_type checks that at compile time. */
  predicate Fits(t: Compiled, numArgs: nat) {
    match t
    case Field(n) => n < numArgs
    case Concat(l, r) => Fits(l, numArgs) && Fits(r, numArgs)
    case _ => true
  }

  function Render(t: Compiled, args: seq<string>): string
    requires Fits(t, |args|)
  {
    match t
    case Text(data) => data
    case CodeUnit(value) => [value]
    case Field(n) => args[n]
    case Concat(l, r) => Render(l, args) + Render(r, args)
  }

  /** Where plain text ends. */
  function TextEnd(f: string, p: nat): (end: nat)
    requires p <= |f|
    ensures p <= end <= |f| && (forall i :: p <= i < end ==> f[i] !in {'{', '}'}) && (end < |f| ==> f[end] in {'{', '}'})
    decreases |f| - p
  {
    if p < |f| && f[p] !in {'{', '}'} then TextEnd(f, p + 1) else p
  }

  method ParseText(f: string, start: nat) returns (pos: nat)
    requires start <= |f|
    ensures pos == TextEnd(f, start)
  {
    pos := start;
    while pos != |f|
      invariant start <= pos <= |f| && TextEnd(f, pos) == TextEnd(f, start)
      decreases |f| - pos
    {
      if f[pos] == '{' || f[pos] == '}' {
        break;
      }
      pos := pos + 1;
    }
  }

  function ParseTail(head: Compiled, f: string, p: nat, next: int, numArgs: nat): (r: Outcome<Compiled>)
    requires p <= |f| && Fits(head, numArgs)
    ensures r.Done? ==> Fits(r.value, numArgs)
    decreases |f| - p, 1
  {
    if p != |f| then
      var tail := CompileFormatString(f, p, next, numArgs);
      if tail.Done? then Done(Concat(head, tail.value)) else tail
    else
      Done(head)
  }

  function ParseReplacementFieldThenTail(f: string, end: nat, arg: nat, next: int, numArgs: nat): (r: Outcome<Compiled>)
    requires end <= |f|
    ensures r.Done? ==> Fits(r.value, numArgs)
    decreases |f| - end, 0
  {
    if arg >= numArgs then Failed
    else if end != |f| && f[end] == '}' then ParseTail(Field(arg), f, end + 1, next, numArgs)
    else if end != |f| && f[end] == ':' then Unmodelled
    else Failed
  }

  function CompileFormatString(f: string, p: nat, next: int, numArgs: nat): (r: Outcome<Compiled>)
    requires p < |f|
    ensures r.Done? ==> Fits(r.value, numArgs)
    decreases |f| - p, 0
  {
    if f[p] == '{' then
      if p + 1 == |f| then Failed
      else if f[p + 1] == '{' then ParseTail(Text(f[p..p + 1]), f, p + 2, next, numArgs)
      else if f[p + 1] == '}' || f[p + 1] == ':' then
        if next == MANUAL || next < 0 then Failed
        else ParseReplacementFieldThenTail(f, p + 1, next, next + 1, numArgs)
      else
        match ArgIdAt(f, p + 1)
        case Invalid => Failed
        case Name => Unmodelled
        case Index(id, end) =>
          if next == MANUAL || next == 0 then ParseReplacementFieldThenTail(f, end, id, MANUAL, numArgs) else Failed
    else if f[p] == '}' then
      if p + 1 == |f| then Failed
      else ParseTail(Text(f[p..p + 1]), f, p + 2, next, numArgs)
    else
      var end := TextEnd(f, p + 1);
      if end - p > 1 then ParseTail(Text(f[p..end]), f, end, next, numArgs)
      else ParseTail(CodeUnit(f[p]), f, end, next, numArgs)
  }

  function Compile(f: string, numArgs: nat): (r: Outcome<Compiled>)
    ensures r.Done? ==> Fits(r.value, numArgs)
  {
    if |f| == 0 then Done(Text("")) else CompileFormatString(f, 0, 0, numArgs)
  }

  /** fmt::format on a compiled string: "{}" alone is short-circuited, anything else is compiled and rendered. */
  method FormatCompiled(f: string, args: seq<string>) returns (r: Outcome<string>)
    ensures r == if Compile(f, |args|).Done? then Done(Render(Compile(f, |args|).value, args))
                 else if Compile(f, |args|).Failed? then Failed else Unmodelled
    ensures !Meaning(f, 0, 0, args).Failed? || BracesPaired(f, 0) ==> r == Meaning(f, 0, 0, args)
  {
    CompiledMeansScanned(f, args);
    if |f| == 2 && f[0] == '{' && f[1] == '}' {
      assert Compile(f, |args|) == ParseReplacementFieldThenTail(f, 1, 0, 1, |args|);
      return if |args| > 0 then Done(args[0]) else Failed;
    }
    var compiled := Compile(f, |args|);
    match compiled {
      case Done(t) => return Done(Render(t, args));
      case Failed => return Failed;
      case Unmodelled => return Unmodelled;
    }
  }

  // ----- Compiled and scanned strings mean the same

  /** Every '}' that stands in the text from p on is doubled: fields are skipped up to their own '}'. */
  predicate BracesPaired(f: string, p: nat)
    requires p <= |f|
    decreases |f| - p
  {
    if p >= |f| then true
    else if f[p] == '{' then
      if p + 1 < |f| && f[p + 1] == '{' then BracesPaired(f, p + 2) else AfterField(f, p + 1)
    else if f[p] == '}' then p + 1 < |f| && f[p + 1] == '}' && BracesPaired(f, p + 2)
    else BracesPaired(f, p + 1)
  }

  predicate AfterField(f: string, p: nat)
    requires p <= |f|
    decreases |f| - p
  {
    if p == |f| then true
    else if f[p] == '}' then BracesPaired(f, p + 1)
    else AfterField(f, p + 1)
  }

  /** The two outcomes for the rest of a string agree: the scan is done exactly when the compiler is and the braces
      are paired, and then with the text that the tree renders; and with paired braces both fail or neither does. */
  ghost predicate Agree(scan: Outcome<string>, c: Outcome<Compiled>, paired: bool, args: seq<string>) {
    && (scan.Done? <==> c.Done? && paired)
    && (scan.Unmodelled? ==> c.Unmodelled?) && (c.Unmodelled? && paired ==> scan.Unmodelled?)
    && (scan.Done? ==> Fits(c.value, |args|) && scan.value == Render(c.value, args))
  }

  lemma {:induction false} SkipArgId(f: string, p: nat, end: nat)
    requires p <= end < |f| && f[end] == '}' && forall i :: p <= i < end ==> f[i] != '}'
    ensures AfterField(f, p) == BracesPaired(f, end + 1)
    decreases end - p
  {
    if p < end {
      SkipArgId(f, p + 1, end);
    }
  }

  lemma {:induction false} TextMeaning(f: string, p: nat, end: nat, next: int, args: seq<string>)
    requires p <= end <= |f| && forall i :: p <= i < end ==> f[i] !in {'{', '}'}
    ensures Meaning(f, p, next, args) == After(f[p..end], Meaning(f, end, next, args))
    ensures BracesPaired(f, p) == BracesPaired(f, end)
    decreases end - p
  {
    var rest := Meaning(f, end, next, args);
    if p < end {
      TextMeaning(f, p + 1, end, next, args);
      AfterTwice([f[p]], f[p + 1..end], rest);
      assert f[p..end] == [f[p]] + f[p + 1..end];
    } else {
      assert f[p..end] == "";
      assert rest.Done? ==> "" + rest.value == rest.value;
    }
  }

  lemma {:induction false} TailAgrees(head: Compiled, f: string, p: nat, next: int, args: seq<string>)
    requires p <= |f| && next >= MANUAL && Fits(head, |args|)
    ensures Agree(After(Render(head, args), Meaning(f, p, next, args)), ParseTail(head, f, p, next, |args|),
                  BracesPaired(f, p), args)
    decreases |f| - p, 3
  {
    if p != |f| {
      RestAgrees(f, p, next, args);
    } else {
      assert Render(head, args) + "" == Render(head, args);
    }
  }

  lemma {:induction false} RestAgrees(f: string, p: nat, next: int, args: seq<string>)
    requires p < |f| && next >= MANUAL
    ensures Agree(Meaning(f, p, next, args), CompileFormatString(f, p, next, |args|), BracesPaired(f, p), args)
    decreases |f| - p, 2
  {
    if f[p] == '{' {
      FieldAgrees(f, p, next, args);
    } else if f[p] == '}' {
      if p + 1 < |f| {
        assert f[p..p + 1] == "}";
        TailAgrees(Text("}"), f, p + 2, next, args);
      }
    } else {
      var end := TextEnd(f, p + 1);
      TextMeaning(f, p, end, next, args);
      TailAgrees(if end - p > 1 then Text(f[p..end]) else CodeUnit(f[p]), f, end, next, args);
      assert end == p + 1 ==> f[p..end] == [f[p]];
    }
  }

  lemma {:induction false} FieldAgrees(f: string, p: nat, next: int, args: seq<string>)
    requires p < |f| && f[p] == '{' && next >= MANUAL
    ensures Agree(Meaning(f, p, next, args), CompileFormatString(f, p, next, |args|), BracesPaired(f, p), args)
    decreases |f| - p, 1
  {
    if p + 1 == |f| {
    } else if f[p + 1] == '{' {
      assert f[p..p + 1] == "{";
      TailAgrees(Text("{"), f, p + 2, next, args);
    } else if f[p + 1] == '}' {
      if 0 <= next < |args| {
        TailAgrees(Field(next), f, p + 2, next + 1, args);
      }
    } else if f[p + 1] != ':' {
      IndexAgrees(f, p, next, args);
    }
  }

  lemma {:induction false} IndexAgrees(f: string, p: nat, next: int, args: seq<string>)
    requires p + 1 < |f| && f[p] == '{' && f[p + 1] !in {'{', '}', ':'} && next >= MANUAL
    ensures Agree(Meaning(f, p, next, args), CompileFormatString(f, p, next, |args|), BracesPaired(f, p), args)
    decreases |f| - p, 0
  {
    match ArgIdAt(f, p + 1) {
      case Index(id, end) =>
        if next <= 0 && id < |args| && f[end] == '}' {
          SkipArgId(f, p + 1, end);
          TailAgrees(Field(id), f, end + 1, MANUAL, args);
        }
      case _ =>
    }
  }

  /** Main result. The compiled string and the runtime scan give the same text for every argument list, and with the
      same automatic and explicit numbering, whenever the scanner accepts the string; and the compiler accepts more only
      where a '}' in the text is not doubled. With paired braces both fail or neither does. */
  lemma CompiledMeansScanned(f: string, args: seq<string>)
    ensures Meaning(f, 0, 0, args).Done? <==> Compile(f, |args|).Done? && BracesPaired(f, 0)
    ensures Meaning(f, 0, 0, args).Done? ==> Meaning(f, 0, 0, args).value == Render(Compile(f, |args|).value, args)
    ensures Meaning(f, 0, 0, args).Unmodelled? ==> Compile(f, |args|).Unmodelled?
    ensures BracesPaired(f, 0) ==> (Meaning(f, 0, 0, args).Failed? <==> Compile(f, |args|).Failed?)
  {
    if |f| > 0 {
      RestAgrees(f, 0, 0, args);
    }
  }

  /** The compiler looks at only one of the two braces: a lone '}' swallows the character after it. */
  lemma LoneBraceCompiles(args: seq<string>)
    ensures Compile("}a", |args|) == Done(Text("}"))
    ensures Meaning("}a", 0, 0, args).Failed?
  {
    assert CompileFormatString("}a", 0, 0, |args|) == ParseTail(Text("}a"[0..1]), "}a", 2, 0, |args|);
    assert "}a"[0..1] == "}";
  }
}
