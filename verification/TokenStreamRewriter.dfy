/** The rewriter object: named edit queues over a token list, reduced in place by getText. */
module TokenStreamRewriter {
  import opened Basics
  import opened TokenRewriter
  import opened RewriterMeaning
  import opened RewriterTheorems
  import opened RewriterRendering
  import opened RewriterCoverage
  import opened RewriterMerges

  const SIZE_MAX: nat := 0xFFFF_FFFF_FFFF_FFFF

  type SizeT = x: nat | x <= SIZE_MAX

  const DEFAULT_PROGRAM_NAME := "default"

  datatype Result<T> = Ok(value: T) | Err(error: RewriteError)

  /** TokenStream::getText: the plain text of an interval, up to the EOF token. */
  function PlainText(tokens: seq<Token>, i: nat, stop: nat): string
    decreases stop + 1 - i
  {
    if i > stop || i >= |tokens| || tokens[i].isEof then ""
    else tokens[i].text + PlainText(tokens, i + 1, stop)
  }

  ghost predicate OnlyEofLast(tokens: seq<Token>)
  {
    forall i :: 0 <= i < |tokens| - 1 ==> !tokens[i].isEof
  }

  lemma {:induction false} PlainMeaning(s: Program, tokens: seq<Token>, start: nat, i: nat, stop: nat)
    requires |s| == 0 && OnlyEofLast(tokens)
    ensures PlainText(tokens, i, stop) == Pieces(s, tokens, start, i, stop)
    decreases stop + 1 - i
  {
    if i <= stop && i < |tokens| {
      PlainMeaning(s, tokens, start, i + 1, stop);
      PlainPiece(s, tokens, start, i);
      if tokens[i].isEof {
        assert i == |tokens| - 1;
        assert Pieces(s, tokens, start, i + 1, stop) == "";
      }
    }
  }

  lemma PlainPiece(s: Program, tokens: seq<Token>, start: nat, i: nat)
    requires |s| == 0
    ensures Piece(s, tokens, start, i) == TokenText(tokens, i)
  {
    assert LatestFirst(s, i, 0, 0) == "";
  }

  function OpTexts(m: map<nat, Op>, order: seq<nat>): string
    requires forall p :: p in order ==> p in m
  {
    if order == [] then "" else OpTexts(m, order[..|order| - 1]) + m[order[|order| - 1]].text
  }

  /** order lists, once each, the indices from bound on that are still in m. */
  ghost predicate Lists(order: seq<nat>, m: map<nat, Op>, bound: nat)
  {
    && (forall p :: p in order <==> p in m && p >= bound)
    && (forall i, j :: 0 <= i < j < |order| ==> order[i] != order[j])
  }

  /** Slots of Absorb after the inserts in slots 0..k have been looked at. */
  ghost function AbsorbUpTo(rw: Program, i: nat, k: nat): (r: Program)
    requires k <= i < |rw| && IsReplace(rw[i])
    ensures |r| == |rw|
  {
    seq(|rw|, j requires 0 <= j < |rw| =>
      if j < k && IsInsert(rw[j]) && Covers(rw[i], rw[j].op.index) then Empty
      else if j == i then Live(rw[i].op.(text := LatestFirst(rw, rw[i].op.index, 0, k) + rw[i].op.text))
      else rw[j])
  }

  /** Slots of Combine after the inserts in slots 0..k have been looked at. */
  ghost function CombineUpTo(rw: Program, i: nat, k: nat): (r: Program)
    requires k <= i < |rw| && IsInsert(rw[i])
    ensures |r| == |rw|
  {
    seq(|rw|, j requires 0 <= j < |rw| =>
      if j < k && InsertAt(rw[j], rw[i].op.index) then Empty
      else if j == i then Live(Op.InsertBefore(rw[i].op.index, rw[i].op.text + OldestFirst(rw, rw[i].op.index, k)))
      else rw[j])
  }

  /** The text of the walk over the reduced queue, and behind it, when the walk goes to the end, what
      is left from the last token on, in some order. */
  ghost predicate Rendered(s: Program, tokens: seq<Token>, start: nat, stop: nat, last: nat, r: Result<string>)
    requires Reduce(s).Reduced?
  {
    var m := IndexMap(Reduce(s).rw, |s|).ops;
    && Keyed(m)
    && var (text, rest) := Walk(m, tokens, start, stop);
    if stop != last then r == Ok(text)
    else exists order :: Lists(order, rest, last) && r == Ok(text + OpTexts(rest, order))
  }

  class Rewriter {
    const tokens: seq<Token>
    var programs: map<string, Program>
    /** How often the latest reduction printed its notice about merging two deletes. */
    var notices: nat

    constructor (tokens: seq<Token>)
      ensures this.tokens == tokens && programs == map[DEFAULT_PROGRAM_NAME := []] && notices == 0
    {
      this.tokens := tokens;
      programs := map[DEFAULT_PROGRAM_NAME := []];
      notices := 0;
    }

    function ProgramOf(name: string): Program
      reads this`programs
    {
      if name in programs then programs[name] else []
    }

    /** Every queue holds only what the queueing methods admit. */
    ghost predicate Valid()
      reads this
    {
      forall name :: name in programs ==> WellFormed(programs[name], |tokens|)
    }

    method InsertBefore(name: string, index: SizeT, text: string)
      requires Valid()
      modifies this`programs
      ensures Valid()
      ensures programs == old(programs)[name := old(ProgramOf(name)) + [Live(Op.InsertBefore(index, text))]]
    {
      programs := programs[name := ProgramOf(name) + [Live(Op.InsertBefore(index, text))]];
    }

    /** Inserting after a token inserts before the next one, also past the end. */
    method InsertAfter(name: string, index: SizeT, text: string)
      requires Valid()
      modifies this`programs
      ensures Valid()
      ensures programs == old(programs)[name :=
        old(ProgramOf(name)) + [Live(Op.InsertBefore(if index == SIZE_MAX then 0 else index + 1, text))]]
    {
      InsertBefore(name, (index + 1) % (SIZE_MAX + 1), text);
    }

    method Replace(name: string, from: SizeT, to: SizeT, text: string) returns (r: Result<()>)
      requires Valid()
      modifies this`programs
      ensures Valid()
      ensures r.Ok? <==> from <= to < |tokens|
      ensures r.Ok? ==> programs == old(programs)[name := old(ProgramOf(name)) + [Live(Op.Replace(from, to, text))]]
      ensures r.Err? ==> r.error == RangeInvalid && programs == old(programs)
    {
      if from > to || to >= |tokens| {
        return Err(RangeInvalid);
      }
      programs := programs[name := ProgramOf(name) + [Live(Op.Replace(from, to, text))]];
      return Ok(());
    }

    method Delete(name: string, from: SizeT, to: SizeT) returns (r: Result<()>)
      requires Valid()
      modifies this`programs
      ensures Valid()
      ensures r.Ok? <==> from <= to < |tokens|
      ensures r.Ok? ==> programs == old(programs)[name := old(ProgramOf(name)) + [Live(Op.Replace(from, to, ""))]]
      ensures r.Err? ==> r.error == RangeInvalid && programs == old(programs)
    {
      r := Replace(name, from, to, "");
    }

    /** Wipes or takes over the inserts queued before the replace in slot i and in its range. */
    method AbsorbInserts(name: string, i: nat)
      requires name in programs && i < |programs[name]| && IsReplace(programs[name][i])
      requires programs[name][i].op.index <= programs[name][i].op.lastIndex
      modifies this`programs
      ensures programs == old(programs)[name := Absorb(old(programs)[name], i)]
    {
      ghost var rw := programs[name];
      AbsorbStart(rw, i);
      for k := 0 to i
        invariant programs == old(programs)[name := AbsorbUpTo(rw, i, k)]
      {
        var rewrites := programs[name];
        AbsorbStep(rw, i, k);
        if IsInsert(rewrites[k]) {
          var iop, rop := rewrites[k].op, rewrites[i].op;
          if iop.index == rop.index {
            programs := programs[name := rewrites[k := Empty][i := Live(rop.(text := iop.text + rop.text))]];
          } else if iop.index > rop.index && iop.index <= rop.lastIndex {
            programs := programs[name := rewrites[k := Empty]];
          }
        }
      }
      assert AbsorbUpTo(rw, i, i) == Absorb(rw, i);
    }

    /** Drops, merges or rejects the replaces queued before the one in slot i. */
    method DropReplaces(name: string, i: nat) returns (r: Result<()>)
      requires name in programs && i < |programs[name]| && IsReplace(programs[name][i])
      modifies this
      ensures var d := Drop(old(programs)[name], old(notices), i, i);
        && programs == old(programs)[name := d.rw]
        && notices == d.merges
        && r == if d.Failed? then Err(d.error) else Ok(())
    {
      ghost var rw, n := programs[name], notices;
      for k := 0 to i
        invariant Drop(rw, n, i, k).Reduced?
        invariant programs == old(programs)[name := Drop(rw, n, i, k).rw] && notices == Drop(rw, n, i, k).merges
      {
        var rewrites := programs[name];
        if IsReplace(rewrites[k]) {
          var prev, rop := rewrites[k].op, rewrites[i].op;
          if prev.index >= rop.index && prev.lastIndex <= rop.lastIndex {
            programs := programs[name := rewrites[k := Empty]];
          } else {
            var disjoint := prev.lastIndex < rop.index || prev.index > rop.lastIndex;
            if prev.text == "" && rop.text == "" && !disjoint {
              var merged := Op.Replace(Min(prev.index, rop.index), Max(prev.lastIndex, rop.lastIndex), rop.text);
              programs := programs[name := rewrites[k := Empty][i := Live(merged)]];
              notices := notices + 1;
            } else if !disjoint {
              assert Drop(rw, n, i, k + 1) == Failed(rewrites, notices, ReplaceOverlap);
              DropFailed(rw, n, i, k + 1);
              return Err(ReplaceOverlap);
            }
          }
        }
        assert DropOne(Drop(rw, n, i, k).rw, Drop(rw, n, i, k).merges, i, k) == Drop(rw, n, i, k + 1);
      }
      return Ok(());
    }

    /** Moves the text of earlier inserts at the same token into the insert in slot i. */
    method CombineInserts(name: string, i: nat)
      requires name in programs && i < |programs[name]| && IsInsert(programs[name][i])
      modifies this`programs
      ensures programs == old(programs)[name := Combine(old(programs)[name], i)]
    {
      ghost var rw := programs[name];
      CombineStart(rw, i);
      for k := 0 to i
        invariant programs == old(programs)[name := CombineUpTo(rw, i, k)]
      {
        var rewrites := programs[name];
        CombineStep(rw, i, k);
        if IsInsert(rewrites[k]) {
          var prev, iop := rewrites[k].op, rewrites[i].op;
          if prev.index == iop.index {
            programs := programs[name := rewrites[k := Empty][i := Live(Op.InsertBefore(iop.index, iop.text + prev.text))]];
          }
        }
      }
      assert CombineUpTo(rw, i, i) == Combine(rw, i);
    }

    /** Hands the text of the insert in slot i to an earlier replace that starts at its token. */
    method PrependToReplaces(name: string, i: nat) returns (r: Result<()>)
      requires name in programs && i < |programs[name]| && IsInsert(programs[name][i])
      modifies this`programs
      ensures var rw := old(programs)[name];
        var d := Prepend(rw, old(notices), rw[i].op, i, i);
        && programs == old(programs)[name := d.rw]
        && notices == d.merges
        && r == if d.Failed? then Err(d.error) else Ok(())
    {
      ghost var rw := programs[name];
      var iop := programs[name][i].op;
      PrependMerges(rw, notices, iop, i, i);
      for k := 0 to i
        invariant Prepend(rw, notices, iop, i, k).Reduced?
        invariant programs == old(programs)[name := Prepend(rw, notices, iop, i, k).rw]
      {
        var rewrites := programs[name];
        PrependMerges(rw, notices, iop, i, k);
        if IsReplace(rewrites[k]) {
          var rop := rewrites[k].op;
          if iop.index == rop.index {
            programs := programs[name := rewrites[k := Live(rop.(text := iop.text + rop.text))][i := Empty]];
          } else if iop.index >= rop.index && iop.index <= rop.lastIndex {
            PrependFailed(rw, notices, iop, i, k + 1);
            return Err(InsertInsideReplace);
          }
        }
      }
      return Ok(());
    }

    /** Builds the final map, refusing a second operation at an index. */
    method BuildIndexMap(name: string) returns (r: Result<map<nat, Op>>)
      requires name in programs
      ensures var m := IndexMap(programs[name], |programs[name]|);
        r == if m.Duplicate? then Err(DuplicateIndex) else Ok(m.ops)
    {
      var rewrites := programs[name];
      var m: map<nat, Op> := map[];
      for k := 0 to |rewrites|
        invariant IndexMap(rewrites, k) == Indexed(m)
      {
        if rewrites[k].Live? {
          if rewrites[k].op.index in m {
            IndexMapDuplicate(rewrites, k + 1);
            return Err(DuplicateIndex);
          }
          m := m[rewrites[k].op.index := rewrites[k].op];
        }
      }
      return Ok(m);
    }

    /** First pass of the reduction: the replaces. */
    method ReduceReplaces(name: string) returns (r: Result<()>)
      requires Valid() && name in programs
      modifies this
      ensures var rw := old(programs)[name];
        var w := WalkReplaces(rw, |rw|);
        && programs == old(programs)[name := w.rw]
        && notices == w.merges
        && r == if w.Failed? then Err(w.error) else Ok(())
    {
      hide Absorb, Drop, WellFormed;
      ghost var rw := programs[name];
      assert WalkReplaces(rw, 0) == Reduced(rw, 0);
      hide WalkReplaces;
      notices := 0;
      for i := 0 to |programs[name]|
        invariant WalkReplaces(rw, i).Reduced?
        invariant programs == old(programs)[name := WalkReplaces(rw, i).rw]
        invariant notices == WalkReplaces(rw, i).merges
      {
        WalkReplacesNext(rw, i);
        if IsReplace(programs[name][i]) {
          StillRanged(rw, |tokens|, i);
          AbsorbInserts(name, i);
          var ok := DropReplaces(name, i);
          if ok.Err? {
            WalkReplacesFailed(rw, i + 1);
            return Err(ok.error);
          }
        }
      }
      return Ok(());
    }

    /** Second pass of the reduction: the inserts. */
    method ReduceInserts(name: string) returns (r: Result<()>)
      requires name in programs
      modifies this`programs
      ensures var rw := old(programs)[name];
        var w := WalkInserts(rw, notices, |rw|);
        && programs == old(programs)[name := w.rw]
        && r == if w.Failed? then Err(w.error) else Ok(())
    {
      hide Combine, Prepend;
      ghost var rw := programs[name];
      WalkInsertsStart(rw, notices);
      hide WalkInserts;
      for i := 0 to |programs[name]|
        invariant WalkInserts(rw, notices, i).Reduced?
        invariant programs == old(programs)[name := WalkInserts(rw, notices, i).rw]
      {
        WalkInsertsNext(rw, notices, i);
        InsertsMerges(rw, notices, i);
        if IsInsert(programs[name][i]) {
          CombineInserts(name, i);
          var ok := PrependToReplaces(name, i);
          if ok.Err? {
            WalkInsertsFailed(rw, notices, i + 1);
            return Err(ok.error);
          }
        }
      }
      return Ok(());
    }

    /** Reduces the queue in place to one operation per index. */
    method ReduceToSingleOperationPerIndex(name: string) returns (r: Result<map<nat, Op>>)
      requires Valid() && name in programs
      modifies this
      ensures var d := Reduce(old(programs)[name]);
        && programs == old(programs)[name := d.rw]
        && notices == d.merges
        && r == if d.Failed? then Err(d.error) else Ok(IndexMap(d.rw, |d.rw|).ops)
    {
      ghost var rw := programs[name];
      var ok := ReduceReplaces(name);
      if ok.Err? {
        return Err(ok.error);
      }
      InsertsMerges(programs[name], notices, |rw|);
      ok := ReduceInserts(name);
      if ok.Err? {
        return Err(ok.error);
      }
      r := BuildIndexMap(name);
    }

    /** Executes the operations from token start on and emits the tokens between them. */
    method WalkTokens(ops: map<nat, Op>, start: nat, stop: nat) returns (buf: string, m: map<nat, Op>)
      requires Keyed(ops)
      ensures (buf, m) == Walk(ops, tokens, start, stop)
    {
      var i: nat := start;
      m, buf := ops, "";
      while i <= stop && i < |tokens|
        invariant Keyed(m)
        invariant buf + Walk(m, tokens, i, stop).0 == Walk(ops, tokens, start, stop).0
        invariant Walk(m, tokens, i, stop).1 == Walk(ops, tokens, start, stop).1
        decreases stop + 1 - i
      {
        ghost var t := Walk(Without(m, i), tokens, Next(m, i), stop).0;
        assert buf + (Shown(m, tokens, i) + t) == (buf + Shown(m, tokens, i)) + t;
        if i !in m {
          m := Without(m, i);
          buf, i := buf + TokenText(tokens, i), i + 1;
        } else {
          var op := m[i];
          m := Without(m, i);
          if op.InsertBefore? {
            buf, i := buf + (op.text + TokenText(tokens, i)), i + 1;
          } else {
            buf, i := buf + op.text, op.lastIndex + 1;
          }
        }
      }
      assert Walk(m, tokens, i, stop).0 == "" && buf + "" == buf;
    }

    /** Texts of the operations at or after bound, in the unspecified order of a hash map. */
    static method RestTexts(m: map<nat, Op>, bound: nat) returns (buf: string, ghost order: seq<nat>)
      ensures Lists(order, m, bound)
      ensures buf == OpTexts(m, order)
    {
      var keys := set p | p in m && p >= bound;
      buf, order := "", [];
      while keys != {}
        invariant forall p :: p in keys ==> p in m && p >= bound && p !in order
        invariant forall p :: p in m && p >= bound ==> p in keys || p in order
        invariant forall p :: p in order ==> p in m && p >= bound
        invariant forall i, j :: 0 <= i < j < |order| ==> order[i] != order[j]
        invariant buf == OpTexts(m, order)
      {
        var p :| p in keys;
        keys := keys - {p};
        buf := buf + m[p].text;
        assert (order + [p])[..|order|] == order;
        order := order + [p];
      }
    }

    /** Text of an interval of the token list, altered by the operations of one queue. On an error
        the queue keeps what the reduction had done to it so far. */
    method GetText(name: string, a: SizeT, b: SizeT) returns (r: Result<string>)
      requires Valid()
      modifies this
      ensures Valid()
      ensures var s, n := old(ProgramOf(name)), |tokens|;
        var start, last := if a == SIZE_MAX then 0 else a, if n == 0 then SIZE_MAX else n - 1;
        var stop := if b > last then last else b;
        && programs == old(programs)[name := Reduce(s).rw]
        && (s == [] ==> r == Ok(if a == SIZE_MAX || b == SIZE_MAX then "" else PlainText(tokens, a, b)))
        && notices == (if s == [] then old(notices) else Reduce(s).merges)
        && (s != [] && Reduce(s).Failed? ==> r == Err(Reduce(s).error))
        && (s != [] && Reduce(s).Reduced? ==>
              Rendered(s, tokens, start, stop, last, r))
    {
      if name !in programs {
        programs := programs[name := []];
      }
      var start := a;
      var last := if |tokens| == 0 then SIZE_MAX else |tokens| - 1;
      var stop := if b > last then last else b;
      if start == SIZE_MAX {
        start := 0;
      }
      ghost var s := programs[name];
      if programs[name] == [] {
        return Ok(if a == SIZE_MAX || b == SIZE_MAX then "" else PlainText(tokens, a, b));
      }
      ReduceWellFormed(s, |tokens|);
      var indexToOp := ReduceToSingleOperationPerIndex(name);
      if indexToOp.Err? {
        return Err(indexToOp.error);
      }
      IndexMapKeyed(Reduce(s).rw, |tokens|, |s|);
      var buf, m := WalkTokens(indexToOp.value, start, stop);
      if stop == last {
        var rest, order := RestTexts(m, last);
        buf := buf + rest;
      }
      return Ok(buf);
    }

    /** Main result. The whole text of every script that reduces, without inserts beyond the token
        count: token by token what the queue between the passes shows, then the inserts past the end,
        then, or before those, the inserts stranded at the last token. On clean scripts nothing is
        stranded and each token shows what the script means. Only an empty token list loses inserts. */
    method GetWholeText(name: string) returns (r: Result<string>)
      requires Valid() && |tokens| <= SIZE_MAX
      modifies this
      ensures Valid()
      ensures var s, n := old(ProgramOf(name)), |tokens|;
        && programs == old(programs)[name := Reduce(s).rw]
        && notices == (if s == [] then old(notices) else Reduce(s).merges)
        && (r.Err? <==> Reduce(s).Failed?) && (r.Err? ==> r.error == Reduce(s).error)
        && (Reduce(s).Reduced? && InsertsUpTo(s, n) && OnlyEofLast(tokens) ==>
              r.Ok? && (if n == 0 then r.value == "" else WholeText(s, tokens, r.value)))
        && (Clean(s) && InsertsUpTo(s, n) && OnlyEofLast(tokens) ==>
              r == Ok(if n == 0 then "" else Pieces(s, tokens, 0, 0, n - 1) + LatestFirst(s, n, 0, |s|)))
    {
      ghost var s := ProgramOf(name);
      assert WellFormed([], |tokens|);
      hide Reduce, Rendered, WholeText, Clean, PlainText, Pieces, LatestFirst, OnlyEofLast, InsertsUpTo, WellFormed;
      r := GetText(name, 0, if |tokens| == 0 then SIZE_MAX else |tokens| - 1);
      WholeAnswer(s, tokens, r);
    }
  }

  /** No insert lies beyond the position just past the last token. */
  ghost predicate InsertsUpTo(s: Program, n: nat)
  {
    forall k :: 0 <= k < |s| && IsInsert(s[k]) ==> s[k].op.index <= n
  }

  /** Text left at token p by inserts inside a range that merging has put around them. */
  ghost function Stranded(s: Program, p: nat): string
  {
    if Skipped(Merged(s, |s|), 0, p) then LatestFirst(s, p, CoveredUpTo(s, p, |s|), |s|) else ""
  }

  /** What is shown at each token, then what is left at the end, in either order. */
  ghost predicate WholeText(s: Program, tokens: seq<Token>, text: string)
    requires |tokens| > 0
  {
    var n := |tokens|;
    var shown := QueuePieces(Merged(s, |s|), tokens, 0, 0, n - 1);
    var atEnd, stranded := LatestFirst(s, n, 0, |s|), Stranded(s, n - 1);
    text == shown + (atEnd + stranded) || text == shown + (stranded + atEnd)
  }

  /** The text of the operation at p, if the walk left it over. */
  ghost function Left(rest: map<nat, Op>, p: nat): string
  {
    if p in rest then rest[p].text else ""
  }

  lemma OpTextsNone(m: map<nat, Op>)
    ensures OpTexts(m, []) == ""
  {
  }

  lemma OpTextsNext(m: map<nat, Op>, order: seq<nat>, p: nat)
    requires p in m && forall q :: q in order ==> q in m
    ensures OpTexts(m, order + [p]) == OpTexts(m, order) + m[p].text
  {
    assert (order + [p])[..|order|] == order;
  }

  /** A list without repetitions of two numbers at most. */
  lemma ShortOrder(order: seq<nat>, p: nat, q: nat)
    requires forall k :: 0 <= k < |order| ==> order[k] == p || order[k] == q
    requires forall i, j :: 0 <= i < j < |order| ==> order[i] != order[j]
    ensures |order| <= 2
  {
    if |order| > 1 {
      assert order[|order| - 1] != order[0] || |order| == 1;
      assert order[1] != order[0];
    }
  }

  lemma TwoListed(m: map<nat, Op>, order: seq<nat>)
    requires |order| == 2 && order[0] in m && order[1] in m
    ensures forall k :: k in order ==> k in m
    ensures OpTexts(m, order) == m[order[0]].text + m[order[1]].text
  {
    assert order == [order[0]] + [order[1]];
    OneListed(m, order[0]);
    OpTextsNext(m, [order[0]], order[1]);
  }

  lemma OneListed(m: map<nat, Op>, p: nat)
    requires p in m
    ensures OpTexts(m, [p]) == m[p].text
  {
    OpTextsNone(m);
    OpTextsNext(m, [], p);
    assert [] + [p] == [p] && "" + m[p].text == m[p].text;
  }

  /** When nothing beyond p + 1 is left, the two texts are emitted in one of the two orders. */
  lemma TwoLeft(rest: map<nat, Op>, order: seq<nat>, p: nat)
    requires Lists(order, rest, p) && forall k :: k in rest ==> k <= p + 1
    ensures var a, b := Left(rest, p), Left(rest, p + 1);
      OpTexts(rest, order) == a + b || OpTexts(rest, order) == b + a
  {
    hide OpTexts;
    assert p in order <==> p in rest;
    assert p + 1 in order <==> p + 1 in rest;
    forall k | 0 <= k < |order|
      ensures order[k] == p || order[k] == p + 1
    {
      assert order[k] in order;
    }
    ShortOrder(order, p, p + 1);
    if |order| == 0 {
      OpTextsNone(rest);
    } else if |order| == 1 {
      OneListed(rest, order[0]);
      assert order == [order[0]];
    } else {
      TwoListed(rest, order);
    }
  }

  lemma NothingBeyond(s: Program, m: map<nat, Op>, n: nat, p: nat)
    requires WellFormed(s, n) && WellFormed(Merged(s, |s|), n) && InsertsUpTo(s, n)
    requires MapAt(Merged(s, |s|), m, p) && p > n
    ensures p !in m
  {
    PastEnd(s, m, n, p);
    hide Merged, MapAt;
  }

  lemma LeftPastEnd(s: Program, m: map<nat, Op>, rest: map<nat, Op>, n: nat)
    requires n > 0 && WellFormed(s, n) && WellFormed(Merged(s, |s|), n)
    requires MapAt(Merged(s, |s|), m, n) && LeftOver(Merged(s, |s|), m, rest, 0, 0, n - 1, n)
    ensures Left(rest, n) == LatestFirst(s, n, 0, |s|)
  {
    PastEnd(s, m, n, n);
    hide Merged, LatestFirst, MapAt;
    if n !in m { NothingInserted(s, n); }
  }

  lemma LeftAtLast(s: Program, m: map<nat, Op>, rest: map<nat, Op>, n: nat, p: nat)
    requires MapAt(Merged(s, |s|), m, p) && LeftOver(Merged(s, |s|), m, rest, 0, 0, p, n) && p < n
    ensures Left(rest, p) == Stranded(s, p)
  {
    MergedLatestFirst(s, p);
    hide Merged, LatestFirst, CoveredUpTo;
    if p !in m { NothingInserted(Merged(s, |s|), p); }
  }

  /** What the whole-stream walk leaves to be emitted past the end. */
  lemma WholeTail(s: Program, tokens: seq<Token>, order: seq<nat>)
    requires WellFormed(s, |tokens|) && Reduce(s).Reduced? && InsertsUpTo(s, |tokens|) && |tokens| <= SIZE_MAX
    requires var m := IndexMap(Reduce(s).rw, |s|);
      m.Indexed? && Keyed(m.ops) &&
      var last := if |tokens| == 0 then SIZE_MAX else |tokens| - 1;
      Lists(order, Walk(m.ops, tokens, 0, last).1, last)
    ensures var n, last := |tokens|, if |tokens| == 0 then SIZE_MAX else |tokens| - 1;
      var (text, rest) := Walk(IndexMap(Reduce(s).rw, |s|).ops, tokens, 0, last);
      if n == 0 then text + OpTexts(rest, order) == "" else WholeText(s, tokens, text + OpTexts(rest, order))
  {
    hide Reduce, Merged, IndexMap, Walk, Stranded, Quiet, LeftOver, LatestFirst, OpTexts, WholeText, InsertsUpTo,
      Left, QueuePieces, Keyed, WellFormed, IsMapOf;
    var n, t := |tokens|, Merged(s, |s|);
    var last := if n == 0 then SIZE_MAX else n - 1;
    RenderMerged(s, tokens, 0, last);
    var m := IndexMap(Reduce(s).rw, |s|).ops;
    var (text, rest) := Walk(m, tokens, 0, last);
    QuietWellFormed(t, n);
    LeftFrom(t, m, rest, 0, 0, last, n);
    NoneBeyond(s, m, n);
    TwoLeft(rest, order, last);
    if n > 0 {
      LeftAtEnd(s, m, rest, n);
      Assembled(s, tokens, text, OpTexts(rest, order));
    } else {
      NoneLeft(rest, last);
      PiecesNext(t, tokens, 0, 0, last);
    }
  }

  lemma NoneLeft(rest: map<nat, Op>, p: nat)
    requires p !in rest && p + 1 !in rest
    ensures Left(rest, p) == "" == Left(rest, p + 1)
  {
  }

  lemma NoneBeyond(s: Program, m: map<nat, Op>, n: nat)
    requires WellFormed(s, n) && WellFormed(Merged(s, |s|), n) && InsertsUpTo(s, n)
    requires IsMapOf(Merged(s, |s|), m, n)
    ensures forall p :: p in m ==> p <= n
  {
    hide Merged, MapAt, WellFormed, InsertsUpTo;
    forall p: nat | p > n
      ensures p !in m
    {
      assert MapAt(Merged(s, |s|), m, p);
      NothingBeyond(s, m, n, p);
    }
  }

  lemma LeftAtEnd(s: Program, m: map<nat, Op>, rest: map<nat, Op>, n: nat)
    requires n > 0 && WellFormed(s, n) && WellFormed(Merged(s, |s|), n) && IsMapOf(Merged(s, |s|), m, n)
    requires LeftOver(Merged(s, |s|), m, rest, 0, 0, n - 1, n)
    ensures Left(rest, n - 1) == Stranded(s, n - 1) && Left(rest, n) == LatestFirst(s, n, 0, |s|)
  {
    hide Merged, MapAt, Keyed, LeftOver, Stranded, Left, LatestFirst, WellFormed;
    assert MapAt(Merged(s, |s|), m, n - 1) && MapAt(Merged(s, |s|), m, n);
    LeftAtLast(s, m, rest, n, n - 1);
    LeftPastEnd(s, m, rest, n);
  }

  lemma Assembled(s: Program, tokens: seq<Token>, text: string, tail: string)
    requires |tokens| > 0 && text == QueuePieces(Merged(s, |s|), tokens, 0, 0, |tokens| - 1)
    requires var a, b := Stranded(s, |tokens| - 1), LatestFirst(s, |tokens|, 0, |s|);
      tail == a + b || tail == b + a
    ensures WholeText(s, tokens, text + tail)
  {
  }

  lemma WholeRendered(s: Program, tokens: seq<Token>, r: Result<string>)
    requires WellFormed(s, |tokens|) && Reduce(s).Reduced? && InsertsUpTo(s, |tokens|) && |tokens| <= SIZE_MAX
    requires var last := if |tokens| == 0 then SIZE_MAX else |tokens| - 1; Rendered(s, tokens, 0, last, last, r)
    ensures r.Ok? && (if |tokens| == 0 then r.value == "" else WholeText(s, tokens, r.value))
  {
    ReducedIndexed(s);
    hide Reduce, Walk, WholeText, InsertsUpTo, Lists, OpTexts, Keyed, WellFormed;
    var m := IndexMap(Reduce(s).rw, |s|).ops;
    var last := if |tokens| == 0 then SIZE_MAX else |tokens| - 1;
    var (text, rest) := Walk(m, tokens, 0, last);
    var order :| Lists(order, rest, last) && r == Ok(text + OpTexts(rest, order));
    WholeTail(s, tokens, order);
  }

  lemma WholeAnswer(s: Program, tokens: seq<Token>, r: Result<string>)
    requires WellFormed(s, |tokens|) && |tokens| <= SIZE_MAX
    requires s == [] ==> r == Ok(if |tokens| == 0 then "" else PlainText(tokens, 0, |tokens| - 1))
    requires var last := if |tokens| == 0 then SIZE_MAX else |tokens| - 1;
      s != [] && Reduce(s).Reduced? ==> Rendered(s, tokens, 0, last, last, r)
    ensures Reduce(s).Reduced? && InsertsUpTo(s, |tokens|) && OnlyEofLast(tokens) ==>
      r.Ok? && (if |tokens| == 0 then r.value == "" else WholeText(s, tokens, r.value))
    ensures Clean(s) && InsertsUpTo(s, |tokens|) && OnlyEofLast(tokens) ==>
      r == Ok(if |tokens| == 0 then "" else Pieces(s, tokens, 0, 0, |tokens| - 1) + LatestFirst(s, |tokens|, 0, |s|))
  {
    hide Reduce, Rendered, WholeText, Clean, PlainText, Pieces, LatestFirst, OnlyEofLast, InsertsUpTo, WellFormed;
    if Clean(s) {
      ReduceClean(s, |tokens|);
    }
    if Reduce(s).Reduced? && InsertsUpTo(s, |tokens|) && OnlyEofLast(tokens) {
      if s == [] {
        if |tokens| > 0 {
          PlainWhole(s, tokens);
        }
      } else {
        WholeRendered(s, tokens, r);
      }
      if Clean(s) && |tokens| > 0 {
        CleanWhole(s, tokens, r.value);
      }
    }
  }

  lemma ReducedIndexed(s: Program)
    requires Reduce(s).Reduced?
    ensures IndexMap(Reduce(s).rw, |s|).Indexed?
  {
  }

  lemma QuietWellFormed(t: Program, n: nat)
    requires Quiet(t, n)
    ensures WellFormed(t, n)
  {
  }

  lemma LeftFrom(t: Program, m: map<nat, Op>, rest: map<nat, Op>, start: nat, i: nat, stop: nat, n: nat)
    requires LeftOver(t, m, rest, start, i, stop, n)
    ensures forall p :: p in rest ==> p in m
  {
  }

  /** On clean scripts nothing is stranded. */
  lemma CleanWhole(s: Program, tokens: seq<Token>, text: string)
    requires WellFormed(s, |tokens|) && Clean(s) && |tokens| > 0 && WholeText(s, tokens, text)
    ensures text == Pieces(s, tokens, 0, 0, |tokens| - 1) + LatestFirst(s, |tokens|, 0, |s|)
  {
    hide Merged, Pieces, QueuePieces, Stranded, Clean, WellFormed, LatestFirst;
    CleanPieces(s, tokens, 0, 0, |tokens| - 1);
    NoneStranded(s, |tokens|, |tokens| - 1);
    var atEnd := LatestFirst(s, |tokens|, 0, |s|);
    assert atEnd + "" == atEnd == "" + atEnd;
  }

  lemma NoneStranded(s: Program, n: nat, p: nat)
    requires WellFormed(s, n) && Clean(s)
    ensures Stranded(s, p) == ""
  {
    SkippedInside(s, n, 0, p);
    hide Clean, Merged, CoveredUpTo, Skipped, LatestFirst;
    if Skipped(Merged(s, |s|), 0, p) {
      NoneInside(s, p);
    }
  }

  /** Without operations the plain text is shown. */
  lemma PlainWhole(s: Program, tokens: seq<Token>)
    requires |s| == 0 && OnlyEofLast(tokens) && |tokens| > 0
    ensures WholeText(s, tokens, PlainText(tokens, 0, |tokens| - 1))
  {
    hide *;
    var n := |tokens|;
    EmptyClean(s, n);
    PlainMeaning(s, tokens, 0, 0, n - 1);
    CleanPieces(s, tokens, 0, 0, n - 1);
    NoneStranded(s, n, n - 1);
    PlainIsWhole(s, tokens, PlainText(tokens, 0, n - 1));
  }

  lemma EmptyClean(s: Program, n: nat)
    requires |s| == 0
    ensures WellFormed(s, n) && Clean(s)
    ensures LatestFirst(s, n, 0, |s|) == ""
  {
  }

  lemma PlainIsWhole(s: Program, tokens: seq<Token>, text: string)
    requires |tokens| > 0 && text == QueuePieces(Merged(s, |s|), tokens, 0, 0, |tokens| - 1)
    requires LatestFirst(s, |tokens|, 0, |s|) == "" && Stranded(s, |tokens| - 1) == ""
    ensures WholeText(s, tokens, text)
  {
    hide Merged, QueuePieces, LatestFirst, Stranded;
    assert text + ("" + "") == text;
  }

  /** Main result. Reducing a clean script keeps its meaning on every interval, so asking for the
      text again gives the same text. */
  lemma ReduceKeepsMeaning(s: Program, tokens: seq<Token>, start: nat, stop: nat)
    requires WellFormed(s, |tokens|) && Clean(s)
    ensures WellFormed(Reduce(s).rw, |tokens|) && Clean(Reduce(s).rw)
    ensures Pieces(Reduce(s).rw, tokens, start, start, stop) == Pieces(s, tokens, start, start, stop)
  {
    ReduceClean(s, |tokens|);
    ReduceWellFormed(s, |tokens|);
    ReduceClean(Final(s), |tokens|);
    hide Clean, WellFormed, Final, Reduce, IndexMap, Walk, Pieces;
    RenderMeaning(s, tokens, start, stop);
    RenderMeaning(Final(s), tokens, start, stop);
  }

  // ---------------------------------------------------------------- helpers of the methods

  lemma {:induction false} IndexMapKeyed(rw: Program, n: nat, i: nat)
    requires WellFormed(rw, n) && i <= |rw| && IndexMap(rw, i).Indexed?
    ensures Keyed(IndexMap(rw, i).ops)
  {
    if i > 0 {
      IndexMapKeyed(rw, n, i - 1);
    }
  }

  lemma StillRanged(rw: Program, n: nat, i: nat)
    requires WellFormed(rw, n) && i < |rw| && WalkReplaces(rw, i).Reduced? && IsReplace(WalkReplaces(rw, i).rw[i])
    ensures var rop := WalkReplaces(rw, i).rw[i].op; rop.index <= rop.lastIndex
  {
    WalkReplacesKeeps(rw, i);
  }

  lemma AbsorbStart(rw: Program, i: nat)
    requires i < |rw| && IsReplace(rw[i])
    ensures AbsorbUpTo(rw, i, 0) == rw
  {
    assert "" + rw[i].op.text == rw[i].op.text;
  }

  /** One turn of the loop over the earlier inserts. */
  lemma AbsorbStep(rw: Program, i: nat, k: nat)
    requires k < i < |rw| && IsReplace(rw[i])
    ensures var a, b := AbsorbUpTo(rw, i, k), AbsorbUpTo(rw, i, k + 1);
      && a[k] == rw[k] && IsReplace(a[i]) && |a| == |b| == |rw|
      && a[i].op.index == rw[i].op.index && a[i].op.lastIndex == rw[i].op.lastIndex
      && (InsertAt(rw[k], rw[i].op.index) && rw[i].op.index <= rw[i].op.lastIndex ==>
            b == a[k := Empty][i := Live(a[i].op.(text := rw[k].op.text + a[i].op.text))])
      && (!InsertAt(rw[k], rw[i].op.index) ==>
            b == if IsInsert(rw[k]) && Covers(rw[i], rw[k].op.index) then a[k := Empty] else a)
  {
    var t := LatestFirst(rw, rw[i].op.index, 0, k);
    assert "" + t == t;
    if InsertAt(rw[k], rw[i].op.index) {
      assert rw[k].op.text + (t + rw[i].op.text) == (rw[k].op.text + t) + rw[i].op.text;
    }
  }

  lemma CombineStart(rw: Program, i: nat)
    requires i < |rw| && IsInsert(rw[i])
    ensures CombineUpTo(rw, i, 0) == rw
  {
    assert rw[i].op.text + "" == rw[i].op.text;
  }

  lemma CombineStep(rw: Program, i: nat, k: nat)
    requires k < i < |rw| && IsInsert(rw[i])
    ensures var a, b := CombineUpTo(rw, i, k), CombineUpTo(rw, i, k + 1);
      && a[k] == rw[k] && InsertAt(a[i], rw[i].op.index)
      && (InsertAt(rw[k], rw[i].op.index) ==>
            b == a[k := Empty][i := Live(Op.InsertBefore(a[i].op.index, a[i].op.text + rw[k].op.text))])
      && (!InsertAt(rw[k], rw[i].op.index) ==> b == a)
  {
    var t := OldestFirst(rw, rw[i].op.index, k);
    assert t + "" == t;
    if InsertAt(rw[k], rw[i].op.index) {
      assert (rw[i].op.text + t) + rw[k].op.text == rw[i].op.text + (t + rw[k].op.text);
    }
  }

  lemma {:induction false} PrependFailed(rw: Program, merges: nat, iop: Op, i: nat, k: nat)
    requires k <= i < |rw| && Prepend(rw, merges, iop, i, k).Failed?
    ensures Prepend(rw, merges, iop, i, i) == Prepend(rw, merges, iop, i, k)
    decreases i - k
  {
    if k < i {
      PrependFailed(rw, merges, iop, i, k + 1);
    }
  }

  lemma {:induction false} IndexMapDuplicate(rw: Program, k: nat)
    requires k <= |rw| && IndexMap(rw, k).Duplicate?
    ensures IndexMap(rw, |rw|).Duplicate?
    decreases |rw| - k
  {
    if k < |rw| {
      IndexMapDuplicate(rw, k + 1);
    }
  }

  lemma {:induction false} WalkReplacesFailed(rw: Program, k: nat)
    requires k <= |rw| && WalkReplaces(rw, k).Failed?
    ensures WalkReplaces(rw, |rw|) == WalkReplaces(rw, k)
    decreases |rw| - k
  {
    if k < |rw| {
      WalkReplacesFailed(rw, k + 1);
    }
  }

  lemma {:induction false} WalkInsertsFailed(rw: Program, merges: nat, k: nat)
    requires k <= |rw| && WalkInserts(rw, merges, k).Failed?
    ensures WalkInserts(rw, merges, |rw|) == WalkInserts(rw, merges, k)
    decreases |rw| - k
  {
    if k < |rw| {
      WalkInsertsFailed(rw, merges, k + 1);
    }
  }

  lemma {:induction false} DropFailed(rw: Program, merges: nat, i: nat, k: nat)
    requires k <= i < |rw| && IsReplace(rw[i]) && Drop(rw, merges, i, k).Failed?
    ensures Drop(rw, merges, i, i) == Drop(rw, merges, i, k)
    decreases i - k
  {
    if k < i {
      DropFailed(rw, merges, i, k + 1);
    }
  }
}
