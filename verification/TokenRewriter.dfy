/**
 The edit queue of TokenStreamRewriter: operations are queued per program, reduced in place to
 one operation per token index, and rendered in a single walk over the tokens.

 A slot of the queue is either a live operation or Empty (the null pointer that the reduction
 leaves behind). An operation's instructionIndex is its position in the queue.
 */
module TokenRewriter {
  import opened Basics

  datatype Token = Token(text: string, isEof: bool)

  datatype Op =
    | InsertBefore(index: nat, text: string)
    | Replace(index: nat, lastIndex: nat, text: string)

  datatype Slot = Empty | Live(op: Op)

  type Program = seq<Slot>

  datatype RewriteError = RangeInvalid | ReplaceOverlap | InsertInsideReplace | DuplicateIndex

  /** A (partial) reduction: the queue it leaves behind and how many deletes it merged. */
  datatype Reduction =
    | Reduced(rw: Program, merges: nat)
    | Failed(rw: Program, merges: nat, error: RewriteError)

  predicate IsInsert(s: Slot) { s.Live? && s.op.InsertBefore? }

  predicate IsReplace(s: Slot) { s.Live? && s.op.Replace? }

  predicate InsertAt(s: Slot, p: nat) { IsInsert(s) && s.op.index == p }

  /** The replace in slot s deletes or overwrites token p. */
  predicate Covers(s: Slot, p: nat) { IsReplace(s) && s.op.index <= p <= s.op.lastIndex }

  predicate Within(a: Op, b: Op)
    requires a.Replace? && b.Replace?
  {
    b.index <= a.index && a.lastIndex <= b.lastIndex
  }

  predicate Disjoint(a: Op, b: Op)
    requires a.Replace? && b.Replace?
  {
    a.lastIndex < b.index || a.index > b.lastIndex
  }

  /** What replace() admits: a nonempty range inside the token list. */
  ghost predicate WellFormed(rw: Program, n: nat)
  {
    forall k :: 0 <= k < |rw| && IsReplace(rw[k]) ==> rw[k].op.index <= rw[k].op.lastIndex < n
  }

  // ---------------------------------------------------------------- the reduction, as functions

  /** Text of the inserts at token p queued in slots lo..hi, the latest one first. */
  function LatestFirst(rw: Program, p: nat, lo: nat, hi: nat): string
    requires hi <= |rw|
  {
    if hi <= lo then ""
    else (if InsertAt(rw[hi - 1], p) then rw[hi - 1].op.text else "") + LatestFirst(rw, p, lo, hi - 1)
  }

  /** The same inserts in queue order; the order in which a later insert appends them. */
  function OldestFirst(rw: Program, p: nat, hi: nat): string
    requires hi <= |rw|
  {
    if hi == 0 then ""
    else OldestFirst(rw, p, hi - 1) + if InsertAt(rw[hi - 1], p) then rw[hi - 1].op.text else ""
  }

  /** The replace in slot i swallows every earlier insert in its range. */
  function Absorb(rw: Program, i: nat): (r: Program)
    requires i < |rw| && IsReplace(rw[i])
    ensures |r| == |rw| && IsReplace(r[i])
  {
    seq(|rw|, k requires 0 <= k < |rw| =>
      if k < i && IsInsert(rw[k]) && Covers(rw[i], rw[k].op.index) then Empty
      else if k == i then Live(rw[i].op.(text := LatestFirst(rw, rw[i].op.index, 0, i) + rw[i].op.text))
      else rw[k])
  }

  /** The replace in slot i meets the earlier slot k. */
  function DropOne(rw: Program, merges: nat, i: nat, k: nat): (r: Reduction)
    requires k < i < |rw| && IsReplace(rw[i])
    ensures |r.rw| == |rw| && IsReplace(r.rw[i])
  {
    if !IsReplace(rw[k]) then Reduced(rw, merges)
    else
      var prev, rop := rw[k].op, rw[i].op;
      if Within(prev, rop) then Reduced(rw[k := Empty], merges)
      else if Disjoint(prev, rop) then Reduced(rw, merges)
      else if prev.text == "" && rop.text == "" then
        var merged := Replace(Min(prev.index, rop.index), Max(prev.lastIndex, rop.lastIndex), rop.text);
        Reduced(rw[k := Empty][i := Live(merged)], merges + 1)
      else Failed(rw, merges, ReplaceOverlap)
  }

  /** The replace in slot i meets the earlier slots 0..k in order. */
  function Drop(rw: Program, merges: nat, i: nat, k: nat): (r: Reduction)
    requires k <= i < |rw| && IsReplace(rw[i])
    ensures |r.rw| == |rw| && IsReplace(r.rw[i])
  {
    if k == 0 then Reduced(rw, merges)
    else
      var d := Drop(rw, merges, i, k - 1);
      if d.Failed? then d else DropOne(d.rw, d.merges, i, k - 1)
  }

  /** First pass, over the slots 0..i. */
  function WalkReplaces(rw: Program, i: nat): (r: Reduction)
    requires i <= |rw|
    ensures |r.rw| == |rw|
  {
    if i == 0 then Reduced(rw, 0)
    else
      var w := WalkReplaces(rw, i - 1);
      if w.Failed? || !IsReplace(w.rw[i - 1]) then w
      else Drop(Absorb(w.rw, i - 1), w.merges, i - 1, i - 1)
  }

  /** The insert in slot i takes over the earlier inserts at its token. */
  function Combine(rw: Program, i: nat): (r: Program)
    requires i < |rw| && IsInsert(rw[i])
    ensures |r| == |rw| && IsInsert(r[i])
  {
    seq(|rw|, k requires 0 <= k < |rw| =>
      if k < i && InsertAt(rw[k], rw[i].op.index) then Empty
      else if k == i then Live(InsertBefore(rw[i].op.index, rw[i].op.text + OldestFirst(rw, rw[i].op.index, i)))
      else rw[k])
  }

  /** The insert iop of slot i meets the earlier slots 0..k; a replace starting at its token takes
      its text. After that the insert is freed but the loop keeps reading it, hence the parameter. */
  function Prepend(rw: Program, merges: nat, iop: Op, i: nat, k: nat): (r: Reduction)
    requires k <= i < |rw|
    ensures |r.rw| == |rw|
  {
    if k == 0 then Reduced(rw, merges)
    else
      var d := Prepend(rw, merges, iop, i, k - 1);
      if d.Failed? || !IsReplace(d.rw[k - 1]) then d
      else
        var rop := d.rw[k - 1].op;
        if iop.index == rop.index then
          Reduced(d.rw[k - 1 := Live(rop.(text := iop.text + rop.text))][i := Empty], merges)
        else if rop.index <= iop.index <= rop.lastIndex then Failed(d.rw, merges, InsertInsideReplace)
        else d
  }

  /** Second pass, over the slots 0..i. */
  function WalkInserts(rw: Program, merges: nat, i: nat): (r: Reduction)
    requires i <= |rw|
    ensures |r.rw| == |rw|
  {
    if i == 0 then Reduced(rw, merges)
    else
      var w := WalkInserts(rw, merges, i - 1);
      if w.Failed? || !IsInsert(w.rw[i - 1]) then w
      else
        var c := Combine(w.rw, i - 1);
        Prepend(c, merges, c[i - 1].op, i - 1, i - 1)
  }

  // One turn of each loop, for proofs that need no more.

  lemma DropNext(rw: Program, merges: nat, i: nat, k: nat)
    requires k < i < |rw| && IsReplace(rw[i])
    ensures var d := Drop(rw, merges, i, k);
      Drop(rw, merges, i, k + 1) == if d.Failed? then d else DropOne(d.rw, d.merges, i, k)
  {
  }

  lemma WalkReplacesNext(s: Program, i: nat)
    requires i < |s|
    ensures var w := WalkReplaces(s, i);
      WalkReplaces(s, i + 1) ==
        if w.Failed? || !IsReplace(w.rw[i]) then w else Drop(Absorb(w.rw, i), w.merges, i, i)
  {
  }

  lemma WalkInsertsNext(t: Program, merges: nat, i: nat)
    requires i < |t|
    ensures var w := WalkInserts(t, merges, i);
      WalkInserts(t, merges, i + 1) ==
        if w.Failed? || !IsInsert(w.rw[i]) then w
        else Prepend(Combine(w.rw, i), merges, Combine(w.rw, i)[i].op, i, i)
  {
  }

  datatype IndexResult = Indexed(ops: map<nat, Op>) | Duplicate

  /** The index-to-operation map of the slots 0..i. */
  function IndexMap(rw: Program, i: nat): IndexResult
    requires i <= |rw|
  {
    if i == 0 then Indexed(map[])
    else
      var m := IndexMap(rw, i - 1);
      if m.Duplicate? || rw[i - 1].Empty? then m
      else if rw[i - 1].op.index in m.ops then Duplicate
      else Indexed(m.ops[rw[i - 1].op.index := rw[i - 1].op])
  }

  function Reduce(rw: Program): (r: Reduction)
    ensures |r.rw| == |rw|
  {
    var w := WalkReplaces(rw, |rw|);
    if w.Failed? then w
    else
      var v := WalkInserts(w.rw, w.merges, |rw|);
      if v.Failed? then v
      else if IndexMap(v.rw, |rw|).Duplicate? then Failed(v.rw, v.merges, DuplicateIndex)
      else v
  }

  // ---------------------------------------------------------------- the walk

  function TokenText(tokens: seq<Token>, p: nat): string
  {
    if p < |tokens| && !tokens[p].isEof then tokens[p].text else ""
  }

  /** Every operation sits at its own index. */
  ghost predicate Keyed(m: map<nat, Op>)
  {
    forall p :: p in m ==> m[p].index == p && (m[p].Replace? ==> p <= m[p].lastIndex)
  }

  function Without(m: map<nat, Op>, i: nat): map<nat, Op>
  {
    map p | p in m && p != i :: m[p]
  }

  /** What the walk writes at token i. */
  function Shown(m: map<nat, Op>, tokens: seq<Token>, i: nat): string
  {
    if i !in m then TokenText(tokens, i)
    else if m[i].InsertBefore? then m[i].text + TokenText(tokens, i)
    else m[i].text
  }

  /** Where the walk goes from token i. */
  function Next(m: map<nat, Op>, i: nat): (r: nat)
    requires Keyed(m)
    ensures i < r
  {
    if i in m && m[i].Replace? then m[i].lastIndex + 1 else i + 1
  }

  /** Text written, and the operations left over, by walking from token i up to token stop. */
  function Walk(m: map<nat, Op>, tokens: seq<Token>, i: nat, stop: nat): (string, map<nat, Op>)
    requires Keyed(m)
    decreases stop + 1 - i
  {
    if i > stop || i >= |tokens| then ("", m)
    else
      var (t, rest) := Walk(Without(m, i), tokens, Next(m, i), stop);
      (Shown(m, tokens, i) + t, rest)
  }
}
