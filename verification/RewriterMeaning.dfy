/**
 What an edit script means, said without running the reduction: at every token the last replace
 that covers it wins. The reduction is then shown to compute exactly this meaning.
 */
module RewriterMeaning {
  import opened TokenRewriter

  // ---------------------------------------------------------------- the meaning of a script

  /** One past the last slot below i whose replace covers token p; 0 when there is none. */
  function CoveredUpTo(s: Program, p: nat, i: nat): (r: nat)
    requires i <= |s|
    ensures r <= i
    ensures r > 0 ==> Covers(s[r - 1], p)
  {
    if i == 0 then 0 else if Covers(s[i - 1], p) then i else CoveredUpTo(s, p, i - 1)
  }

  lemma {:induction false} CoveredUpToLast(s: Program, p: nat, i: nat, k: nat)
    requires k < i <= |s| && Covers(s[k], p)
    ensures k < CoveredUpTo(s, p, i)
  {
    if k < i - 1 {
      CoveredUpToLast(s, p, i - 1, k);
    }
  }

  /** What the script shows at token p when rendering starts at token start. */
  function Piece(s: Program, tokens: seq<Token>, start: nat, p: nat): string
  {
    var j := CoveredUpTo(s, p, |s|);
    if j == 0 then LatestFirst(s, p, 0, |s|) + TokenText(tokens, p)
    else if s[j - 1].op.index == p then
      LatestFirst(s, p, CoveredUpTo(s, p, j - 1), |s|) + s[j - 1].op.text
    else if s[j - 1].op.index < start then TokenText(tokens, p)
    else ""
  }

  function Pieces(s: Program, tokens: seq<Token>, start: nat, i: nat, stop: nat): string
    decreases stop + 1 - i
  {
    if i > stop || i >= |tokens| then ""
    else Piece(s, tokens, start, i) + Pieces(s, tokens, start, i + 1, stop)
  }

  /** No replace in slots j+1..i contains the one in slot j, so it is still queued. */
  ghost predicate Surviving(s: Program, j: nat, i: nat)
    requires j < |s| && IsReplace(s[j])
  {
    forall m :: j < m < i && m < |s| && IsReplace(s[m]) ==> !Within(s[j].op, s[m].op)
  }

  /** The replace in slot i contains or misses every replace still queued before it. */
  ghost predicate NoClash(s: Program, i: nat)
    requires i < |s|
  {
    IsReplace(s[i]) ==>
      forall j :: 0 <= j < i && IsReplace(s[j]) && Surviving(s, j, i) ==>
        Within(s[j].op, s[i].op) || Disjoint(s[j].op, s[i].op)
  }

  ghost predicate ConflictFree(s: Program, i: nat)
    requires i <= |s|
  {
    forall k :: 0 <= k < i ==> NoClash(s, k)
  }

  /** The insert in slot k lands strictly inside a replace queued before it and never dropped. */
  ghost predicate LateInsert(s: Program, k: nat)
    requires k < |s|
  {
    IsInsert(s[k]) &&
    var j := CoveredUpTo(s, s[k].op.index, |s|);
    0 < j <= k && s[j - 1].op.index < s[k].op.index
  }

  /** A caller's test that the reduction neither merges deletes nor raises an error. */
  ghost predicate Clean(s: Program)
  {
    ConflictFree(s, |s|) && forall k :: 0 <= k < |s| ==> !LateInsert(s, k)
  }

  // ---------------------------------------------------------------- small facts

  lemma {:induction false} LatestFirstSplit(s: Program, p: nat, lo: nat, mid: nat, hi: nat)
    requires lo <= mid <= hi <= |s|
    ensures LatestFirst(s, p, lo, hi) == LatestFirst(s, p, mid, hi) + LatestFirst(s, p, lo, mid)
    decreases hi
  {
    if mid < hi {
      LatestFirstSplit(s, p, lo, mid, hi - 1);
    } else {
      assert LatestFirst(s, p, mid, hi) == "";
    }
  }

  lemma {:induction false} LatestFirstFrame(s: Program, t: Program, p: nat, lo: nat, hi: nat)
    requires hi <= |s| && hi <= |t|
    requires forall k :: lo <= k < hi ==>
      (InsertAt(s[k], p) <==> InsertAt(t[k], p)) && (InsertAt(s[k], p) ==> s[k].op.text == t[k].op.text)
    ensures LatestFirst(s, p, lo, hi) == LatestFirst(t, p, lo, hi)
    decreases hi
  {
    if lo < hi {
      LatestFirstFrame(s, t, p, lo, hi - 1);
    }
  }

  lemma {:induction false} LatestFirstNone(s: Program, p: nat, lo: nat, hi: nat)
    requires hi <= |s|
    requires forall k :: lo <= k < hi ==> !InsertAt(s[k], p)
    ensures LatestFirst(s, p, lo, hi) == ""
    decreases hi
  {
    if lo < hi {
      LatestFirstNone(s, p, lo, hi - 1);
    }
  }

  lemma {:induction false} OldestFirstNone(s: Program, p: nat, hi: nat)
    requires hi <= |s|
    requires forall k :: 0 <= k < hi ==> !InsertAt(s[k], p)
    ensures OldestFirst(s, p, hi) == ""
  {
    if 0 < hi {
      OldestFirstNone(s, p, hi - 1);
    }
  }

  /** When at most slot k holds an insert at p, queue order and reverse order agree. */
  lemma {:induction false} OldestFirstOne(s: Program, p: nat, k: nat, hi: nat)
    requires k < hi <= |s|
    requires forall j :: 0 <= j < hi && j != k ==> !InsertAt(s[j], p)
    requires InsertAt(s[k], p)
    ensures OldestFirst(s, p, hi) == s[k].op.text
  {
    if k == hi - 1 {
      OldestFirstNone(s, p, hi - 1);
    } else {
      OldestFirstOne(s, p, k, hi - 1);
    }
  }

  // ---------------------------------------------------------------- first pass

  /** The queue after the first pass has handled slots 0..i of a script without clashes. */
  ghost function Swept(s: Program, i: nat): (r: Program)
    requires i <= |s|
    ensures |r| == |s|
  {
    seq(|s|, k requires 0 <= k < |s| => SweptSlot(s, i, k))
  }

  ghost function SweptSlot(s: Program, i: nat, k: nat): Slot
    requires i <= |s| && k < |s|
  {
    if k >= i then s[k]
    else if IsInsert(s[k]) then
      if CoveredUpTo(s, s[k].op.index, i) <= k then s[k] else Empty
    else if IsReplace(s[k]) then
      if Surviving(s, k, i) then Live(s[k].op.(text := SweptText(s, k))) else Empty
    else Empty
  }

  ghost function SweptText(s: Program, k: nat): string
    requires k < |s| && IsReplace(s[k])
  {
    var a := s[k].op.index;
    LatestFirst(s, a, CoveredUpTo(s, a, k), k) + s[k].op.text
  }

  /** Every queued replace below i contains or misses rw[i]. */
  ghost predicate Clear(rw: Program, i: nat, k: nat)
    requires k <= i < |rw| && IsReplace(rw[i])
  {
    forall j :: 0 <= j < k && IsReplace(rw[j]) ==> Within(rw[j].op, rw[i].op) || Disjoint(rw[j].op, rw[i].op)
  }

  ghost function Dropped(rw: Program, i: nat, k: nat): (r: Program)
    requires k <= i < |rw| && IsReplace(rw[i])
    ensures |r| == |rw|
  {
    seq(|rw|, j requires 0 <= j < |rw| =>
      if j < k && IsReplace(rw[j]) && Within(rw[j].op, rw[i].op) then Empty else rw[j])
  }

  /** Meeting the earlier replaces merges nothing and fails nowhere exactly when all are clear. */
  lemma {:induction false} DropMeaning(rw: Program, merges: nat, i: nat, k: nat)
    requires k <= i < |rw| && IsReplace(rw[i])
    ensures merges <= Drop(rw, merges, i, k).merges
    ensures Clear(rw, i, k) <==> Drop(rw, merges, i, k).Reduced? && Drop(rw, merges, i, k).merges == merges
    ensures Clear(rw, i, k) ==> Drop(rw, merges, i, k) == Reduced(Dropped(rw, i, k), merges)
  {
    if k == 0 {
      assert Dropped(rw, i, k) == rw;
    } else {
      DropMeaning(rw, merges, i, k - 1);
      if Clear(rw, i, k - 1) {
        var d := Dropped(rw, i, k - 1);
        assert d[k - 1] == rw[k - 1] && d[i] == rw[i];
        if Clear(rw, i, k) {
          if IsReplace(rw[k - 1]) && Within(rw[k - 1].op, rw[i].op) {
            assert Dropped(rw, i, k) == d[k - 1 := Empty];
          } else {
            assert Dropped(rw, i, k) == d;
          }
        }
      }
    }
  }

  lemma CoveredUpToStep(s: Program, p: nat, i: nat)
    requires i < |s|
    ensures CoveredUpTo(s, p, i + 1) == if Covers(s[i], p) then i + 1 else CoveredUpTo(s, p, i)
  {
  }

  /** Slot k when the replace in slot i has absorbed the inserts and is about to meet the others. */
  lemma AbsorbedSwept(s: Program, i: nat, k: nat)
    requires i < |s| && IsReplace(s[i]) && k < |s|
    ensures Swept(s, i)[i] == s[i]
    ensures Absorb(Swept(s, i), i)[k] ==
      if k == i then Live(s[i].op.(text := SweptText(s, i)))
      else if k < i && IsInsert(s[k]) && Covers(s[i], s[k].op.index) then Empty
      else SweptSlot(s, i, k)
  {
    hide CoveredUpTo, Surviving, SweptText;
    assert Swept(s, i)[i] == SweptSlot(s, i, i);
    assert Swept(s, i)[k] == SweptSlot(s, i, k);
    SweepText(s, i);
  }

  /** Handling the replace in slot i takes Swept(s, i) to Swept(s, i + 1). */
  lemma SweepStep(s: Program, i: nat)
    requires i < |s| && IsReplace(s[i])
    ensures IsReplace(Swept(s, i)[i])
    ensures var a := Absorb(Swept(s, i), i);
      && (NoClash(s, i) <==> Clear(a, i, i))
      && (NoClash(s, i) ==> Dropped(a, i, i) == Swept(s, i + 1))
  {
    hide Swept, Absorb, CoveredUpTo, Surviving, SweptText, Dropped;
    AbsorbedSwept(s, i, i);
    var a := Absorb(Swept(s, i), i);
    forall j | 0 <= j < i
      ensures IsReplace(a[j]) <==> IsReplace(s[j]) && Surviving(s, j, i)
      ensures IsReplace(a[j]) ==> a[j].op.index == s[j].op.index && a[j].op.lastIndex == s[j].op.lastIndex
    {
      AbsorbedSwept(s, i, j);
    }
    if NoClash(s, i) {
      DroppedSwept(s, i);
    }
  }

  lemma DroppedSwept(s: Program, i: nat)
    requires i < |s| && IsReplace(s[i]) && IsReplace(Swept(s, i)[i])
    ensures Dropped(Absorb(Swept(s, i), i), i, i) == Swept(s, i + 1)
  {
    var a := Absorb(Swept(s, i), i);
    hide Absorb, SweptText, CoveredUpTo;
    AbsorbedSwept(s, i, i);
    forall k | 0 <= k < |s|
      ensures Dropped(a, i, i)[k] == Swept(s, i + 1)[k]
    {
      AbsorbedSwept(s, i, k);
      if k < i && IsInsert(s[k]) {
        CoveredUpToStep(s, s[k].op.index, i);
      } else if k < i && IsReplace(s[k]) {
        SurvivingStep(s, k, i);
      }
      assert Swept(s, i + 1)[k] == SweptSlot(s, i + 1, k);
    }
  }

  lemma SurvivingStep(s: Program, k: nat, i: nat)
    requires k < i < |s| && IsReplace(s[k]) && IsReplace(s[i])
    ensures Surviving(s, k, i + 1) <==> Surviving(s, k, i) && !Within(s[k].op, s[i].op)
    ensures Surviving(s, i, i + 1)
  {
  }

  /** Which inserts at p are still queued when slot i is reached. */
  lemma SweptBefore(s: Program, i: nat, p: nat, k: nat)
    requires k < i <= |s|
    ensures InsertAt(Swept(s, i)[k], p) <==> InsertAt(s[k], p) && CoveredUpTo(s, p, i) <= k
    ensures InsertAt(Swept(s, i)[k], p) ==> Swept(s, i)[k] == s[k]
  {
    assert Swept(s, i)[k] == SweptSlot(s, i, k);
  }

  /** The text the replace in slot i ends up with, when the queue t still holds the inserts at its
      start that no earlier replace covers. */
  lemma QueuedText(s: Program, t: Program, i: nat)
    requires i < |s| == |t| && IsReplace(s[i])
    requires var a := s[i].op.index;
      forall k :: 0 <= k < i ==>
        && (InsertAt(t[k], a) <==> InsertAt(s[k], a) && CoveredUpTo(s, a, i) <= k)
        && (InsertAt(t[k], a) ==> t[k] == s[k])
    ensures LatestFirst(t, s[i].op.index, 0, i) + s[i].op.text == SweptText(s, i)
  {
    var a := s[i].op.index;
    var c := CoveredUpTo(s, a, i);
    LatestFirstSplit(t, a, 0, c, i);
    LatestFirstNone(t, a, 0, c);
    LatestFirstFrame(t, s, a, c, i);
  }

  lemma SweepText(s: Program, i: nat)
    requires i < |s| && IsReplace(s[i])
    ensures LatestFirst(Swept(s, i), s[i].op.index, 0, i) + s[i].op.text == SweptText(s, i)
  {
    hide Swept;
    forall k | 0 <= k < i {
      SweptBefore(s, i, s[i].op.index, k);
    }
    QueuedText(s, Swept(s, i), i);
  }

  lemma SweptAhead(s: Program, i: nat)
    requires i < |s|
    ensures Swept(s, i)[i] == s[i]
    ensures !IsReplace(s[i]) ==> Swept(s, i + 1) == Swept(s, i)
  {
    if !IsReplace(s[i]) {
      forall k | 0 <= k < |s|
        ensures SweptSlot(s, i + 1, k) == SweptSlot(s, i, k)
      {
        if IsInsert(s[k]) { CoveredUpToStep(s, s[k].op.index, i); }
      }
      assert Swept(s, i + 1) == Swept(s, i);
    }
  }

  lemma ConflictFreeNext(s: Program, i: nat)
    requires i < |s|
    ensures ConflictFree(s, i + 1) <==> ConflictFree(s, i) && NoClash(s, i)
  {
  }

  /** The first pass on a whole script: it runs clean exactly on scripts without clashes. */
  lemma {:induction false} SweepMeaning(s: Program, i: nat)
    requires i <= |s|
    ensures ConflictFree(s, i) <==> WalkReplaces(s, i).Reduced? && WalkReplaces(s, i).merges == 0
    ensures ConflictFree(s, i) ==> WalkReplaces(s, i) == Reduced(Swept(s, i), 0)
  {
    hide *;
    if i == 0 {
      SweptStart(s);
    } else {
      WalkReplacesNext(s, i - 1);
      SweepMeaning(s, i - 1);
      var w := WalkReplaces(s, i - 1);
      ConflictFreeNext(s, i - 1);
      if ConflictFree(s, i - 1) {
        SweptAhead(s, i - 1);
        if IsReplace(s[i - 1]) {
          SweepReplace(s, i - 1);
        } else {
          NoReplaceNoClash(s, i - 1);
        }
      } else if w.Reduced? && IsReplace(w.rw[i - 1]) {
        DropMeaning(Absorb(w.rw, i - 1), w.merges, i - 1, i - 1);
      }
    }
  }

  lemma SweptStart(s: Program)
    ensures Swept(s, 0) == s && WalkReplaces(s, 0) == Reduced(s, 0) && ConflictFree(s, 0)
  {
  }

  lemma SweepReplace(s: Program, i: nat)
    requires i < |s| && IsReplace(s[i]) && IsReplace(Swept(s, i)[i])
    ensures var d := Drop(Absorb(Swept(s, i), i), 0, i, i);
      && (NoClash(s, i) <==> d.Reduced? && d.merges == 0)
      && (NoClash(s, i) ==> d == Reduced(Swept(s, i + 1), 0))
  {
    hide Swept, Absorb, Drop, Dropped, Clear, NoClash;
    SweepStep(s, i);
    DropMeaning(Absorb(Swept(s, i), i), 0, i, i);
  }

  lemma NoReplaceNoClash(s: Program, i: nat)
    requires i < |s| && !IsReplace(s[i])
    ensures NoClash(s, i)
  {
  }

  // ---------------------------------------------------------------- between the passes

  /** Only one replace starts at or covers token p: the last one that covers it. */
  ghost predicate Host(t: Program, k: nat, p: nat)
    requires k < |t|
  {
    IsReplace(t[k]) && (t[k].op.index == p || Covers(t[k], p)) <==> k + 1 == CoveredUpTo(t, p, |t|)
  }

  ghost predicate OneCover(t: Program)
  {
    forall k, p {:trigger Host(t, k, p)} :: 0 <= k < |t| ==> Host(t, k, p)
  }

  /** An insert in slot k is not covered by a replace queued after it. */
  ghost predicate NotEarly(t: Program, k: nat)
    requires k < |t|
  {
    IsInsert(t[k]) ==> CoveredUpTo(t, t[k].op.index, |t|) <= k
  }

  ghost predicate NoEarlyInsert(t: Program)
  {
    forall k {:trigger NotEarly(t, k)} :: 0 <= k < |t| ==> NotEarly(t, k)
  }

  /** After a clean first pass the replace covering p is the last one of the script that does. */
  lemma SweptCover(s: Program, p: nat, k: nat)
    requires ConflictFree(s, |s|) && k < |s|
    ensures Covers(Swept(s, |s|)[k], p) <==> k + 1 == CoveredUpTo(s, p, |s|)
  {
    var j := CoveredUpTo(s, p, |s|);
    assert Swept(s, |s|)[k] == SweptSlot(s, |s|, k);
    if k + 1 == j {
      forall m | k < m < |s| && IsReplace(s[m])
        ensures !Within(s[k].op, s[m].op)
      {
        if Covers(s[m], p) { CoveredUpToLast(s, p, |s|, m); }
      }
    } else if Covers(s[k], p) {
      CoveredUpToLast(s, p, |s|, k);
      SurvivingEarlier(s, k, j - 1, |s|);
      assert NoClash(s, j - 1) && !Disjoint(s[k].op, s[j - 1].op);
    }
  }

  lemma SurvivingEarlier(s: Program, k: nat, i: nat, j: nat)
    requires k < |s| && IsReplace(s[k]) && i <= j
    ensures Surviving(s, k, j) ==> Surviving(s, k, i)
  {
  }

  lemma {:induction false} SameCover(t: Program, c: Program, p: nat, i: nat)
    requires i <= |t| && i <= |c|
    requires forall k :: 0 <= k < i ==> (Covers(c[k], p) <==> Covers(t[k], p))
    ensures CoveredUpTo(c, p, i) == CoveredUpTo(t, p, i)
  {
    if i > 0 {
      SameCover(t, c, p, i - 1);
    }
  }

  /** The first pass leaves the last covering replace of every token unchanged. */
  lemma SweptCoveredUpTo(s: Program, p: nat)
    requires ConflictFree(s, |s|)
    ensures CoveredUpTo(Swept(s, |s|), p, |s|) == CoveredUpTo(s, p, |s|)
  {
    hide Swept;
    forall k | 0 <= k < |s|
      ensures Covers(Swept(s, |s|)[k], p) <==> k + 1 == CoveredUpTo(s, p, |s|)
    {
      SweptCover(s, p, k);
    }
    OnlyCover(Swept(s, |s|), p, CoveredUpTo(s, p, |s|));
  }

  lemma OnlyCover(t: Program, p: nat, j: nat)
    requires j <= |t| && forall k :: 0 <= k < |t| ==> (Covers(t[k], p) <==> k + 1 == j)
    ensures CoveredUpTo(t, p, |t|) == j
  {
    if j > 0 {
      CoveredUpToLast(t, p, |t|, j - 1);
    }
  }

  lemma SweptInsert(s: Program, p: nat, k: nat)
    requires k < |s|
    ensures InsertAt(Swept(s, |s|)[k], p) <==> InsertAt(s[k], p) && CoveredUpTo(s, p, |s|) <= k
    ensures InsertAt(Swept(s, |s|)[k], p) ==> Swept(s, |s|)[k] == s[k]
  {
    assert Swept(s, |s|)[k] == SweptSlot(s, |s|, k);
  }

  /** A replace that is left keeps its range and has its text from SweptText. */
  lemma SweptHolds(s: Program, k: nat)
    requires k < |s|
    ensures IsReplace(Swept(s, |s|)[k]) ==>
      IsReplace(s[k]) && Swept(s, |s|)[k] == Live(s[k].op.(text := SweptText(s, k)))
  {
    hide CoveredUpTo, Surviving, SweptText;
    assert Swept(s, |s|)[k] == SweptSlot(s, |s|, k);
  }

  lemma SweptSettled(s: Program, n: nat)
    requires WellFormed(s, n) && ConflictFree(s, |s|)
    ensures OneCover(Swept(s, |s|)) && NoEarlyInsert(Swept(s, |s|))
  {
    var t := Swept(s, |s|);
    forall k, p | 0 <= k < |t|
      ensures Host(t, k, p)
    {
      assert t[k] == SweptSlot(s, |s|, k);
      SweptCover(s, p, k);
      SweptCoveredUpTo(s, p);
    }
    forall k | 0 <= k < |t|
      ensures NotEarly(t, k)
    {
      if IsInsert(t[k]) {
        SweptInsert(s, t[k].op.index, k);
        SweptCoveredUpTo(s, t[k].op.index);
      }
    }
  }

  // ---------------------------------------------------------------- second pass

  /** The insert in slot k lands strictly inside the replace that covers it. */
  ghost predicate Late(t: Program, k: nat)
    requires k < |t|
  {
    IsInsert(t[k]) &&
    var j := CoveredUpTo(t, t[k].op.index, |t|);
    0 < j <= k && t[j - 1].op.index < t[k].op.index
  }

  /** One past the last slot below i that inserts at p; 0 when there is none. */
  function InsertedUpTo(t: Program, p: nat, i: nat): (r: nat)
    requires i <= |t|
    ensures r <= i
    ensures r > 0 ==> InsertAt(t[r - 1], p)
  {
    if i == 0 then 0 else if InsertAt(t[i - 1], p) then i else InsertedUpTo(t, p, i - 1)
  }

  lemma {:induction false} InsertedUpToLast(t: Program, p: nat, i: nat)
    requires i <= |t|
    ensures forall k :: InsertedUpTo(t, p, i) <= k < i ==> !InsertAt(t[k], p)
    ensures LatestFirst(t, p, 0, i) == LatestFirst(t, p, 0, InsertedUpTo(t, p, i))
  {
    if i > 0 && !InsertAt(t[i - 1], p) {
      InsertedUpToLast(t, p, i - 1);
    }
  }

  /** The replace in slot k takes no text before an insert at its start is queued behind it; that
      one brings all earlier ones along. */
  ghost function HostedText(t: Program, i: nat, k: nat): string
    requires i <= |t| && k < |t| && IsReplace(t[k])
  {
    var p := t[k].op.index;
    (if InsertedUpTo(t, p, i) > k + 1 then LatestFirst(t, p, 0, i) else "") + t[k].op.text
  }

  /** An insert in slot k is in no replace queued before it. */
  predicate Standing(t: Program, p: nat, k: nat)
  {
    CoveredUpTo(t, p, |t|) == 0 || k + 1 < CoveredUpTo(t, p, |t|)
  }

  /** Slot k after the second pass has handled slots 0..i. */
  ghost function GatheredSlot(t: Program, i: nat, k: nat): Slot
    requires i <= |t| && k < |t|
  {
    if IsReplace(t[k]) then Live(t[k].op.(text := HostedText(t, i, k)))
    else if k < i && IsInsert(t[k]) then
      var p := t[k].op.index;
      if InsertedUpTo(t, p, i) == k + 1 && Standing(t, p, k)
      then Live(InsertBefore(p, LatestFirst(t, p, 0, k + 1))) else Empty
    else t[k]
  }

  ghost function Gathered(t: Program, i: nat): (r: Program)
    requires i <= |t|
    ensures |r| == |t|
  {
    seq(|t|, k requires 0 <= k < |t| => GatheredSlot(t, i, k))
  }

  /** What an insert in slot i takes over: all earlier inserts at its token, latest first, unless
      an earlier one has handed them to a replace. */
  ghost function Taken(t: Program, p: nat, i: nat): string
    requires i <= |t|
  {
    var j := CoveredUpTo(t, p, |t|);
    if j == 0 || InsertedUpTo(t, p, i) < j then LatestFirst(t, p, 0, i) else ""
  }

  lemma TakenOver(t: Program, i: nat, p: nat)
    requires i <= |t|
    ensures OldestFirst(Gathered(t, i), p, i) == Taken(t, p, i)
  {
    hide Gathered, CoveredUpTo, InsertedUpTo, LatestFirst, OldestFirst;
    var g, r := Gathered(t, i), InsertedUpTo(t, p, i);
    forall k | 0 <= k < i
      ensures InsertAt(g[k], p) <==> r == k + 1 && Standing(t, p, k)
      ensures InsertAt(g[k], p) ==> g[k].op.text == LatestFirst(t, p, 0, r)
    {
      GatheredInsertAt(t, i, p, k);
    }
    InsertedUpToLast(t, p, i);
    if r > 0 && Standing(t, p, r - 1) {
      OldestFirstOne(g, p, r - 1, i);
    } else {
      OldestFirstNone(g, p, i);
      if r == 0 {
        LatestFirstNone(t, p, 0, 0);
      }
    }
  }

  lemma GatheredInsertAt(t: Program, i: nat, p: nat, k: nat)
    requires k < i <= |t|
    ensures InsertAt(Gathered(t, i)[k], p) <==> InsertedUpTo(t, p, i) == k + 1 && Standing(t, p, k)
    ensures InsertAt(Gathered(t, i)[k], p) ==> Gathered(t, i)[k].op.text == LatestFirst(t, p, 0, k + 1)
  {
    assert Gathered(t, i)[k] == GatheredSlot(t, i, k);
  }

  /** The replace in slot k takes the text of the insert iop of slot i. */
  function HandOver(rw: Program, iop: Op, i: nat, k: nat): (r: Program)
    requires k < |rw| && i < |rw| && IsReplace(rw[k])
    ensures |r| == |rw|
  {
    rw[k := Live(rw[k].op.(text := iop.text + rw[k].op.text))][i := Empty]
  }

  lemma HandedOver(rw: Program, iop: Op, i: nat, k: nat)
    requires k < |rw| && i < |rw| && IsReplace(rw[k]) && i != k
    ensures var r := HandOver(rw, iop, i, k);
      && r[i] == Empty && r[k] == Live(rw[k].op.(text := iop.text + rw[k].op.text))
      && forall m :: 0 <= m < |rw| && m != i && m != k ==> r[m] == rw[m]
  {
  }

  /** Meeting the earlier replaces: slot j - 1 holds the only one that concerns the insert. */
  lemma {:induction false} PrependMeaning(rw: Program, merges: nat, iop: Op, i: nat, k: nat, j: nat)
    requires k <= i < |rw| && !IsReplace(rw[i]) && j <= i
    requires j > 0 ==> Covers(rw[j - 1], iop.index)
    requires forall m :: 0 <= m < i && m + 1 != j && IsReplace(rw[m]) ==>
      rw[m].op.index != iop.index && !Covers(rw[m], iop.index)
    ensures var d := Prepend(rw, merges, iop, i, k);
      && d.merges == merges
      && (j == 0 || j > k ==> d == Reduced(rw, merges))
      && (0 < j <= k && rw[j - 1].op.index == iop.index ==>
            d == Reduced(HandOver(rw, iop, i, j - 1), merges))
      && (0 < j <= k && rw[j - 1].op.index != iop.index ==> d.Failed?)
  {
    if k > 0 {
      PrependMeaning(rw, merges, iop, i, k - 1, j);
    }
  }

  /** Slot k holds a replace that starts at p and is queued before slot i. */
  predicate HostsFrom(t: Program, i: nat, k: nat, p: nat)
    requires k < |t|
  {
    k < i && IsReplace(t[k]) && t[k].op.index == p
  }

  lemma InsertedUpToStep(t: Program, p: nat, i: nat)
    requires i < |t|
    ensures InsertedUpTo(t, p, i + 1) == if InsertAt(t[i], p) then i + 1 else InsertedUpTo(t, p, i)
    ensures LatestFirst(t, p, 0, i + 1) ==
      (if InsertAt(t[i], p) then t[i].op.text else "") + LatestFirst(t, p, 0, i)
  {
  }

  /** What handling the insert in slot i does to a replace that it is not handed to. */
  lemma ReplaceStep(t: Program, i: nat, k: nat, p: nat)
    requires i < |t| && InsertAt(t[i], p) && k < |t| && IsReplace(t[k]) && !HostsFrom(t, i, k, p)
    ensures GatheredSlot(t, i + 1, k) == GatheredSlot(t, i, k)
  {
    hide LatestFirst, InsertedUpTo;
    var q := t[k].op.index;
    InsertedUpToStep(t, q, i);
    assert q != p ==> "" + LatestFirst(t, q, 0, i) == LatestFirst(t, q, 0, i);
  }

  /** What it does to the replace that it is handed to. */
  lemma HostStep(t: Program, i: nat, k: nat, p: nat)
    requires i < |t| && InsertAt(t[i], p) && k < |t| && HostsFrom(t, i, k, p)
    requires k + 1 == CoveredUpTo(t, p, |t|)
    ensures var was := GatheredSlot(t, i, k);
      GatheredSlot(t, i + 1, k) == Live(was.op.(text := (t[i].op.text + Taken(t, p, i)) + was.op.text))
  {
    hide LatestFirst, InsertedUpTo, CoveredUpTo;
    InsertedUpToStep(t, p, i);
    var own, text, l := t[i].op.text, t[k].op.text, LatestFirst(t, p, 0, i);
    if InsertedUpTo(t, p, i) > k + 1 {
      assert (own + l) + text == (own + "") + (l + text);
    } else {
      NeverInserted(t, p, i, k);
      assert (own + l) + text == (own + l) + ("" + text);
    }
  }

  lemma NeverInserted(t: Program, p: nat, i: nat, k: nat)
    requires i <= |t| && k < |t| && IsReplace(t[k])
    ensures InsertedUpTo(t, p, i) != k + 1
  {
  }

  /** What it does to an insert. */
  lemma InsertStep(t: Program, i: nat, k: nat, p: nat)
    requires i < |t| && InsertAt(t[i], p) && k < |t| && k != i && !IsReplace(t[k])
    ensures var was := GatheredSlot(t, i, k);
      GatheredSlot(t, i + 1, k) == if k < i && InsertAt(was, p) then Empty else was
  {
    hide LatestFirst, InsertedUpTo, CoveredUpTo, Standing;
    if k < i && IsInsert(t[k]) {
      InsertedUpToStep(t, t[k].op.index, i);
    }
  }

  /** Slot k once the insert in slot i has taken over the earlier inserts at its token. */
  lemma CombinedSlot(t: Program, i: nat, p: nat, k: nat)
    requires i < |t| && InsertAt(t[i], p) && k < |t| && InsertAt(Gathered(t, i)[i], p)
    ensures var g, c, h := Gathered(t, i), Combine(Gathered(t, i), i), Gathered(t, i + 1);
      && (IsReplace(c[k]) <==> IsReplace(t[k]))
      && (IsReplace(t[k]) ==> c[k] == g[k] && g[k].op.index == t[k].op.index && g[k].op.lastIndex == t[k].op.lastIndex)
      && (k != i && !HostsFrom(t, i, k, p) ==> c[k] == h[k])
  {
    assert Gathered(t, i)[k] == GatheredSlot(t, i, k);
    assert Gathered(t, i + 1)[k] == GatheredSlot(t, i + 1, k);
    if IsReplace(t[k]) {
      if !HostsFrom(t, i, k, p) { ReplaceStep(t, i, k, p); }
    } else if k != i {
      InsertStep(t, i, k, p);
    }
  }

  /** Slot i itself, before and after. */
  lemma GatheredInsert(t: Program, i: nat, p: nat)
    requires i < |t| && InsertAt(t[i], p)
    ensures Gathered(t, i)[i] == t[i]
    ensures Combine(Gathered(t, i), i)[i] == Live(InsertBefore(p, t[i].op.text + Taken(t, p, i)))
    ensures Gathered(t, i + 1)[i] ==
      if Standing(t, p, i) then Combine(Gathered(t, i), i)[i] else Empty
  {
    TakenOver(t, i, p);
    assert Gathered(t, i)[i] == GatheredSlot(t, i, i);
    assert Gathered(t, i + 1)[i] == GatheredSlot(t, i + 1, i);
    hide Gathered, CoveredUpTo;
    InsertedUpToStep(t, p, i);
  }

  /** The insert is in no replace queued before it: it holds all its text. */
  lemma GatherStanding(t: Program, i: nat, p: nat)
    requires i < |t| && InsertAt(t[i], p) && OneCover(t) && Standing(t, p, i)
    ensures Combine(Gathered(t, i), i) == Gathered(t, i + 1)
  {
    GatheredInsert(t, i, p);
    hide Gathered, Combine, CoveredUpTo;
    var c, h := Combine(Gathered(t, i), i), Gathered(t, i + 1);
    forall k | 0 <= k < |t| ensures c[k] == h[k] {
      assert Host(t, k, p);
      if k != i { CombinedSlot(t, i, p, k); }
    }
  }

  lemma HostingReplace(t: Program, i: nat, p: nat, k: nat)
    requires i < |t| && InsertAt(t[i], p) && k < |t| && HostsFrom(t, i, k, p)
    requires k + 1 == CoveredUpTo(t, p, |t|)
    ensures var c := Combine(Gathered(t, i), i);
      && IsReplace(c[k])
      && Gathered(t, i + 1)[k] == Live(c[k].op.(text := c[i].op.text + c[k].op.text))
  {
    assert Gathered(t, i + 1)[k] == GatheredSlot(t, i + 1, k);
    assert Gathered(t, i)[k] == GatheredSlot(t, i, k);
    GatheredInsert(t, i, p);
    CombinedSlot(t, i, p, k);
    hide Gathered, Combine;
    HostStep(t, i, k, p);
  }

  lemma HostedSlot(t: Program, i: nat, p: nat, j: nat, k: nat)
    requires i < |t| && InsertAt(t[i], p) && OneCover(t) && 0 < j == CoveredUpTo(t, p, |t|) <= i && k < |t|
    requires t[j - 1].op.index == p
    ensures var c := Combine(Gathered(t, i), i);
      IsReplace(c[j - 1]) && IsInsert(c[i]) && HandOver(c, c[i].op, i, j - 1)[k] == Gathered(t, i + 1)[k]
  {
    hide Gathered, Combine, CoveredUpTo, Taken, LatestFirst, InsertedUpTo, HandOver;
    GatheredInsert(t, i, p);
    assert Host(t, k, p) && Host(t, j - 1, p);
    HostingReplace(t, i, p, j - 1);
    var c := Combine(Gathered(t, i), i);
    HandedOver(c, c[i].op, i, j - 1);
    if k != i && k + 1 != j {
      CombinedSlot(t, i, p, k);
    }
  }

  /** The replace in slot j - 1 starts at the token: it takes the insert's text, and the insert goes. */
  lemma GatherHosted(t: Program, i: nat, p: nat, j: nat)
    requires i < |t| && InsertAt(t[i], p) && OneCover(t) && 0 < j == CoveredUpTo(t, p, |t|) <= i
    requires t[j - 1].op.index == p
    ensures var c := Combine(Gathered(t, i), i);
      IsReplace(c[j - 1]) && IsInsert(c[i]) && HandOver(c, c[i].op, i, j - 1) == Gathered(t, i + 1)
  {
    hide Gathered, Combine, HandOver, CoveredUpTo, OneCover;
    GatheredInsert(t, i, p);
    HostedSlot(t, i, p, j, i);
    var c := Combine(Gathered(t, i), i);
    var r, h := HandOver(c, c[i].op, i, j - 1), Gathered(t, i + 1);
    forall k | 0 <= k < |t|
      ensures r[k] == h[k]
    {
      HostedSlot(t, i, p, j, k);
    }
  }

  /** Slot k of the queue c holds a replace over the same range as in t, and one that concerns token p
      only if it is the last of t covering p. */
  ghost predicate MetAt(t: Program, c: Program, p: nat, k: nat)
    requires k < |t| == |c|
  {
    && (IsReplace(c[k]) <==> IsReplace(t[k]))
    && (IsReplace(t[k]) ==> c[k].op.index == t[k].op.index && c[k].op.lastIndex == t[k].op.lastIndex)
    && (IsReplace(c[k]) && k + 1 != CoveredUpTo(t, p, |t|) ==> c[k].op.index != p && !Covers(c[k], p))
  }

  lemma MetReplaces(t: Program, i: nat, p: nat, k: nat)
    requires i < |t| && InsertAt(t[i], p) && OneCover(t) && k < |t|
    ensures MetAt(t, Combine(Gathered(t, i), i), p, k)
  {
    GatheredInsert(t, i, p);
    hide Gathered, Combine, CoveredUpTo, Taken, Standing;
    assert Host(t, k, p);
    CombinedSlot(t, i, p, k);
  }

  /** An insert of token p in slot i of such a queue, meeting the earlier replaces. */
  lemma PrependCases(t: Program, c: Program, merges: nat, i: nat, p: nat)
    requires i < |t| == |c| && InsertAt(t[i], p) && InsertAt(c[i], p)
    requires forall k {:trigger MetAt(t, c, p, k)} :: 0 <= k < |t| ==> MetAt(t, c, p, k)
    ensures var j, d := CoveredUpTo(t, p, |t|), Prepend(c, merges, c[i].op, i, i);
      && d.merges == merges
      && (Standing(t, p, i) ==> d == Reduced(c, merges))
      && (!Standing(t, p, i) && t[j - 1].op.index != p ==> d.Failed?)
      && (!Standing(t, p, i) && t[j - 1].op.index == p ==>
            IsReplace(c[j - 1]) && d == Reduced(HandOver(c, c[i].op, i, j - 1), merges))
  {
    var j := CoveredUpTo(t, p, |t|);
    hide CoveredUpTo, Prepend, HandOver;
    forall m | 0 <= m < i && m + 1 != j && IsReplace(c[m])
      ensures c[m].op.index != p && !Covers(c[m], p)
    {
      assert MetAt(t, c, p, m);
    }
    if j > 0 {
      assert MetAt(t, c, p, j - 1);
    }
    PrependMeaning(c, merges, c[i].op, i, i, if j <= i then j else 0);
  }

  lemma GatherPrepend(t: Program, merges: nat, i: nat, p: nat)
    requires i < |t| && InsertAt(t[i], p) && OneCover(t)
    ensures var j, c := CoveredUpTo(t, p, |t|), Combine(Gathered(t, i), i);
      var d := Prepend(c, merges, c[i].op, i, i);
      && d.merges == merges
      && (Standing(t, p, i) ==> d == Reduced(c, merges))
      && (!Standing(t, p, i) && t[j - 1].op.index != p ==> d.Failed?)
      && (!Standing(t, p, i) && t[j - 1].op.index == p ==>
            IsReplace(c[j - 1]) && d == Reduced(HandOver(c, c[i].op, i, j - 1), merges))
  {
    var c := Combine(Gathered(t, i), i);
    GatheredInsert(t, i, p);
    hide Gathered, Combine, Prepend, CoveredUpTo, Taken, OneCover, HandOver, MetAt, Standing;
    forall k | 0 <= k < |t|
      ensures MetAt(t, c, p, k)
    {
      MetReplaces(t, i, p, k);
    }
    PrependCases(t, c, merges, i, p);
  }

  lemma LateOrHosted(t: Program, i: nat, p: nat)
    requires i < |t| && InsertAt(t[i], p)
    ensures var j := CoveredUpTo(t, p, |t|);
      && (!Standing(t, p, i) ==> 0 < j <= i)
      && (Late(t, i) <==> !Standing(t, p, i) && t[j - 1].op.index != p)
  {
    hide CoveredUpTo;
    assert CoveredUpTo(t, p, |t|) != i + 1;
  }

  lemma GatherStep(t: Program, merges: nat, i: nat, p: nat)
    requires i < |t| && InsertAt(t[i], p) && OneCover(t)
    ensures var g := Gathered(t, i);
      && g[i] == t[i]
      && (var c := Combine(g, i);
          var d := Prepend(c, merges, c[i].op, i, i);
          && d.merges == merges
          && (Late(t, i) ==> d.Failed?)
          && (!Late(t, i) ==> d == Reduced(Gathered(t, i + 1), merges)))
  {
    GatheredInsert(t, i, p);
    LateOrHosted(t, i, p);
    hide Gathered, Combine, Prepend, CoveredUpTo, Taken, OneCover, HandOver, Standing, Late;
    GatherPrepend(t, merges, i, p);
    if Standing(t, p, i) {
      GatherStanding(t, i, p);
    } else if t[CoveredUpTo(t, p, |t|) - 1].op.index == p {
      GatherHosted(t, i, p, CoveredUpTo(t, p, |t|));
    }
  }

  lemma InsertsAtIndex(s: Slot)
    requires IsInsert(s)
    ensures s.Live? && InsertAt(s, s.op.index)
  {
  }

  lemma WalkInsertsStart(t: Program, merges: nat)
    ensures WalkInserts(t, merges, 0) == Reduced(t, merges)
  {
  }

  lemma GatheredStart(t: Program)
    ensures Gathered(t, 0) == t
  {
    forall k | 0 <= k < |t|
      ensures GatheredSlot(t, 0, k) == t[k]
    {
      assert IsReplace(t[k]) ==> "" + t[k].op.text == t[k].op.text;
    }
  }

  lemma GatheredAhead(t: Program, i: nat)
    requires i < |t|
    ensures IsInsert(Gathered(t, i)[i]) <==> IsInsert(t[i])
    ensures !IsInsert(t[i]) ==> Gathered(t, i + 1) == Gathered(t, i) && !Late(t, i)
  {
    assert Gathered(t, i)[i] == GatheredSlot(t, i, i);
    if !IsInsert(t[i]) {
      forall k | 0 <= k < |t|
        ensures GatheredSlot(t, i + 1, k) == GatheredSlot(t, i, k)
      {
        hide InsertedUpTo, LatestFirst, CoveredUpTo;
        if t[k].Live? {
          var q := t[k].op.index;
          InsertedUpToStep(t, q, i);
          assert "" + LatestFirst(t, q, 0, i) == LatestFirst(t, q, 0, i);
        }
      }
      assert Gathered(t, i + 1) == Gathered(t, i);
    }
  }

  /** The second pass on any queue that covers no token twice: it fails exactly when some insert is
      late. Inserts queued before the replace that covers them stay, unless a later one at the same
      token takes them over. */
  lemma {:induction false} GatherMeaning(t: Program, merges: nat, i: nat)
    requires i <= |t| && OneCover(t)
    ensures WalkInserts(t, merges, i).merges == merges
    ensures WalkInserts(t, merges, i).Reduced? <==> forall k :: 0 <= k < i ==> !Late(t, k)
    ensures WalkInserts(t, merges, i).Reduced? ==> WalkInserts(t, merges, i).rw == Gathered(t, i)
  {
    hide *;
    if i == 0 {
      GatheredStart(t);
      WalkInsertsStart(t, merges);
    } else {
      WalkInsertsNext(t, merges, i - 1);
      GatherMeaning(t, merges, i - 1);
      GatheredAhead(t, i - 1);
      if IsInsert(t[i - 1]) {
        InsertsAtIndex(t[i - 1]);
        GatherStep(t, merges, i - 1, t[i - 1].op.index);
      }
    }
  }
}
