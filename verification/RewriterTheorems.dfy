/** The main results about the token rewriter's reduction and rendering. */
module RewriterTheorems {
  import opened Basics
  import opened TokenRewriter
  import opened RewriterMeaning

  // ---------------------------------------------------------------- one operation per index

  /** The tokens an operation answers for: its own index, or its whole range. */
  predicate Spans(s: Slot, p: nat) { InsertAt(s, p) || Covers(s, p) }

  /** One past the last slot below i that spans token p; 0 when there is none. */
  function SpannedUpTo(f: Program, p: nat, i: nat): (r: nat)
    requires i <= |f|
    ensures r <= i && (r > 0 ==> Spans(f[r - 1], p))
  {
    if i == 0 then 0 else if Spans(f[i - 1], p) then i else SpannedUpTo(f, p, i - 1)
  }

  lemma {:induction false} SpannedUpToLast(f: Program, p: nat, i: nat, k: nat)
    requires k < i <= |f| && Spans(f[k], p)
    ensures k < SpannedUpTo(f, p, i)
  {
    if k < i - 1 {
      SpannedUpToLast(f, p, i - 1, k);
    }
  }

  ghost predicate Alone(f: Program, k: nat, p: nat)
    requires k < |f|
  {
    Spans(f[k], p) ==> SpannedUpTo(f, p, |f|) == k + 1
  }

  ghost predicate RangeOk(f: Program, k: nat, n: nat)
    requires k < |f|
  {
    IsReplace(f[k]) ==> f[k].op.index <= f[k].op.lastIndex < n
  }

  /** No token is answered for twice. */
  ghost predicate Separated(f: Program, n: nat)
  {
    && (forall k, p {:trigger Alone(f, k, p)} :: 0 <= k < |f| ==> Alone(f, k, p))
    && (forall k {:trigger RangeOk(f, k, n)} :: 0 <= k < |f| ==> RangeOk(f, k, n))
  }

  /** The reduced queue of a clean script. */
  ghost function Final(s: Program): (f: Program)
    ensures |f| == |s|
  {
    Gathered(Swept(s, |s|), |s|)
  }

  /** Slot that answers for token p after a clean reduction, as one past it. */
  ghost function Owner(s: Program, p: nat): nat
  {
    if CoveredUpTo(s, p, |s|) > 0 then CoveredUpTo(s, p, |s|) else InsertedUpTo(s, p, |s|)
  }

  lemma {:induction false} SweptInsertedUpTo(s: Program, p: nat, i: nat)
    requires i <= |s| && CoveredUpTo(s, p, |s|) == 0
    ensures InsertedUpTo(Swept(s, |s|), p, i) == InsertedUpTo(s, p, i)
  {
    if i > 0 {
      SweptInsert(s, p, i - 1);
      hide Swept, CoveredUpTo;
      SweptInsertedUpTo(s, p, i - 1);
    }
  }

  lemma FinalSpans(s: Program, n: nat, k: nat, p: nat)
    requires WellFormed(s, n) && ConflictFree(s, |s|) && k < |s|
    ensures Spans(Final(s)[k], p) <==> k + 1 == Owner(s, p)
    ensures IsReplace(Final(s)[k]) <==> IsReplace(Swept(s, |s|)[k])
    ensures IsReplace(Final(s)[k]) ==>
      IsReplace(s[k]) && Final(s)[k].op.index == s[k].op.index && Final(s)[k].op.lastIndex == s[k].op.lastIndex
  {
    FinalReplaces(s, k);
    SweptCover(s, p, k);
    hide Swept, Final, CoveredUpTo, InsertedUpTo, ConflictFree, SweptSlot;
    FinalInserts(s, n, k, p);
  }

  lemma FinalReplaces(s: Program, k: nat)
    requires k < |s|
    ensures var t, f := Swept(s, |s|)[k], Final(s)[k];
      && (IsReplace(f) <==> IsReplace(t))
      && (IsReplace(f) ==> IsReplace(s[k]) && f.op.index == s[k].op.index && f.op.lastIndex == s[k].op.lastIndex)
      && (IsReplace(f) ==> f.op.index == t.op.index && f.op.lastIndex == t.op.lastIndex)
  {
    var t := Swept(s, |s|);
    assert Final(s)[k] == GatheredSlot(t, |s|, k);
    assert t[k] == SweptSlot(s, |s|, k);
  }

  lemma FinalInserts(s: Program, n: nat, k: nat, p: nat)
    requires WellFormed(s, n) && ConflictFree(s, |s|) && k < |s|
    ensures InsertAt(Final(s)[k], p) <==> CoveredUpTo(s, p, |s|) == 0 && InsertedUpTo(s, p, |s|) == k + 1
  {
    var t := Swept(s, |s|);
    GatheredInsertAt(t, |s|, p, k);
    SweptSettled(s, n);
    assert NotEarly(t, k);
    SweptCoveredUpTo(s, p);
    SweptInsert(s, p, k);
    if CoveredUpTo(s, p, |s|) == 0 {
      SweptInsertedUpTo(s, p, |s|);
    }
    hide Swept, Gathered, CoveredUpTo, InsertedUpTo, ConflictFree, OneCover, NoEarlyInsert, LatestFirst, WellFormed;
    if InsertedUpTo(t, p, |s|) == k + 1 {
      assert InsertAt(t[k], p);
    }
  }

  lemma AloneByOwner(f: Program, k: nat, p: nat, owner: nat)
    requires k < |f|
    requires forall m :: 0 <= m < |f| && Spans(f[m], p) ==> m + 1 == owner
    ensures Alone(f, k, p)
  {
    if Spans(f[k], p) {
      SpannedUpToLast(f, p, |f|, k);
    }
  }

  lemma FinalSeparated(s: Program, n: nat)
    requires WellFormed(s, n) && ConflictFree(s, |s|)
    ensures Separated(Final(s), n)
  {
    var f := Final(s);
    forall k, p | 0 <= k < |s|
      ensures Alone(f, k, p)
    {
      forall m | 0 <= m < |f| && Spans(f[m], p)
        ensures m + 1 == Owner(s, p)
      {
        FinalSpans(s, n, m, p);
      }
      AloneByOwner(f, k, p, Owner(s, p));
    }
    forall k | 0 <= k < |s|
      ensures RangeOk(f, k, n)
    {
      FinalSpans(s, n, k, 0);
    }
  }

  predicate IndexedAt(s: Slot, p: nat) { s.Live? && s.op.index == p }

  ghost predicate OnePerIndex(f: Program, i: nat)
    requires i <= |f|
  {
    forall j, k :: 0 <= j < k < i && f[j].Live? && f[k].Live? ==> f[j].op.index != f[k].op.index
  }

  /** The final map sees an index twice exactly when two slots share it; otherwise it holds every
      operation at its index, and nothing else. */
  lemma {:induction false} IndexMapMeaning(f: Program, i: nat)
    requires i <= |f|
    ensures IndexMap(f, i).Indexed? <==> OnePerIndex(f, i)
    ensures IndexMap(f, i).Indexed? ==>
      && (forall k :: 0 <= k < i && f[k].Live? ==>
            f[k].op.index in IndexMap(f, i).ops && IndexMap(f, i).ops[f[k].op.index] == f[k].op)
      && (forall p :: p in IndexMap(f, i).ops ==> exists k :: 0 <= k < i && IndexedAt(f[k], p))
  {
    if i > 0 {
      IndexMapMeaning(f, i - 1);
      if IndexMap(f, i).Indexed? {
        forall p | p in IndexMap(f, i).ops
          ensures exists k :: 0 <= k < i && IndexedAt(f[k], p)
        {
          if IndexedAt(f[i - 1], p) {
          } else {
            assert p in IndexMap(f, i - 1).ops;
          }
        }
      }
    }
  }

  lemma SeparatedIndices(f: Program, n: nat)
    requires Separated(f, n)
    ensures OnePerIndex(f, |f|)
  {
    forall j, k | 0 <= j < k < |f| && f[j].Live? && f[k].Live?
      ensures f[j].op.index != f[k].op.index
    {
      var p := f[j].op.index;
      assert RangeOk(f, j, n) && RangeOk(f, k, n);
      assert Alone(f, j, p) && Alone(f, k, p);
    }
  }

  /** Reducing a separated queue changes nothing. */
  lemma {:induction false} SeparatedReplaces(f: Program, n: nat, i: nat)
    requires Separated(f, n) && i <= |f|
    ensures WalkReplaces(f, i) == Reduced(f, 0)
  {
    if i > 0 {
      SeparatedReplaces(f, n, i - 1);
      if IsReplace(f[i - 1]) {
        var rop := f[i - 1].op;
        assert RangeOk(f, i - 1, n);
        forall k | 0 <= k < i - 1
          ensures IsInsert(f[k]) ==> !Covers(f[i - 1], f[k].op.index)
          ensures IsReplace(f[k]) ==> Disjoint(f[k].op, rop) && !Within(f[k].op, rop)
        {
          if IsInsert(f[k]) {
            assert Alone(f, k, f[k].op.index) && Alone(f, i - 1, f[k].op.index);
          } else if IsReplace(f[k]) {
            var p := Max(f[k].op.index, rop.index);
            assert RangeOk(f, k, n);
            assert Alone(f, k, p) && Alone(f, i - 1, p);
          }
        }
        LatestFirstNone(f, rop.index, 0, i - 1);
        assert "" + rop.text == rop.text;
        assert Absorb(f, i - 1) == f;
        DropMeaning(f, 0, i - 1, i - 1);
        assert Dropped(f, i - 1, i - 1) == f;
      }
    }
  }

  lemma {:induction false} SeparatedInserts(f: Program, n: nat, i: nat)
    requires Separated(f, n) && i <= |f|
    ensures WalkInserts(f, 0, i) == Reduced(f, 0)
  {
    if i > 0 {
      SeparatedInserts(f, n, i - 1);
      if IsInsert(f[i - 1]) {
        var p := f[i - 1].op.index;
        assert Alone(f, i - 1, p);
        forall k | 0 <= k < i - 1
          ensures !InsertAt(f[k], p)
          ensures IsReplace(f[k]) ==> f[k].op.index != p && !Covers(f[k], p)
        {
          assert Alone(f, k, p) && RangeOk(f, k, n);
        }
        OldestFirstNone(f, p, i - 1);
        assert f[i - 1].op.text + "" == f[i - 1].op.text;
        assert Combine(f, i - 1) == f;
        PrependMeaning(f, 0, f[i - 1].op, i - 1, i - 1, 0);
      }
    }
  }

  lemma LateTransfer(s: Program, n: nat, k: nat)
    requires WellFormed(s, n) && ConflictFree(s, |s|) && k < |s|
    ensures Late(Swept(s, |s|), k) <==> LateInsert(s, k)
  {
    hide Swept, CoveredUpTo, ConflictFree, WellFormed, SweptText;
    SweptKind(s, k);
    if IsInsert(s[k]) {
      var p := s[k].op.index;
      SweptCoveredUpTo(s, p);
      SweptInsert(s, p, k);
      var j := CoveredUpTo(s, p, |s|);
      if j > 0 {
        SweptCover(s, p, j - 1);
        SweptHolds(s, j - 1);
      }
    }
  }

  lemma SweptKind(s: Program, k: nat)
    requires k < |s|
    ensures IsInsert(Swept(s, |s|)[k]) ==> IsInsert(s[k]) && Swept(s, |s|)[k] == s[k]
  {
    assert Swept(s, |s|)[k] == SweptSlot(s, |s|, k);
  }

  /** Both passes on a script whose replaces do not clash. */
  lemma PassesClean(s: Program, n: nat)
    requires WellFormed(s, n) && ConflictFree(s, |s|)
    ensures WalkReplaces(s, |s|) == Reduced(Swept(s, |s|), 0)
    ensures var v := WalkInserts(Swept(s, |s|), 0, |s|);
      && v.merges == 0
      && (v.Reduced? <==> Clean(s))
      && (v.Reduced? ==> v.rw == Final(s))
      && (v.Failed? ==> v.error == InsertInsideReplace)
  {
    SweepMeaning(s, |s|);
    var t := Swept(s, |s|);
    SweptSettled(s, n);
    GatherMeaning(t, 0, |s|);
    InsertsMerges(t, 0, |s|);
    forall k | 0 <= k < |s|
      ensures Late(t, k) <==> LateInsert(s, k)
    {
      LateTransfer(s, n, k);
    }
  }

  lemma ReduceSeparated(f: Program, n: nat)
    requires Separated(f, n)
    ensures Reduce(f) == Reduced(f, 0)
  {
    SeparatedReplaces(f, n, |f|);
    SeparatedInserts(f, n, |f|);
    SeparatedIndices(f, n);
    IndexMapMeaning(f, |f|);
  }

  /** Main result. A script reduces without an error and without merging deletes exactly when no
      replace straddles one still queued before it and no insert lands late inside a replace; the
      one-operation-per-index check then cannot fail, and reducing the reduced queue again
      changes nothing. */
  lemma ReduceClean(s: Program, n: nat)
    requires WellFormed(s, n)
    ensures Clean(s) <==> Reduce(s).Reduced? && Reduce(s).merges == 0
    ensures Reduce(s).merges == 0 ==> Reduce(s) != Failed(Reduce(s).rw, 0, DuplicateIndex)
    ensures Clean(s) ==> Reduce(s).rw == Final(s) && Reduce(Reduce(s).rw) == Reduce(s)
  {
    if ConflictFree(s, |s|) {
      PassesClean(s, n);
      if Clean(s) {
        FinalSeparated(s, n);
        SeparatedIndices(Final(s), n);
        IndexMapMeaning(Final(s), |s|);
        ReduceSeparated(Final(s), n);
      }
    } else {
      SweepMeaning(s, |s|);
      MergesKept(s);
    }
  }

  /** The second pass neither merges deletes nor forgets that they were merged. */
  lemma MergesKept(s: Program)
    requires WalkReplaces(s, |s|).Reduced? ==> WalkReplaces(s, |s|).merges > 0
    ensures !(Reduce(s).Reduced? && Reduce(s).merges == 0)
    ensures WalkReplaces(s, |s|).Reduced? ==> Reduce(s).merges > 0
    ensures Reduce(s).Failed? && Reduce(s).merges == 0 ==> Reduce(s).error == ReplaceOverlap
  {
    var w := WalkReplaces(s, |s|);
    if w.Reduced? {
      InsertsMerges(w.rw, w.merges, |s|);
    } else {
      FirstPassError(s, |s|);
    }
  }

  lemma {:induction false} InsertsMerges(rw: Program, merges: nat, i: nat)
    requires i <= |rw|
    ensures WalkInserts(rw, merges, i).merges == merges
    ensures WalkInserts(rw, merges, i).Failed? ==> WalkInserts(rw, merges, i).error == InsertInsideReplace
  {
    if i > 0 {
      InsertsMerges(rw, merges, i - 1);
      var w := WalkInserts(rw, merges, i - 1);
      if w.Reduced? && IsInsert(w.rw[i - 1]) {
        var c := Combine(w.rw, i - 1);
        PrependMerges(c, merges, c[i - 1].op, i - 1, i - 1);
      }
    }
  }

  lemma {:induction false} PrependMerges(rw: Program, merges: nat, iop: Op, i: nat, k: nat)
    requires k <= i < |rw|
    ensures Prepend(rw, merges, iop, i, k).merges == merges
    ensures Prepend(rw, merges, iop, i, k).Failed? ==> Prepend(rw, merges, iop, i, k).error == InsertInsideReplace
  {
    if k > 0 {
      PrependMerges(rw, merges, iop, i, k - 1);
    }
  }

  lemma {:induction false} FirstPassError(rw: Program, i: nat)
    requires i <= |rw|
    ensures WalkReplaces(rw, i).Failed? ==> WalkReplaces(rw, i).error == ReplaceOverlap
  {
    if i > 0 {
      FirstPassError(rw, i - 1);
      var w := WalkReplaces(rw, i - 1);
      if w.Reduced? && IsReplace(w.rw[i - 1]) {
        DropError(Absorb(w.rw, i - 1), w.merges, i - 1, i - 1);
      }
    }
  }

  lemma {:induction false} DropError(rw: Program, merges: nat, i: nat, k: nat)
    requires k <= i < |rw| && IsReplace(rw[i])
    ensures Drop(rw, merges, i, k).Failed? ==> Drop(rw, merges, i, k).error == ReplaceOverlap
  {
    if k > 0 {
      DropError(rw, merges, i, k - 1);
    }
  }
}
