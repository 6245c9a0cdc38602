/** What the reduction keeps on every script, merged deletes included: the replaced tokens. */
module RewriterCoverage {
  import opened TokenRewriter

  ghost predicate Covered(rw: Program, p: nat)
  {
    exists k :: 0 <= k < |rw| && Covers(rw[k], p)
  }

  ghost predicate Apart(rw: Program, hi: nat)
    requires hi <= |rw|
  {
    forall j, k :: 0 <= j < k < hi && IsReplace(rw[j]) && IsReplace(rw[k]) ==> Disjoint(rw[j].op, rw[k].op)
  }

  ghost predicate Ranged(rw: Program)
  {
    forall k :: 0 <= k < |rw| && IsReplace(rw[k]) ==> rw[k].op.index <= rw[k].op.lastIndex
  }

  /** The slots hold replaces over the same ranges. */
  ghost predicate SameRange(a: Slot, b: Slot)
  {
    && (IsReplace(a) <==> IsReplace(b))
    && (IsReplace(a) ==> a.op.index == b.op.index && a.op.lastIndex == b.op.lastIndex)
  }

  ghost predicate SameRanges(a: Program, b: Program)
  {
    |a| == |b| && forall k :: 0 <= k < |a| ==> SameRange(a[k], b[k])
  }

  lemma SameRangesCovered(a: Program, b: Program, p: nat)
    requires SameRanges(a, b)
    ensures Covered(a, p) <==> Covered(b, p)
  {
    if k :| 0 <= k < |a| && Covers(a[k], p) {
      assert SameRange(a[k], b[k]) && Covers(b[k], p);
    }
    if k :| 0 <= k < |b| && Covers(b[k], p) {
      assert SameRange(a[k], b[k]) && Covers(a[k], p);
    }
  }

  /** Where the replace in slot i stands after meeting slots 0..k. */
  ghost predicate Met(rw: Program, d: Program, i: nat, k: nat)
    requires k <= i < |rw|
  {
    && |d| == |rw| && IsReplace(rw[i]) && IsReplace(d[i]) && Ranged(d)
    && (forall m :: 0 <= m < |rw| && m != i ==> d[m] == rw[m] || (m < k && d[m] == Empty))
    && (forall m :: 0 <= m < k && IsReplace(d[m]) ==> Disjoint(d[m].op, d[i].op))
  }

  lemma DropOneMet(rw: Program, d: Program, merges: nat, i: nat, k: nat)
    requires k < i < |rw| && Apart(rw, i) && Ranged(rw) && Met(rw, d, i, k)
    requires DropOne(d, merges, i, k).Reduced?
    ensures Met(rw, DropOne(d, merges, i, k).rw, i, k + 1)
  {
  }

  lemma DropOneCovered(rw: Program, merges: nat, i: nat, k: nat, p: nat)
    requires k < i < |rw| && IsReplace(rw[i]) && Ranged(rw)
    requires DropOne(rw, merges, i, k).Reduced?
    ensures Covered(rw, p) <==> Covered(DropOne(rw, merges, i, k).rw, p)
  {
    var d := DropOne(rw, merges, i, k).rw;
    assert Covers(d[i], p) <==> Covers(rw[i], p) || (d[k] != rw[k] && Covers(rw[k], p));
    if m :| 0 <= m < |rw| && Covers(rw[m], p) {
      assert Covers(d[m], p) || Covers(d[i], p);
    }
    if m :| 0 <= m < |rw| && Covers(d[m], p) {
      assert Covers(rw[m], p) || Covers(rw[i], p) || Covers(rw[k], p);
    }
  }

  lemma {:induction false} DropMet(rw: Program, merges: nat, i: nat, k: nat)
    requires k <= i < |rw| && IsReplace(rw[i]) && Apart(rw, i) && Ranged(rw)
    requires Drop(rw, merges, i, k).Reduced?
    ensures Met(rw, Drop(rw, merges, i, k).rw, i, k)
    ensures forall p :: Covered(rw, p) <==> Covered(Drop(rw, merges, i, k).rw, p)
  {
    if k > 0 {
      DropMet(rw, merges, i, k - 1);
      var d := Drop(rw, merges, i, k - 1);
      DropOneMet(rw, d.rw, d.merges, i, k - 1);
      forall p
        ensures Covered(rw, p) <==> Covered(Drop(rw, merges, i, k).rw, p)
      {
        DropOneCovered(d.rw, d.merges, i, k - 1, p);
      }
    }
  }

  lemma {:induction false} WalkReplacesKeeps(s: Program, i: nat)
    requires i <= |s| && Ranged(s) && WalkReplaces(s, i).Reduced?
    ensures var rw := WalkReplaces(s, i).rw;
      && Ranged(rw) && Apart(rw, i)
      && (forall k :: i <= k < |s| ==> rw[k] == s[k])
      && (forall p :: Covered(rw, p) <==> Covered(s, p))
  {
    hide *;
    if i == 0 {
      WalkStart(s);
    } else {
      WalkReplacesNext(s, i - 1);
      WalkReplacesKeeps(s, i - 1);
      var w := WalkReplaces(s, i - 1);
      if IsReplace(w.rw[i - 1]) {
        var a := Absorb(w.rw, i - 1);
        AbsorbRanges(w.rw, i - 1);
        DropMet(a, w.merges, i - 1, i - 1);
        MetApart(a, Drop(a, w.merges, i - 1, i - 1).rw, i - 1);
      } else {
        NoReplaceApart(w.rw, i - 1);
      }
    }
  }

  lemma WalkStart(s: Program)
    ensures WalkReplaces(s, 0) == Reduced(s, 0) && Apart(s, 0)
  {
  }

  lemma MetApart(a: Program, d: Program, i: nat)
    requires i < |a| && Apart(a, i) && Met(a, d, i, i)
    ensures |d| == |a| && Ranged(d) && Apart(d, i + 1) && forall k :: i < k < |a| ==> d[k] == a[k]
  {
  }

  lemma NoReplaceApart(rw: Program, i: nat)
    requires i < |rw| && Apart(rw, i) && !IsReplace(rw[i])
    ensures Apart(rw, i + 1)
  {
  }

  /** Absorbing inserts touches no replace's range, and nothing from slot i + 1 on. */
  lemma AbsorbRanges(rw: Program, i: nat)
    requires i < |rw| && IsReplace(rw[i]) && Ranged(rw) && Apart(rw, i)
    ensures Ranged(Absorb(rw, i)) && Apart(Absorb(rw, i), i)
    ensures forall k :: i < k < |rw| ==> Absorb(rw, i)[k] == rw[k]
    ensures forall p :: Covered(rw, p) <==> Covered(Absorb(rw, i), p)
  {
    var a := Absorb(rw, i);
    assert forall k :: 0 <= k < |a| ==> SameRange(rw[k], a[k]);
    hide Absorb;
    forall p
      ensures Covered(rw, p) <==> Covered(a, p)
    {
      SameRangesCovered(rw, a, p);
    }
  }

  lemma {:induction false} PrependRanges(rw: Program, merges: nat, iop: Op, i: nat, k: nat)
    requires k <= i < |rw| && !IsReplace(rw[i])
    ensures SameRanges(rw, Prepend(rw, merges, iop, i, k).rw)
  {
    if k > 0 {
      PrependRanges(rw, merges, iop, i, k - 1);
    }
  }

  lemma {:induction false} WalkInsertsRanges(rw: Program, merges: nat, i: nat)
    requires i <= |rw|
    ensures SameRanges(rw, WalkInserts(rw, merges, i).rw)
  {
    if i > 0 {
      WalkInsertsRanges(rw, merges, i - 1);
      var w := WalkInserts(rw, merges, i - 1);
      if w.Reduced? && IsInsert(w.rw[i - 1]) {
        var c := Combine(w.rw, i - 1);
        assert SameRanges(w.rw, c);
        PrependRanges(c, merges, c[i - 1].op, i - 1, i - 1);
      }
    }
  }

  /** Main result. Whenever the reduction returns normally, however many deletes it merged, the
      surviving replaces are pairwise disjoint and replace exactly the tokens the script replaced. */
  lemma ReduceCoverage(s: Program, n: nat)
    requires WellFormed(s, n) && Reduce(s).Reduced?
    ensures Apart(Reduce(s).rw, |s|)
    ensures forall p :: Covered(Reduce(s).rw, p) <==> Covered(s, p)
  {
    WalkReplacesKeeps(s, |s|);
    var w := WalkReplaces(s, |s|);
    WalkInsertsRanges(w.rw, w.merges, |s|);
    var v := WalkInserts(w.rw, w.merges, |s|);
    assert Apart(v.rw, |s|) by {
      assert forall k :: 0 <= k < |s| ==> SameRange(w.rw[k], v.rw[k]);
    }
    forall p
      ensures Covered(w.rw, p) <==> Covered(v.rw, p)
    {
      SameRangesCovered(w.rw, v.rw, p);
    }
  }

  lemma {:induction false} DropWellFormed(rw: Program, merges: nat, i: nat, k: nat, n: nat)
    requires k <= i < |rw| && IsReplace(rw[i]) && WellFormed(rw, n)
    ensures WellFormed(Drop(rw, merges, i, k).rw, n)
  {
    if k > 0 {
      DropWellFormed(rw, merges, i, k - 1, n);
    }
  }

  lemma {:induction false} WalkReplacesWellFormed(rw: Program, i: nat, n: nat)
    requires i <= |rw| && WellFormed(rw, n)
    ensures WellFormed(WalkReplaces(rw, i).rw, n)
  {
    if i > 0 {
      WalkReplacesWellFormed(rw, i - 1, n);
      var w := WalkReplaces(rw, i - 1);
      if w.Reduced? && IsReplace(w.rw[i - 1]) {
        DropWellFormed(Absorb(w.rw, i - 1), w.merges, i - 1, i - 1, n);
      }
    }
  }

  /** The reduction keeps the queue admissible, also when it fails half way. */
  lemma ReduceWellFormed(rw: Program, n: nat)
    requires WellFormed(rw, n)
    ensures WellFormed(Reduce(rw).rw, n)
  {
    WalkReplacesWellFormed(rw, |rw|, n);
    var w := WalkReplaces(rw, |rw|);
    if w.Reduced? {
      WalkInsertsRanges(w.rw, w.merges, |rw|);
      assert forall k :: 0 <= k < |rw| ==> SameRange(w.rw[k], WalkInserts(w.rw, w.merges, |rw|).rw[k]);
    }
  }
}
