/**
 What the reduction does to every script, merged deletes included: which ranges are left, which
 inserts stay queued, and which of the three errors is raised, if any.
 */
module RewriterMerges {
  import opened Basics
  import opened TokenRewriter
  import opened RewriterMeaning
  import opened RewriterTheorems
  import opened RewriterCoverage

  // ---------------------------------------------------------------- the ranges that are left

  /** The tokens a replace stands for after merging; Gone when a later one has taken its place. */
  datatype Zone = Gone | Zone(lo: nat, hi: nat)

  type Range = z: Zone | z.Zone? witness Zone(0, 0)

  /** The range written in the script. */
  function RangeOf(op: Op): (r: Range)
    requires op.Replace?
  {
    Zone(op.index, op.lastIndex)
  }

  predicate Touches(z: Zone, r: Range) { z.Zone? && z.lo <= r.hi && r.lo <= z.hi }

  predicate Inside(z: Zone, r: Range) { z.Zone? && r.lo <= z.lo && z.hi <= r.hi }

  /** r together with the zones of slots 0..k that it touches. */
  function Hull(z: seq<Zone>, r: Range, k: nat): (h: Range)
    requires k <= |z|
    ensures h.lo <= r.lo && r.hi <= h.hi
    ensures h.lo == r.lo || exists m :: 0 <= m < k && Touches(z[m], r) && z[m].lo == h.lo
    ensures h.hi == r.hi || exists m :: 0 <= m < k && Touches(z[m], r) && z[m].hi == h.hi
  {
    if k == 0 then r
    else
      var h := Hull(z, r, k - 1);
      if Touches(z[k - 1], r) then Zone(Min(h.lo, z[k - 1].lo), Max(h.hi, z[k - 1].hi)) else h
  }

  /** A new replace takes the place of every zone its range touches. */
  function Joined(z: seq<Zone>, r: Range): (j: seq<Zone>)
    ensures |j| == |z| + 1
  {
    seq(|z|, k requires 0 <= k < |z| => if Touches(z[k], r) then Gone else z[k]) + [Hull(z, r, |z|)]
  }

  /** The zones of slots 0..i, from the ranges of the script alone. */
  function Zones(s: Program, i: nat): (z: seq<Zone>)
    requires i <= |s|
    ensures |z| == i
    ensures forall k :: 0 <= k < i && z[k].Zone? ==> IsReplace(s[k])
  {
    if i == 0 then []
    else if IsReplace(s[i - 1]) then Joined(Zones(s, i - 1), RangeOf(s[i - 1].op))
    else Zones(s, i - 1) + [Gone]
  }

  /** The replace in slot i straddles the zone of slot k, and one of the two has a text. */
  ghost predicate Straddles(s: Program, i: nat, k: nat)
    requires k < i < |s| && IsReplace(s[i])
  {
    var z, r := Zones(s, i)[k], RangeOf(s[i].op);
    Touches(z, r) && !Inside(z, r) && (SweptText(s, k) != "" || SweptText(s, i) != "")
  }

  /** The first pass raises its error at slot i. */
  ghost predicate Troubled(s: Program, i: nat)
    requires i < |s|
  {
    IsReplace(s[i]) && exists k :: 0 <= k < i && Straddles(s, i, k)
  }

  /** Slot k once the first pass has handled slots 0..i. */
  ghost function MergedSlot(s: Program, i: nat, k: nat): Slot
    requires i <= |s| && k < |s|
  {
    if k >= i then s[k]
    else if IsInsert(s[k]) then
      if CoveredUpTo(s, s[k].op.index, i) <= k then s[k] else Empty
    else if Zones(s, i)[k].Zone? then
      Live(Replace(Zones(s, i)[k].lo, Zones(s, i)[k].hi, SweptText(s, k)))
    else Empty
  }

  ghost function Merged(s: Program, i: nat): (t: Program)
    requires i <= |s|
    ensures |t| == |s|
  {
    seq(|s|, k requires 0 <= k < |s| => MergedSlot(s, i, k))
  }

  // ---------------------------------------------------------------- one replace against the queue

  ghost predicate ZonesApart(z: seq<Zone>)
  {
    && (forall k :: 0 <= k < |z| && z[k].Zone? ==> z[k].lo <= z[k].hi)
    && (forall j, k :: 0 <= j < k < |z| && z[j].Zone? && z[k].Zone? ==> z[j].hi < z[k].lo || z[k].hi < z[j].lo)
  }

  /** The next zone meets the range grown so far exactly as it meets the range in the script. */
  lemma HullMeets(z: seq<Zone>, r: Range, k: nat)
    requires k < |z| && ZonesApart(z) && z[k].Zone? && r.lo <= r.hi
    ensures Touches(z[k], Hull(z, r, k)) <==> Touches(z[k], r)
    ensures Inside(z[k], Hull(z, r, k)) <==> Inside(z[k], r)
  {
    var h := Hull(z, r, k);
    hide Hull;
    if h.lo != r.lo {
      var m :| 0 <= m < k && Touches(z[m], r) && z[m].lo == h.lo;
      assert z[m].hi < z[k].lo || z[k].hi < z[m].lo;
    }
    if h.hi != r.hi {
      var m :| 0 <= m < k && Touches(z[m], r) && z[m].hi == h.hi;
      assert z[m].hi < z[k].lo || z[k].hi < z[m].lo;
    }
  }

  ghost predicate StandsFor(s: Slot, z: Zone)
  {
    (IsReplace(s) <==> z.Zone?) && (IsReplace(s) ==> RangeOf(s.op) == z)
  }

  /** The replaces queued in slots 0..|z| stand for the zones z. */
  ghost predicate InZones(rw: Program, z: seq<Zone>)
    requires |z| <= |rw|
  {
    ZonesApart(z) && forall k :: 0 <= k < |z| ==> StandsFor(rw[k], z[k])
  }

  ghost predicate Blocked(rw: Program, z: seq<Zone>, i: nat, k: nat)
    requires k < |z| == i < |rw| && IsReplace(rw[i])
  {
    && rw[k].Live? && Touches(z[k], RangeOf(rw[i].op)) && !Inside(z[k], RangeOf(rw[i].op))
    && (rw[k].op.text != "" || rw[i].op.text != "")
  }

  ghost predicate Unblocked(rw: Program, z: seq<Zone>, i: nat, k: nat)
    requires k <= |z| == i < |rw| && IsReplace(rw[i])
  {
    forall j :: 0 <= j < k ==> !Blocked(rw, z, i, j)
  }

  lemma UnblockedNext(rw: Program, z: seq<Zone>, i: nat, k: nat)
    requires k < |z| == i < |rw| && IsReplace(rw[i])
    ensures Unblocked(rw, z, i, k + 1) <==> Unblocked(rw, z, i, k) && !Blocked(rw, z, i, k)
  {
  }

  /** Slot m once the replace in slot i has met the slots 0..k. */
  ghost function GrownSlot(rw: Program, z: seq<Zone>, i: nat, k: nat, m: nat): Slot
    requires k <= |z| == i < |rw| && IsReplace(rw[i]) && m < |rw|
  {
    var r := RangeOf(rw[i].op);
    if m < k && Touches(z[m], r) then Empty
    else if m == i then Live(Replace(Hull(z, r, k).lo, Hull(z, r, k).hi, rw[i].op.text))
    else rw[m]
  }

  ghost function Grown(rw: Program, z: seq<Zone>, i: nat, k: nat): (r: Program)
    requires k <= |z| == i < |rw| && IsReplace(rw[i])
    ensures |r| == |rw|
  {
    seq(|rw|, m requires 0 <= m < |rw| => GrownSlot(rw, z, i, k, m))
  }

  lemma GrownStart(rw: Program, z: seq<Zone>, i: nat)
    requires |z| == i < |rw| && IsReplace(rw[i])
    ensures Grown(rw, z, i, 0) == rw
  {
    forall m | 0 <= m < |rw| ensures GrownSlot(rw, z, i, 0, m) == rw[m] {
    }
  }

  lemma GrownStep(rw: Program, z: seq<Zone>, i: nat, k: nat)
    requires k < |z| == i < |rw| && IsReplace(rw[i])
    ensures var r, g := RangeOf(rw[i].op), Grown(rw, z, i, k);
      var now, h := Grown(rw, z, i, k + 1), Hull(z, r, k);
      && g[k] == rw[k] && g[i] == Live(Replace(h.lo, h.hi, rw[i].op.text))
      && (!Touches(z[k], r) ==> now == g)
      && (Touches(z[k], r) ==>
            now == g[k := Empty][i := Live(Replace(Min(h.lo, z[k].lo), Max(h.hi, z[k].hi), rw[i].op.text))])
  {
    var g, now := Grown(rw, z, i, k), Grown(rw, z, i, k + 1);
    forall m | 0 <= m < |rw|
      ensures g[m] == GrownSlot(rw, z, i, k, m) && now[m] == GrownSlot(rw, z, i, k + 1, m)
    {
    }
  }

  lemma GrowOne(rw: Program, merges: nat, z: seq<Zone>, i: nat, k: nat)
    requires k < |z| == i < |rw| && IsReplace(rw[i]) && InZones(rw, z) && rw[i].op.index <= rw[i].op.lastIndex
    ensures var d := DropOne(Grown(rw, z, i, k), merges, i, k);
      && (d.Reduced? <==> !Blocked(rw, z, i, k))
      && (d.Reduced? ==> d.rw == Grown(rw, z, i, k + 1))
  {
    assert StandsFor(rw[k], z[k]);
    GrownStep(rw, z, i, k);
    if z[k].Zone? {
      HullMeets(z, RangeOf(rw[i].op), k);
    }
    hide Grown, Hull, InZones;
    var g, h := Grown(rw, z, i, k), Hull(z, RangeOf(rw[i].op), k);
    if z[k].Zone? && Inside(z[k], h) {
      assert g[k := Empty] == g[k := Empty][i := g[i]];
    }
  }

  lemma {:induction false} DropZones(rw: Program, merges: nat, z: seq<Zone>, i: nat, k: nat)
    requires k <= |z| == i < |rw| && IsReplace(rw[i]) && InZones(rw, z) && rw[i].op.index <= rw[i].op.lastIndex
    ensures Drop(rw, merges, i, k).Reduced? <==> Unblocked(rw, z, i, k)
    ensures Drop(rw, merges, i, k).Reduced? ==> Drop(rw, merges, i, k).rw == Grown(rw, z, i, k)
  {
    if k == 0 {
      GrownStart(rw, z, i);
    } else {
      DropNext(rw, merges, i, k - 1);
      UnblockedNext(rw, z, i, k - 1);
      hide Grown, Blocked, Unblocked, DropOne, InZones, Drop;
      DropZones(rw, merges, z, i, k - 1);
      var d := Drop(rw, merges, i, k - 1);
      if d.Reduced? {
        GrowOne(rw, d.merges, z, i, k - 1);
      }
    }
  }

  // ---------------------------------------------------------------- the first pass

  /** Which inserts at p are still queued when slot i is reached. */
  lemma MergedInsert(s: Program, i: nat, p: nat, k: nat)
    requires k < i <= |s|
    ensures InsertAt(Merged(s, i)[k], p) <==> InsertAt(s[k], p) && CoveredUpTo(s, p, i) <= k
    ensures InsertAt(Merged(s, i)[k], p) ==> Merged(s, i)[k] == s[k]
  {
    assert Merged(s, i)[k] == MergedSlot(s, i, k);
  }

  lemma MergedText(s: Program, i: nat)
    requires i < |s| && IsReplace(s[i])
    ensures LatestFirst(Merged(s, i), s[i].op.index, 0, i) + s[i].op.text == SweptText(s, i)
  {
    hide Merged;
    forall k | 0 <= k < i {
      MergedInsert(s, i, s[i].op.index, k);
    }
    QueuedText(s, Merged(s, i), i);
  }

  lemma MergedInZones(s: Program, i: nat)
    requires i <= |s| && Apart(Merged(s, i), i) && Ranged(Merged(s, i))
    ensures InZones(Merged(s, i), Zones(s, i))
  {
    var t, z := Merged(s, i), Zones(s, i);
    forall k | 0 <= k < i
      ensures StandsFor(t[k], z[k])
    {
      assert t[k] == MergedSlot(s, i, k);
    }
  }

  /** The queue when the replace in slot i has absorbed the inserts and is about to meet the others. */
  lemma AbsorbedSlot(s: Program, i: nat, k: nat)
    requires i < |s| && IsReplace(s[i]) && k < |s|
    ensures Merged(s, i)[i] == s[i]
    ensures Absorb(Merged(s, i), i)[k] ==
      if k == i then Live(s[i].op.(text := SweptText(s, i)))
      else if k < i && IsInsert(s[k]) && Covers(s[i], s[k].op.index) then Empty
      else MergedSlot(s, i, k)
  {
    assert Merged(s, i)[i] == MergedSlot(s, i, i);
    assert Merged(s, i)[k] == MergedSlot(s, i, k);
    MergedText(s, i);
  }

  /** Handling the replace in slot i takes Merged(s, i) to Merged(s, i + 1), or fails. */
  lemma MergeStep(s: Program, merges: nat, i: nat)
    requires i < |s| && IsReplace(s[i]) && Ranged(s)
    requires Apart(Merged(s, i), i) && Ranged(Merged(s, i))
    ensures IsReplace(Merged(s, i)[i])
    ensures var d := Drop(Absorb(Merged(s, i), i), merges, i, i);
      && (d.Reduced? <==> !Troubled(s, i))
      && (d.Reduced? ==> d.rw == Merged(s, i + 1))
  {
    AbsorbedSlot(s, i, i);
    var a, z := Absorb(Merged(s, i), i), Zones(s, i);
    MergedInZones(s, i);
    forall k | 0 <= k < i
      ensures StandsFor(a[k], z[k])
      ensures z[k].Zone? ==> a[k].op.text == SweptText(s, k)
    {
      AbsorbedSlot(s, i, k);
    }
    hide Absorb, Merged, Drop, SweptText;
    DropZones(a, merges, z, i, i);
    forall k | 0 <= k < i
      ensures Blocked(a, z, i, k) <==> Straddles(s, i, k)
    {
    }
    GrownIsMerged(s, i);
  }

  lemma GrownIsMerged(s: Program, i: nat)
    requires i < |s| && IsReplace(s[i]) && IsReplace(Merged(s, i)[i])
    ensures Grown(Absorb(Merged(s, i), i), Zones(s, i), i, i) == Merged(s, i + 1)
  {
    var a, z := Absorb(Merged(s, i), i), Zones(s, i);
    hide Absorb, SweptText;
    AbsorbedSlot(s, i, i);
    forall k | 0 <= k < |s|
      ensures GrownSlot(a, z, i, i, k) == MergedSlot(s, i + 1, k)
    {
      AbsorbedSlot(s, i, k);
      if k < i && IsInsert(s[k]) {
        CoveredUpToStep(s, s[k].op.index, i);
      }
    }
  }

  lemma MergedStart(s: Program)
    ensures Merged(s, 0) == s && WalkReplaces(s, 0) == Reduced(s, 0)
  {
    forall k | 0 <= k < |s| ensures MergedSlot(s, 0, k) == s[k] {
    }
  }

  lemma MergedAhead(s: Program, i: nat)
    requires i < |s|
    ensures Merged(s, i)[i] == s[i]
    ensures !IsReplace(s[i]) ==> Merged(s, i + 1) == Merged(s, i)
  {
    assert Merged(s, i)[i] == MergedSlot(s, i, i);
    if !IsReplace(s[i]) {
      forall k | 0 <= k < |s|
        ensures MergedSlot(s, i + 1, k) == MergedSlot(s, i, k)
      {
        if k < i && IsInsert(s[k]) { CoveredUpToStep(s, s[k].op.index, i); }
      }
      assert Merged(s, i + 1) == Merged(s, i);
    }
  }

  /** The first pass on every script. It fails exactly where a replace straddles a zone and texts are
      at stake; otherwise deletes merge into zones, and an insert stays queued exactly when no later
      range of the script covers its token. */
  lemma {:induction false} MergeMeaning(s: Program, i: nat)
    requires i <= |s| && Ranged(s)
    ensures WalkReplaces(s, i).Reduced? <==> forall k :: 0 <= k < i ==> !Troubled(s, k)
    ensures WalkReplaces(s, i).Reduced? ==> WalkReplaces(s, i).rw == Merged(s, i)
  {
    hide *;
    if i == 0 {
      MergedStart(s);
    } else {
      WalkReplacesNext(s, i - 1);
      MergeMeaning(s, i - 1);
      var w := WalkReplaces(s, i - 1);
      if w.Reduced? {
        WalkReplacesKeeps(s, i - 1);
        MergedAhead(s, i - 1);
        if IsReplace(s[i - 1]) {
          MergeStep(s, w.merges, i - 1);
        } else {
          NoReplaceNoTrouble(s, i - 1);
        }
      }
    }
  }

  lemma NoReplaceNoTrouble(s: Program, i: nat)
    requires i < |s| && !IsReplace(s[i])
    ensures !Troubled(s, i)
  {
  }

  // ---------------------------------------------------------------- between the passes

  lemma ApartOneCover(t: Program)
    requires Apart(t, |t|) && Ranged(t)
    ensures OneCover(t)
  {
    forall k, p: nat | 0 <= k < |t|
      ensures Host(t, k, p)
    {
      if Covers(t[k], p) {
        CoveredUpToLast(t, p, |t|, k);
      }
    }
  }

  /** The queue between the passes covers no token twice. */
  lemma MergedSettled(s: Program)
    requires Ranged(s) && WalkReplaces(s, |s|).Reduced?
    ensures WalkReplaces(s, |s|).rw == Merged(s, |s|)
    ensures OneCover(Merged(s, |s|)) && Ranged(Merged(s, |s|))
  {
    MergeMeaning(s, |s|);
    WalkReplacesKeeps(s, |s|);
    ApartOneCover(Merged(s, |s|));
  }

  lemma {:induction false} RemainingInsertedUpTo(s: Program, t: Program, p: nat, c: nat, i: nat)
    requires i <= |s| == |t|
    requires forall k :: 0 <= k < |s| ==> (InsertAt(t[k], p) <==> InsertAt(s[k], p) && c <= k)
    ensures InsertedUpTo(t, p, i) == if InsertedUpTo(s, p, i) > c then InsertedUpTo(s, p, i) else 0
  {
    if i > 0 {
      RemainingInsertedUpTo(s, t, p, c, i - 1);
    }
  }

  lemma MergedInsertedUpTo(s: Program, p: nat, i: nat)
    requires i <= |s|
    ensures InsertedUpTo(Merged(s, |s|), p, i) ==
      if InsertedUpTo(s, p, i) > CoveredUpTo(s, p, |s|) then InsertedUpTo(s, p, i) else 0
  {
    hide Merged, CoveredUpTo, InsertedUpTo;
    forall k | 0 <= k < |s|
      ensures InsertAt(Merged(s, |s|)[k], p) <==> InsertAt(s[k], p) && CoveredUpTo(s, p, |s|) <= k
    {
      MergedInsert(s, |s|, p, k);
    }
    RemainingInsertedUpTo(s, Merged(s, |s|), p, CoveredUpTo(s, p, |s|), i);
  }

  lemma MergedReplace(s: Program, k: nat)
    requires k < |s|
    ensures StandsFor(Merged(s, |s|)[k], Zones(s, |s|)[k])
  {
    assert Merged(s, |s|)[k] == MergedSlot(s, |s|, k);
  }

  // ---------------------------------------------------------------- the three errors, in terms of the script

  /** The insert in slot k is still queued and lands inside a zone queued before it. */
  ghost predicate Stuck(s: Program, k: nat)
    requires k < |s|
  {
    IsInsert(s[k]) &&
    var p := s[k].op.index;
    CoveredUpTo(s, p, |s|) <= k &&
    InsideZone(Zones(s, |s|), p, k)
  }

  /** Some zone of an earlier slot holds p, but does not start there. */
  ghost predicate InsideZone(z: seq<Zone>, p: nat, k: nat)
  {
    exists i :: 0 <= i < k && i < |z| && z[i].Zone? && z[i].lo < p <= z[i].hi
  }

  lemma StuckIsLate(s: Program, k: nat)
    requires k < |s| && OneCover(Merged(s, |s|))
    ensures Late(Merged(s, |s|), k) <==> Stuck(s, k)
  {
    if IsInsert(s[k]) {
      var p := s[k].op.index;
      MergedInsert(s, |s|, p, k);
      hide Merged, Zones, InsideZone, CoveredUpTo, OneCover;
      HostIsZone(s, p, k);
    } else {
      assert Merged(s, |s|)[k] == MergedSlot(s, |s|, k);
    }
  }

  /** The replace that covers p between the passes starts earlier exactly when a zone is around p. */
  lemma HostIsZone(s: Program, p: nat, k: nat)
    requires k < |s| && OneCover(Merged(s, |s|))
    ensures var t := Merged(s, |s|);
      var j := CoveredUpTo(t, p, |t|);
      0 < j <= k && t[j - 1].op.index < p <==> InsideZone(Zones(s, |s|), p, k)
  {
    hide Merged, Zones, CoveredUpTo;
    var t, z := Merged(s, |s|), Zones(s, |s|);
    var j := CoveredUpTo(t, p, |t|);
    if 0 < j {
      MergedReplace(s, j - 1);
    }
    if i :| 0 <= i < k && z[i].Zone? && z[i].lo < p <= z[i].hi {
      MergedReplace(s, i);
      assert Host(t, i, p);
    }
  }

  /** The zone of slot i starts where inserts stand that were queued before it, outside its own range
      and the later ones, and no insert queued after it takes them over. */
  ghost predicate Doubled(s: Program, i: nat)
    requires i < |s|
  {
    Zones(s, |s|)[i].Zone? &&
    var p := Zones(s, |s|)[i].lo;
    CoveredUpTo(s, p, |s|) < InsertedUpTo(s, p, |s|) <= i
  }

  /** The replace in slot i starts where an insert stands in an earlier slot and none in a later one. */
  ghost predicate DoubledAt(t: Program, i: nat)
    requires i < |t|
  {
    && IsReplace(t[i])
    && (exists k :: 0 <= k < i && InsertAt(t[k], t[i].op.index))
    && (forall k :: i < k < |t| ==> !InsertAt(t[k], t[i].op.index))
  }

  lemma DoubledAtCounts(t: Program, i: nat)
    requires i < |t|
    ensures DoubledAt(t, i) <==> IsReplace(t[i]) && 0 < InsertedUpTo(t, t[i].op.index, |t|) <= i
  {
    if IsReplace(t[i]) {
      var p := t[i].op.index;
      var r := InsertedUpTo(t, p, |t|);
      InsertedUpToLast(t, p, |t|);
      hide InsertedUpTo, LatestFirst;
      if r > 0 {
        assert InsertAt(t[r - 1], p) && r - 1 != i;
      }
    }
  }

  lemma DoubledIsDoubledAt(s: Program, i: nat)
    requires i < |s|
    ensures DoubledAt(Merged(s, |s|), i) <==> Doubled(s, i)
  {
    MergedReplace(s, i);
    DoubledAtCounts(Merged(s, |s|), i);
    if Zones(s, |s|)[i].Zone? {
      MergedInsertedUpTo(s, Zones(s, |s|)[i].lo, |s|);
    }
  }

  // ---------------------------------------------------------------- after the second pass

  lemma GatheredLive(t: Program, k: nat)
    requires k < |t|
    ensures var f := Gathered(t, |t|)[k];
      && (IsReplace(t[k]) ==> f == Live(t[k].op.(text := HostedText(t, |t|, k))))
      && (IsInsert(t[k]) && f.Live? ==> f == Live(InsertBefore(t[k].op.index, LatestFirst(t, t[k].op.index, 0, k + 1))))
      && (IsInsert(t[k]) ==>
            (f.Live? <==> InsertedUpTo(t, t[k].op.index, |t|) == k + 1 && Standing(t, t[k].op.index, k)))
      && (t[k].Empty? ==> f.Empty?)
  {
    assert Gathered(t, |t|)[k] == GatheredSlot(t, |t|, k);
  }

  lemma SharedIndex(t: Program, j: nat, k: nat)
    requires OneCover(t) && j < k < |t|
    requires var f := Gathered(t, |t|);
      f[j].Live? && f[k].Live? && f[j].op.index == f[k].op.index
    ensures DoubledAt(t, j) || DoubledAt(t, k)
  {
    GatheredLive(t, j);
    GatheredLive(t, k);
    DoubledAtCounts(t, j);
    DoubledAtCounts(t, k);
    hide Gathered, OneCover, InsertedUpTo, CoveredUpTo, DoubledAt, LatestFirst, HostedText;
    assert Host(t, j, t[j].op.index) && Host(t, k, t[j].op.index);
  }

  /** The second pass leaves two operations at one index exactly when a replace is doubled. */
  lemma GatheredIndices(t: Program)
    requires OneCover(t)
    ensures OnePerIndex(Gathered(t, |t|), |t|) <==> forall i :: 0 <= i < |t| ==> !DoubledAt(t, i)
  {
    hide Gathered, DoubledAt;
    var f := Gathered(t, |t|);
    forall i | 0 <= i < |t| && DoubledAt(t, i)
      ensures !OnePerIndex(f, |t|)
    {
      DoubledClash(t, i);
    }
    if forall i :: 0 <= i < |t| ==> !DoubledAt(t, i) {
      forall j, k | 0 <= j < k < |t| && f[j].Live? && f[k].Live?
        ensures f[j].op.index != f[k].op.index
      {
        if f[j].op.index == f[k].op.index { SharedIndex(t, j, k); }
      }
    }
  }

  lemma DoubledClash(t: Program, i: nat)
    requires OneCover(t) && i < |t| && DoubledAt(t, i)
    ensures !OnePerIndex(Gathered(t, |t|), |t|)
  {
    DoubledAtCounts(t, i);
    var p := t[i].op.index;
    var r := InsertedUpTo(t, p, |t|);
    assert Host(t, i, p);
    hide Gathered, DoubledAt, InsertedUpTo, LatestFirst, HostedText;
    GatheredLive(t, i);
    GatheredLive(t, r - 1);
  }

  // ---------------------------------------------------------------- the reduction

  /** Both passes and the final check on the queue. */
  lemma ReduceMerged(s: Program)
    requires Ranged(s) && forall i :: 0 <= i < |s| ==> !Troubled(s, i)
    ensures var t, r := Merged(s, |s|), Reduce(s);
      && OneCover(t) && Ranged(t)
      && ((exists k :: 0 <= k < |s| && Late(t, k)) <==> r.Failed? && r.error == InsertInsideReplace)
      && ((forall k :: 0 <= k < |s| ==> !Late(t, k)) && (exists i :: 0 <= i < |s| && DoubledAt(t, i)) <==>
            r.Failed? && r.error == DuplicateIndex)
      && ((forall k :: 0 <= k < |s| ==> !Late(t, k) && !DoubledAt(t, k)) <==> r.Reduced?)
      && (r.Reduced? ==> r.rw == Gathered(t, |s|))
  {
    MergeMeaning(s, |s|);
    MergedSettled(s);
    var w := WalkReplaces(s, |s|);
    GatherMeaning(w.rw, w.merges, |s|);
    InsertsMerges(w.rw, w.merges, |s|);
    hide WalkReplaces, WalkInserts, Merged, Gathered, Late, DoubledAt, OnePerIndex, OneCover, IndexMap;
    var t := Merged(s, |s|);
    GatheredIndices(t);
    IndexMapMeaning(Gathered(t, |s|), |s|);
  }

  /** Main result. What becomes of every script: the reduction raises the overlap error exactly when
      a replace straddles an earlier zone and texts are at stake; failing that, the insert error
      exactly when an insert lands inside an earlier zone; failing both, the one-operation-per-index
      check throws exactly when a zone starts at an insert that nothing removed. */
  lemma ReduceExactly(s: Program, n: nat)
    requires WellFormed(s, n)
    ensures var r := Reduce(s);
      var troubled := exists i :: 0 <= i < |s| && Troubled(s, i);
      var stuck := exists k :: 0 <= k < |s| && Stuck(s, k);
      var doubled := exists i :: 0 <= i < |s| && Doubled(s, i);
      && (r.Failed? && r.error == ReplaceOverlap <==> troubled)
      && (r.Failed? && r.error == InsertInsideReplace <==> !troubled && stuck)
      && (r.Failed? && r.error == DuplicateIndex <==> !troubled && !stuck && doubled)
      && (r.Reduced? <==> !troubled && !stuck && !doubled)
      && (r.Reduced? ==> r.rw == Gathered(Merged(s, |s|), |s|))
  {
    hide Reduce, Merged, Gathered, Troubled, Stuck, Doubled, Late, DoubledAt, OneCover, Zones;
    if exists i :: 0 <= i < |s| && Troubled(s, i) {
      TroubledFails(s);
    } else {
      ReduceMerged(s);
      forall k | 0 <= k < |s|
        ensures Late(Merged(s, |s|), k) <==> Stuck(s, k)
        ensures DoubledAt(Merged(s, |s|), k) <==> Doubled(s, k)
      {
        StuckIsLate(s, k);
        DoubledIsDoubledAt(s, k);
      }
    }
  }

  lemma TroubledFails(s: Program)
    requires Ranged(s) && exists i :: 0 <= i < |s| && Troubled(s, i)
    ensures Reduce(s).Failed? && Reduce(s).error == ReplaceOverlap
  {
    MergeMeaning(s, |s|);
    FirstPassError(s, |s|);
  }

  /** The last error again, in terms of the queue that the first pass leaves. */
  lemma DuplicateIndexExactly(s: Program, n: nat)
    requires WellFormed(s, n)
    ensures var w, r := WalkReplaces(s, |s|), Reduce(s);
      (r.Failed? && r.error == DuplicateIndex <==>
        && w.Reduced? && WalkInserts(w.rw, w.merges, |s|).Reduced?
        && exists i :: 0 <= i < |s| && DoubledAt(w.rw, i))
  {
    var w := WalkReplaces(s, |s|);
    MergeMeaning(s, |s|);
    if w.Reduced? {
      ReduceMerged(s);
      GatherMeaning(w.rw, w.merges, |s|);
    } else {
      FirstPassError(s, |s|);
    }
    hide WalkReplaces, WalkInserts, Merged, Late, DoubledAt, OneCover, Troubled;
  }
}
