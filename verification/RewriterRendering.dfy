/** Rendering a reduced queue shows exactly what the edit script means. */
module RewriterRendering {
  import opened TokenRewriter
  import opened RewriterMeaning
  import opened RewriterTheorems
  import opened RewriterCoverage
  import opened RewriterMerges

  // ---------------------------------------------------------------- what a queue shows

  /** What the queue between the passes shows at token p when rendering starts at token start. */
  function QueuePiece(t: Program, tokens: seq<Token>, start: nat, p: nat): string
  {
    var j := CoveredUpTo(t, p, |t|);
    if j > 0 && t[j - 1].op.index == p then LatestFirst(t, p, 0, |t|) + t[j - 1].op.text
    else if j > 0 && start <= t[j - 1].op.index then ""
    else LatestFirst(t, p, 0, |t|) + TokenText(tokens, p)
  }

  function QueuePieces(t: Program, tokens: seq<Token>, start: nat, i: nat, stop: nat): string
    decreases stop + 1 - i
  {
    if i > stop || i >= |tokens| then ""
    else QueuePiece(t, tokens, start, i) + QueuePieces(t, tokens, start, i + 1, stop)
  }

  /** The range holding token p is entered after start and before p: nothing at p is looked at. */
  predicate Skipped(t: Program, start: nat, p: nat)
  {
    var j := CoveredUpTo(t, p, |t|);
    j > 0 && start <= t[j - 1].op.index < p
  }

  /** Both passes and the final check accept the queue. */
  ghost predicate Quiet(t: Program, n: nat)
  {
    && WellFormed(t, n) && OneCover(t)
    && forall k :: 0 <= k < |t| ==> !Late(t, k) && !DoubledAt(t, k)
  }

  /** The operations handed to the walk. */
  ghost function QueueMap(t: Program): map<nat, Op>
    requires OnePerIndex(Gathered(t, |t|), |t|)
  {
    IndexMapMeaning(Gathered(t, |t|), |t|);
    IndexMap(Gathered(t, |t|), |t|).ops
  }

  /** What the index-to-operation map holds at token p. */
  ghost predicate MapAt(t: Program, m: map<nat, Op>, p: nat)
  {
    var j, text := CoveredUpTo(t, p, |t|), LatestFirst(t, p, 0, |t|);
    if j > 0 && t[j - 1].op.index == p then
      p in m && m[p] == Replace(p, t[j - 1].op.lastIndex, text + t[j - 1].op.text)
    else
      && (p in m <==> InsertedUpTo(t, p, |t|) > 0)
      && (p in m ==> m[p] == InsertBefore(p, text))
  }

  lemma InQueueMap(t: Program, k: nat)
    requires OnePerIndex(Gathered(t, |t|), |t|) && k < |t|
    ensures var f := Gathered(t, |t|)[k];
      f.Live? ==> f.op.index in QueueMap(t) && QueueMap(t)[f.op.index] == f.op
  {
    IndexMapMeaning(Gathered(t, |t|), |t|);
    hide Gathered, IndexMap, OnePerIndex;
  }

  lemma OnlyInQueueMap(t: Program, p: nat)
    requires OnePerIndex(Gathered(t, |t|), |t|) && p in QueueMap(t)
    ensures exists k :: 0 <= k < |t| && IndexedAt(Gathered(t, |t|)[k], p)
  {
    IndexMapMeaning(Gathered(t, |t|), |t|);
    hide Gathered, IndexMap, OnePerIndex;
  }

  lemma HostedInMap(t: Program, n: nat, p: nat)
    requires Quiet(t, n) && OnePerIndex(Gathered(t, |t|), |t|)
    requires var j := CoveredUpTo(t, p, |t|); j > 0 && t[j - 1].op.index == p
    ensures MapAt(t, QueueMap(t), p)
  {
    var k, r := CoveredUpTo(t, p, |t|) - 1, InsertedUpTo(t, p, |t|);
    GatheredLive(t, k);
    InQueueMap(t, k);
    InsertedUpToLast(t, p, |t|);
    NeverInserted(t, p, |t|, k);
    DoubledAtCounts(t, k);
    hide Gathered, QueueMap, DoubledAt, InsertedUpTo, LatestFirst, CoveredUpTo, OneCover;
    assert !DoubledAt(t, k);
    assert r == 0 || r > k + 1;
  }

  lemma InsertInMap(t: Program, n: nat, p: nat)
    requires Quiet(t, n) && OnePerIndex(Gathered(t, |t|), |t|)
    requires var j := CoveredUpTo(t, p, |t|); !(j > 0 && t[j - 1].op.index == p)
    requires InsertedUpTo(t, p, |t|) > 0
    ensures MapAt(t, QueueMap(t), p)
  {
    var r := InsertedUpTo(t, p, |t|);
    GatheredLive(t, r - 1);
    InQueueMap(t, r - 1);
    InsertedUpToLast(t, p, |t|);
    hide Gathered, QueueMap, DoubledAt, InsertedUpTo, LatestFirst, CoveredUpTo, OneCover, Late, HostedText;
    assert !Late(t, r - 1);
    LateOrHosted(t, r - 1, p);
  }

  lemma NothingInMap(t: Program, n: nat, p: nat)
    requires Quiet(t, n) && OnePerIndex(Gathered(t, |t|), |t|)
    requires var j := CoveredUpTo(t, p, |t|); !(j > 0 && t[j - 1].op.index == p)
    requires InsertedUpTo(t, p, |t|) == 0
    ensures MapAt(t, QueueMap(t), p)
  {
    hide Gathered, QueueMap, OneCover, Late, DoubledAt, LatestFirst, CoveredUpTo, InsertedUpTo;
    var f := Gathered(t, |t|);
    if p in QueueMap(t) {
      OnlyInQueueMap(t, p);
    }
    forall k | 0 <= k < |t|
      ensures !IndexedAt(f[k], p)
    {
      if IndexedAt(f[k], p) { LiveOwner(t, k, p); }
    }
  }

  /** What stands at index p after both passes is the replace that starts there or the last insert. */
  lemma LiveOwner(t: Program, k: nat, p: nat)
    requires OneCover(t) && k < |t| && IndexedAt(Gathered(t, |t|)[k], p)
    ensures (CoveredUpTo(t, p, |t|) == k + 1 && t[k].op.index == p) || InsertedUpTo(t, p, |t|) == k + 1
  {
    GatheredLive(t, k);
    assert Host(t, k, p);
  }

  /** The map is keyed and holds at every token what the queue says. */
  ghost predicate IsMapOf(t: Program, m: map<nat, Op>, n: nat)
  {
    && (forall p {:trigger MapAt(t, m, p)} :: MapAt(t, m, p))
    && Keyed(m)
    && (forall p :: p in m && m[p].Replace? ==> m[p].lastIndex < n)
  }

  lemma QueueMapIs(t: Program, n: nat)
    requires Quiet(t, n)
    ensures OnePerIndex(Gathered(t, |t|), |t|) && IsMapOf(t, QueueMap(t), n)
  {
    GatheredIndices(t);
    hide Gathered, OneCover, Late, DoubledAt, QueueMap, OnePerIndex;
    forall p: nat
      ensures MapAt(t, QueueMap(t), p)
      ensures p in QueueMap(t) ==> KeyedAt(QueueMap(t), n, p)
    {
      if CoveredUpTo(t, p, |t|) > 0 && t[CoveredUpTo(t, p, |t|) - 1].op.index == p {
        HostedInMap(t, n, p);
      } else if InsertedUpTo(t, p, |t|) > 0 {
        InsertInMap(t, n, p);
      } else {
        NothingInMap(t, n, p);
      }
      MapAtKeyed(t, QueueMap(t), n, p);
    }
  }

  ghost predicate KeyedAt(m: map<nat, Op>, n: nat, p: nat)
    requires p in m
  {
    m[p].index == p && (m[p].Replace? ==> p <= m[p].lastIndex < n)
  }

  lemma MapAtKeyed(t: Program, m: map<nat, Op>, n: nat, p: nat)
    requires WellFormed(t, n) && MapAt(t, m, p)
    ensures p in m ==> KeyedAt(m, n, p)
  {
  }

  // ---------------------------------------------------------------- walking it

  lemma {:induction false} SkipPieces(t: Program, tokens: seq<Token>, start: nat, q: nat, end: nat, stop: nat)
    requires q <= end
    requires forall p :: q <= p < end ==> QueuePiece(t, tokens, start, p) == ""
    ensures QueuePieces(t, tokens, start, q, stop) == QueuePieces(t, tokens, start, end, stop)
    decreases end - q
  {
    hide QueuePiece;
    if q < end {
      SkipPieces(t, tokens, start, q + 1, end, stop);
      assert "" + QueuePieces(t, tokens, start, q + 1, stop) == QueuePieces(t, tokens, start, q + 1, stop);
    }
  }

  /** m' still has what m has from i on. */
  ghost predicate Remaining(m: map<nat, Op>, m': map<nat, Op>, i: nat)
  {
    && (forall p :: p in m' ==> p in m && m'[p] == m[p])
    && (forall p :: p in m && p >= i ==> p in m')
  }

  /** The piece at a boundary, read off the map. */
  lemma PieceFromMap(t: Program, tokens: seq<Token>, m: map<nat, Op>, start: nat, i: nat)
    requires MapAt(t, m, i) && !Skipped(t, start, i) && start <= i
    ensures QueuePiece(t, tokens, start, i) == Shown(m, tokens, i)
  {
    hide CoveredUpTo, InsertedUpTo, LatestFirst, TokenText;
    if i !in m {
      NothingInserted(t, i);
      assert "" + TokenText(tokens, i) == TokenText(tokens, i);
    }
  }

  lemma NothingInserted(t: Program, p: nat)
    requires InsertedUpTo(t, p, |t|) == 0
    ensures LatestFirst(t, p, 0, |t|) == ""
  {
    InsertedUpToLast(t, p, |t|);
  }

  /** Everything inside the range of the replace at i is skipped and shows nothing. */
  lemma RangeSkipped(t: Program, tokens: seq<Token>, m: map<nat, Op>, start: nat, i: nat, p: nat)
    requires OneCover(t) && IsMapOf(t, m, |tokens|) && start <= i < p < Next(m, i)
    ensures Skipped(t, start, p) && QueuePiece(t, tokens, start, p) == ""
  {
    assert MapAt(t, m, i);
    var j := CoveredUpTo(t, i, |t|);
    hide CoveredUpTo, LatestFirst;
    assert Host(t, j - 1, p);
  }

  /** What follows it is not skipped. */
  lemma NextReached(t: Program, m: map<nat, Op>, n: nat, start: nat, i: nat)
    requires OneCover(t) && IsMapOf(t, m, n) && start <= i && !Skipped(t, start, i)
    requires forall p :: i < p < Next(m, i) ==> Skipped(t, start, p)
    ensures !Skipped(t, start, Next(m, i))
  {
    assert MapAt(t, m, i);
    var next := Next(m, i);
    if CoveredUpTo(t, next, |t|) > 0 {
      var k := CoveredUpTo(t, next, |t|) - 1;
      var a := t[k].op.index;
      hide CoveredUpTo, LatestFirst;
      assert Host(t, k, i) && Host(t, k, a);
      assert i < a < next ==> Skipped(t, start, a);
    }
  }

  lemma NextSkips(t: Program, tokens: seq<Token>, m: map<nat, Op>, start: nat, i: nat)
    requires OneCover(t) && IsMapOf(t, m, |tokens|) && start <= i && !Skipped(t, start, i)
    ensures forall p :: i < p < Next(m, i) ==> Skipped(t, start, p) && QueuePiece(t, tokens, start, p) == ""
    ensures !Skipped(t, start, Next(m, i))
  {
    hide OneCover, MapAt, Skipped, QueuePiece;
    forall p | i < p < Next(m, i)
      ensures Skipped(t, start, p) && QueuePiece(t, tokens, start, p) == ""
    {
      RangeSkipped(t, tokens, m, start, i, p);
    }
    NextReached(t, m, |tokens|, start, i);
  }

  lemma NextPieces(t: Program, tokens: seq<Token>, m: map<nat, Op>, start: nat, i: nat, stop: nat)
    requires Keyed(m) && i <= stop && i < |tokens|
    requires forall p :: i < p < Next(m, i) ==> QueuePiece(t, tokens, start, p) == ""
    ensures QueuePieces(t, tokens, start, i, stop) ==
      QueuePiece(t, tokens, start, i) + QueuePieces(t, tokens, start, Next(m, i), stop)
  {
    SkipPieces(t, tokens, start, i + 1, Next(m, i), stop);
  }

  lemma RemainingStep(m: map<nat, Op>, m': map<nat, Op>, tokens: seq<Token>, i: nat)
    requires Remaining(m, m', i) && Keyed(m)
    ensures Keyed(m') && Keyed(Without(m', i))
    ensures Shown(m', tokens, i) == Shown(m, tokens, i) && Next(m', i) == Next(m, i)
    ensures Remaining(m, Without(m', i), Next(m, i))
  {
  }

  lemma {:induction false} WalkMeaning(t: Program, tokens: seq<Token>, m: map<nat, Op>, m': map<nat, Op>,
                                       start: nat, i: nat, stop: nat)
    requires OneCover(t) && IsMapOf(t, m, |tokens|) && Remaining(m, m', i) && Keyed(m')
    requires start <= i && !Skipped(t, start, i)
    ensures Walk(m', tokens, i, stop).0 == QueuePieces(t, tokens, start, i, stop)
    decreases stop + 1 - i
  {
    if i <= stop && i < |tokens| {
      assert MapAt(t, m, i);
      PieceFromMap(t, tokens, m, start, i);
      NextSkips(t, tokens, m, start, i);
      NextPieces(t, tokens, m, start, i, stop);
      RemainingStep(m, m', tokens, i);
      WalkMeaning(t, tokens, m, Without(m', i), start, Next(m, i), stop);
    }
  }

  /** What the walk from token i leaves over: everything before and past it, and what it skips. */
  ghost predicate LeftOver(t: Program, m: map<nat, Op>, rest: map<nat, Op>, start: nat, i: nat, stop: nat, n: nat)
  {
    && (forall p :: p in rest ==> p in m && rest[p] == m[p])
    && (forall p :: p in m ==> (p in rest <==> !(i <= p <= stop && p < n) || Skipped(t, start, p)))
  }

  lemma {:induction false} WalkLeftOver(t: Program, tokens: seq<Token>, m: map<nat, Op>, m': map<nat, Op>,
                                        start: nat, i: nat, stop: nat)
    requires OneCover(t) && IsMapOf(t, m, |tokens|) && Remaining(m, m', i) && Keyed(m')
    requires start <= i && !Skipped(t, start, i)
    ensures LeftOver(t, m', Walk(m', tokens, i, stop).1, start, i, stop, |tokens|)
    decreases stop + 1 - i
  {
    if i <= stop && i < |tokens| {
      NextSkips(t, tokens, m, start, i);
      RemainingStep(m, m', tokens, i);
      WalkLeftOver(t, tokens, m, Without(m', i), start, Next(m, i), stop);
    }
  }

  // ---------------------------------------------------------------- every script that reduces

  /** Main result. For every script that reduces, merged deletes included, and every interval: the
      walk over the reduced queue writes, token by token, what the queue between the passes shows,
      and leaves over exactly the operations outside the interval and those it skips. */
  lemma RenderMerged(s: Program, tokens: seq<Token>, start: nat, stop: nat)
    requires WellFormed(s, |tokens|) && Reduce(s).Reduced?
    ensures IndexMap(Reduce(s).rw, |s|).Indexed?
    ensures var t, m := Merged(s, |s|), IndexMap(Reduce(s).rw, |s|).ops;
      && Quiet(t, |tokens|) && IsMapOf(t, m, |tokens|)
      && Walk(m, tokens, start, stop).0 == QueuePieces(t, tokens, start, start, stop)
      && LeftOver(t, m, Walk(m, tokens, start, stop).1, start, start, stop, |tokens|)
  {
    var n, t := |tokens|, Merged(s, |s|);
    QuietMerged(s, n);
    NothingSkippedYet(t, start);
    hide Merged, Reduce, OneCover, Gathered, IndexMap, Walk, QueuePieces, LeftOver, Skipped;
    QueueMapIs(t, n);
    var m := QueueMap(t);
    WalkMeaning(t, tokens, m, m, start, start, stop);
    WalkLeftOver(t, tokens, m, m, start, start, stop);
  }

  lemma NothingSkippedYet(t: Program, start: nat)
    ensures !Skipped(t, start, start)
  {
  }

  lemma QuietMerged(s: Program, n: nat)
    requires WellFormed(s, n) && Reduce(s).Reduced?
    ensures Quiet(Merged(s, |s|), n) && Reduce(s).rw == Gathered(Merged(s, |s|), |s|)
  {
    hide Reduce, Merged, Gathered, Late, DoubledAt, OneCover, Troubled;
    ReduceExactly(s, n);
    ReduceMerged(s);
    MergeMeaning(s, |s|);
    WalkReplacesWellFormed(s, |s|, n);
  }

  // ---------------------------------------------------------------- reducing again

  /** An insert is left at p, inside a range that merging has put around it later. */
  ghost predicate StrandedAt(t: Program, p: nat)
  {
    Skipped(t, 0, p) && InsertedUpTo(t, p, |t|) > 0
  }

  /** Main result. Reducing a reduced queue again changes nothing exactly when no insert was stranded;
      a stranded one would now be swallowed by the range around it. */
  lemma ReduceTwice(s: Program, n: nat)
    requires WellFormed(s, n) && Reduce(s).Reduced?
    ensures Reduce(Reduce(s).rw) == Reduced(Reduce(s).rw, 0) <==>
      forall p: nat :: !StrandedAt(Merged(s, |s|), p)
  {
    var t := Merged(s, |s|);
    QuietMerged(s, n);
    hide Merged, Reduce, Gathered, StrandedAt, Quiet;
    if forall p: nat :: !StrandedAt(t, p) {
      QuietSeparated(t, n);
      ReduceSeparated(Gathered(t, |t|), n);
    } else {
      var p: nat :| StrandedAt(t, p);
      StrandedSwallowed(t, n, p);
    }
  }

  lemma QuietSeparated(t: Program, n: nat)
    requires Quiet(t, n) && forall p: nat :: !StrandedAt(t, p)
    ensures Separated(Gathered(t, |t|), n)
  {
    var f := Gathered(t, |t|);
    hide Gathered, Quiet, StrandedAt;
    forall k, p: nat | 0 <= k < |t|
      ensures Alone(f, k, p)
      ensures RangeOk(f, k, n)
    {
      forall m | 0 <= m < |f| && Spans(f[m], p)
        ensures m + 1 == QueueOwner(t, p)
      {
        assert !StrandedAt(t, p);
        LiveSpans(t, n, m, p);
      }
      AloneByOwner(f, k, p, QueueOwner(t, p));
      LiveRange(t, n, k);
    }
  }

  /** The slot that answers for token p after the second pass, as one past it. */
  ghost function QueueOwner(t: Program, p: nat): nat
  {
    if CoveredUpTo(t, p, |t|) > 0 then CoveredUpTo(t, p, |t|) else InsertedUpTo(t, p, |t|)
  }

  lemma LiveSpans(t: Program, n: nat, k: nat, p: nat)
    requires Quiet(t, n) && !StrandedAt(t, p) && k < |t| && Spans(Gathered(t, |t|)[k], p)
    ensures k + 1 == QueueOwner(t, p)
  {
    assert Host(t, k, p);
    hide Quiet, Gathered, DoubledAt, CoveredUpTo, InsertedUpTo, LatestFirst, HostedText, OneCover;
    GatheredLive(t, k);
    var j := CoveredUpTo(t, p, |t|);
    if j > 0 {
      DoubledAtCounts(t, j - 1);
      QuietAt(t, n, j - 1);
    }
  }

  lemma LiveRange(t: Program, n: nat, k: nat)
    requires Quiet(t, n) && k < |t|
    ensures RangeOk(Gathered(t, |t|), k, n)
  {
    GatheredLive(t, k);
    hide Gathered, OneCover, HostedText, LatestFirst;
  }

  lemma LiveRanges(t: Program, n: nat)
    requires Quiet(t, n)
    ensures WellFormed(Gathered(t, |t|), n)
  {
    hide Quiet, Gathered;
    var f := Gathered(t, |t|);
    forall k | 0 <= k < |t|
      ensures IsReplace(f[k]) ==> f[k].op.index <= f[k].op.lastIndex < n
    {
      LiveRange(t, n, k);
    }
  }

  lemma StrandedSwallowed(t: Program, n: nat, p: nat)
    requires Quiet(t, n) && StrandedAt(t, p)
    ensures var f := Gathered(t, |t|); Reduce(f) != Reduced(f, 0)
  {
    hide Quiet, Gathered, StrandedAt, InsertedUpTo, CoveredUpTo, WellFormed;
    var f, r, j := Gathered(t, |t|), InsertedUpTo(t, p, |t|), CoveredUpTo(t, p, |t|);
    StrandedStands(t, n, p);
    LiveRanges(t, n);
    CoveredUpToLast(f, p, |f|, j - 1);
    Swallowed(f, n, p, r - 1);
  }

  /** A stranded insert is left in a slot before that of the range around it. */
  lemma StrandedStands(t: Program, n: nat, p: nat)
    requires Quiet(t, n) && StrandedAt(t, p)
    ensures var f, r, j := Gathered(t, |t|), InsertedUpTo(t, p, |t|), CoveredUpTo(t, p, |t|);
      0 < r < j && InsertAt(f[r - 1], p) && Covers(f[j - 1], p)
  {
    hide Quiet, Gathered, OneCover, DoubledAt, CoveredUpTo, InsertedUpTo, LatestFirst, HostedText;
    var r, j := InsertedUpTo(t, p, |t|), CoveredUpTo(t, p, |t|);
    QuietAt(t, n, r - 1);
    LateOrHosted(t, r - 1, p);
    GatheredLive(t, r - 1);
    GatheredLive(t, j - 1);
  }

  lemma QuietAt(t: Program, n: nat, k: nat)
    requires Quiet(t, n) && k < |t|
    ensures !Late(t, k) && !DoubledAt(t, k)
  {
  }

  /** An insert that a later range covers does not survive a reduction. */
  lemma Swallowed(f: Program, n: nat, p: nat, k: nat)
    requires WellFormed(f, n) && k < |f| && InsertAt(f[k], p) && k < CoveredUpTo(f, p, |f|)
    ensures Reduce(f) != Reduced(f, 0)
  {
    ReduceExactly(f, n);
    assert Merged(f, |f|)[k] == MergedSlot(f, |f|, k);
    GatheredLive(Merged(f, |f|), k);
    hide Reduce, Merged, Gathered, Troubled, Stuck, Doubled, CoveredUpTo;
  }

  // ---------------------------------------------------------------- in terms of the script

  /** The inserts at p that are left between the passes are those after the last range covering p. */
  lemma MergedLatestFirst(s: Program, p: nat)
    ensures LatestFirst(Merged(s, |s|), p, 0, |s|) == LatestFirst(s, p, CoveredUpTo(s, p, |s|), |s|)
  {
    hide Merged, CoveredUpTo;
    var t, c := Merged(s, |s|), CoveredUpTo(s, p, |s|);
    forall k | 0 <= k < |s|
      ensures InsertAt(t[k], p) <==> InsertAt(s[k], p) && c <= k
      ensures InsertAt(t[k], p) ==> t[k] == s[k]
    {
      MergedInsert(s, |s|, p, k);
    }
    LatestFirstSplit(t, p, 0, c, |s|);
    LatestFirstNone(t, p, 0, c);
    LatestFirstFrame(t, s, p, c, |s|);
  }

  /** Past the end there are inserts only. */
  lemma PastEnd(s: Program, m: map<nat, Op>, n: nat, p: nat)
    requires WellFormed(s, n) && WellFormed(Merged(s, |s|), n) && MapAt(Merged(s, |s|), m, p) && p >= n
    ensures p in m <==> InsertedUpTo(s, p, |s|) > 0
    ensures p in m ==> m[p] == InsertBefore(p, LatestFirst(s, p, 0, |s|))
  {
    hide Merged;
    assert CoveredUpTo(s, p, |s|) == 0 == CoveredUpTo(Merged(s, |s|), p, |s|);
    MergedLatestFirst(s, p);
    MergedInsertedUpTo(s, p, |s|);
  }

  // ---------------------------------------------------------------- clean scripts

  lemma CleanQueue(s: Program, n: nat)
    requires WellFormed(s, n) && ConflictFree(s, |s|)
    ensures Merged(s, |s|) == Swept(s, |s|)
  {
    SweepMeaning(s, |s|);
    MergeMeaning(s, |s|);
  }

  lemma CleanHost(s: Program, n: nat, p: nat)
    requires WellFormed(s, n) && ConflictFree(s, |s|)
    ensures var t, j := Merged(s, |s|), CoveredUpTo(s, p, |s|);
      && CoveredUpTo(t, p, |t|) == j
      && (j > 0 ==> t[j - 1] == Live(s[j - 1].op.(text := SweptText(s, j - 1))))
  {
    hide Swept, Merged, CoveredUpTo, ConflictFree, Surviving, SweptText, WellFormed;
    CleanQueue(s, n);
    SweptCoveredUpTo(s, p);
    var j := CoveredUpTo(s, p, |s|);
    if j > 0 {
      SweptCover(s, p, j - 1);
      SweptHolds(s, j - 1);
    }
  }

  /** The text the winning replace takes over, gathered from both passes. */
  lemma HostText(s: Program, p: nat, j: nat)
    requires 0 < j <= |s| && IsReplace(s[j - 1]) && s[j - 1].op.index == p
    ensures LatestFirst(s, p, j, |s|) + SweptText(s, j - 1) ==
      LatestFirst(s, p, CoveredUpTo(s, p, j - 1), |s|) + s[j - 1].op.text
  {
    var c := CoveredUpTo(s, p, j - 1);
    LatestFirstSplit(s, p, c, j, |s|);
    var a, b := LatestFirst(s, p, j, |s|), LatestFirst(s, p, c, j - 1);
    assert LatestFirst(s, p, c, j) == "" + b == b;
    assert a + (b + s[j - 1].op.text) == (a + b) + s[j - 1].op.text;
  }

  /** On a clean script no insert is left strictly inside a range. */
  lemma NoneInside(s: Program, p: nat)
    requires Clean(s)
    requires var j := CoveredUpTo(s, p, |s|); j > 0 && s[j - 1].op.index < p
    ensures LatestFirst(s, p, CoveredUpTo(s, p, |s|), |s|) == ""
    ensures InsertedUpTo(s, p, |s|) <= CoveredUpTo(s, p, |s|)
  {
    var c := CoveredUpTo(s, p, |s|);
    forall k | c <= k < |s|
      ensures !InsertAt(s[k], p)
    {
      assert !LateInsert(s, k);
    }
    LatestFirstNone(s, p, c, |s|);
  }

  /** What the queue between the passes shows, by where the last replace covering p starts. */
  lemma QueueShows(t: Program, tokens: seq<Token>, start: nat, p: nat)
    ensures var j, r := CoveredUpTo(t, p, |t|), QueuePiece(t, tokens, start, p);
      var text := LatestFirst(t, p, 0, |t|);
      && (j > 0 && t[j - 1].op.index == p ==> r == text + t[j - 1].op.text)
      && (j > 0 && start <= t[j - 1].op.index < p ==> r == "")
      && ((j > 0 ==> t[j - 1].op.index < p && t[j - 1].op.index < start) ==> r == text + TokenText(tokens, p))
  {
    hide CoveredUpTo, LatestFirst, TokenText;
  }

  /** And what the script means. */
  lemma PieceShows(s: Program, tokens: seq<Token>, start: nat, p: nat)
    ensures var j, r := CoveredUpTo(s, p, |s|), Piece(s, tokens, start, p);
      && (j == 0 ==> r == LatestFirst(s, p, 0, |s|) + TokenText(tokens, p))
      && (j > 0 && s[j - 1].op.index == p ==>
            r == LatestFirst(s, p, CoveredUpTo(s, p, j - 1), |s|) + s[j - 1].op.text)
      && (j > 0 && start <= s[j - 1].op.index < p ==> r == "")
      && (j > 0 && s[j - 1].op.index < p && s[j - 1].op.index < start ==> r == TokenText(tokens, p))
  {
    hide CoveredUpTo, LatestFirst, TokenText;
  }

  /** On a clean script the queue between the passes shows what the script means. */
  lemma CleanPiece(s: Program, tokens: seq<Token>, start: nat, p: nat)
    requires WellFormed(s, |tokens|) && Clean(s)
    ensures QueuePiece(Merged(s, |s|), tokens, start, p) == Piece(s, tokens, start, p)
  {
    CleanHost(s, |tokens|, p);
    MergedLatestFirst(s, p);
    QueueShows(Merged(s, |s|), tokens, start, p);
    PieceShows(s, tokens, start, p);
    hide Merged, CoveredUpTo, Clean, QueuePiece, Piece, SweptText, LatestFirst, TokenText;
    var j := CoveredUpTo(s, p, |s|);
    if j > 0 {
      if s[j - 1].op.index == p {
        HostText(s, p, j);
      } else {
        NoneInside(s, p);
        assert "" + TokenText(tokens, p) == TokenText(tokens, p);
      }
    }
  }

  lemma PiecesNext(s: Program, tokens: seq<Token>, start: nat, i: nat, stop: nat)
    ensures i <= stop && i < |tokens| ==>
      && Pieces(s, tokens, start, i, stop) == Piece(s, tokens, start, i) + Pieces(s, tokens, start, i + 1, stop)
      && QueuePieces(s, tokens, start, i, stop) ==
           QueuePiece(s, tokens, start, i) + QueuePieces(s, tokens, start, i + 1, stop)
    ensures i > stop || i >= |tokens| ==>
      Pieces(s, tokens, start, i, stop) == "" == QueuePieces(s, tokens, start, i, stop)
  {
    hide Piece, QueuePiece;
  }

  lemma {:induction false} CleanPieces(s: Program, tokens: seq<Token>, start: nat, i: nat, stop: nat)
    requires WellFormed(s, |tokens|) && Clean(s)
    ensures QueuePieces(Merged(s, |s|), tokens, start, i, stop) == Pieces(s, tokens, start, i, stop)
    decreases stop + 1 - i
  {
    hide *;
    PiecesNext(s, tokens, start, i, stop);
    PiecesNext(Merged(s, |s|), tokens, start, i, stop);
    if i <= stop && i < |tokens| {
      CleanPiece(s, tokens, start, i);
      CleanPieces(s, tokens, start, i + 1, stop);
    }
  }

  lemma SkippedInside(s: Program, n: nat, start: nat, p: nat)
    requires WellFormed(s, n) && ConflictFree(s, |s|)
    ensures Skipped(Merged(s, |s|), start, p) ==>
      var j := CoveredUpTo(s, p, |s|); j > 0 && s[j - 1].op.index < p
  {
    hide Merged, CoveredUpTo, SweptText, ConflictFree, WellFormed;
    CleanHost(s, n, p);
  }

  lemma SkippedInMap(t: Program, m: map<nat, Op>, start: nat, p: nat)
    requires MapAt(t, m, p) && Skipped(t, start, p)
    ensures p in m <==> InsertedUpTo(t, p, |t|) > 0
  {
  }

  /** On a clean script the walk skips no operation. */
  lemma NothingStranded(s: Program, m: map<nat, Op>, n: nat, start: nat, p: nat)
    requires WellFormed(s, n) && Clean(s) && MapAt(Merged(s, |s|), m, p) && p in m
    ensures !Skipped(Merged(s, |s|), start, p)
  {
    SkippedInside(s, n, start, p);
    MergedInsertedUpTo(s, p, |s|);
    hide Merged, CoveredUpTo, Clean, InsertedUpTo, MapAt, Skipped;
    if Skipped(Merged(s, |s|), start, p) {
      SkippedInMap(Merged(s, |s|), m, start, p);
      NoneInside(s, p);
    }
  }

  /** Main result. For every clean script and every interval, the walk over the reduced queue
      writes, token by token, what the script means there. It leaves over exactly the operations
      outside the interval; those past the end are inserts. */
  lemma RenderMeaning(s: Program, tokens: seq<Token>, start: nat, stop: nat)
    requires WellFormed(s, |tokens|) && Clean(s)
    ensures Reduce(s) == Reduced(Final(s), 0) && IndexMap(Final(s), |s|).Indexed?
    ensures var m, n := IndexMap(Final(s), |s|).ops, |tokens|;
      && Keyed(m)
      && var (text, rest) := Walk(m, tokens, start, stop);
      && text == Pieces(s, tokens, start, start, stop)
      && (forall p :: p in rest <==> p in m && !(start <= p <= stop && p < n))
      && (forall p :: p in rest ==> rest[p] == m[p])
      && (forall p :: p >= n ==>
            && (p in m <==> InsertedUpTo(s, p, |s|) > 0)
            && (p in m ==> m[p] == InsertBefore(p, LatestFirst(s, p, 0, |s|))))
  {
    var n := |tokens|;
    ReduceClean(s, n);
    RenderMerged(s, tokens, start, stop);
    CleanPieces(s, tokens, start, start, stop);
    hide Clean, Reduce, Final, IndexMap, Walk, Pieces, MapAt, Merged, QueuePieces, Skipped;
    var m := IndexMap(Final(s), |s|).ops;
    var (text, rest) := Walk(m, tokens, start, stop);
    forall p: nat
      ensures p in rest <==> p in m && !(start <= p <= stop && p < n)
      ensures p >= n ==>
        && (p in m <==> InsertedUpTo(s, p, |s|) > 0)
        && (p in m ==> m[p] == InsertBefore(p, LatestFirst(s, p, 0, |s|)))
    {
      assert MapAt(Merged(s, |s|), m, p);
      if p in m { NothingStranded(s, m, n, start, p); }
      if p >= n { PastEnd(s, m, n, p); }
    }
  }

  // ---------------------------------------------------------------- the documented simple case

  /** Replace ranges are pairwise disjoint and no insert lies strictly inside one. */
  ghost predicate Simple(s: Program)
  {
    && (forall j, k :: 0 <= j < k < |s| && IsReplace(s[j]) && IsReplace(s[k]) ==> Disjoint(s[j].op, s[k].op))
    && (forall j, k :: 0 <= j < |s| && 0 <= k < |s| && IsReplace(s[j]) && IsInsert(s[k]) ==>
          s[k].op.index <= s[j].op.index || s[j].op.lastIndex < s[k].op.index)
  }

  /** On simple scripts a token shows its inserts, latest first, then its replacement or its own
      text; a token covered by a range that starts earlier shows nothing. */
  lemma SimpleMeaning(s: Program, tokens: seq<Token>, p: nat)
    requires WellFormed(s, |tokens|) && Simple(s)
    ensures Clean(s)
    ensures (forall k :: 0 <= k < |s| ==> !Covers(s[k], p)) ==>
      Piece(s, tokens, 0, p) == LatestFirst(s, p, 0, |s|) + TokenText(tokens, p)
    ensures forall k :: 0 <= k < |s| && Covers(s[k], p) ==>
      Piece(s, tokens, 0, p) ==
        if s[k].op.index == p then LatestFirst(s, p, 0, |s|) + s[k].op.text else ""
  {
    SimpleClean(s);
    PieceShows(s, tokens, 0, p);
    hide Piece, LatestFirst, TokenText, Clean, CoveredUpTo, Simple;
    forall k | 0 <= k < |s| && Covers(s[k], p)
      ensures Piece(s, tokens, 0, p) ==
        if s[k].op.index == p then LatestFirst(s, p, 0, |s|) + s[k].op.text else ""
    {
      SimplyCovered(s, p, k);
    }
  }

  lemma SimplyCovered(s: Program, p: nat, k: nat)
    requires Simple(s) && k < |s| && Covers(s[k], p)
    ensures CoveredUpTo(s, p, |s|) == k + 1 && CoveredUpTo(s, p, k) == 0
  {
    CoveredUpToLast(s, p, |s|, k);
    hide CoveredUpTo;
  }

  lemma SimpleClean(s: Program)
    requires Simple(s)
    ensures Clean(s)
  {
    assert ConflictFree(s, |s|);
    hide CoveredUpTo, ConflictFree;
  }

  // ---------------------------------------------------------------- where the promises stop

  /** Deleting 2..5, inserting at 2, then deleting 4..7: the deletes merge into one at 2. */
  lemma DeletesMerge()
    ensures var s := [Live(Replace(2, 5, "")), Live(InsertBefore(2, "x")), Live(Replace(4, 7, ""))];
      WalkReplaces(s, 3) == Reduced([Empty, s[1], Live(Replace(2, 7, ""))], 1)
  {
    var s := [Live(Replace(2, 5, "")), Live(InsertBefore(2, "x")), Live(Replace(4, 7, ""))];
    assert Absorb(s, 0) == s && WalkReplaces(s, 1) == Reduced(s, 0);
    assert WalkReplaces(s, 2) == Reduced(s, 0);
    assert Absorb(s, 2) == s;
    assert Drop(s, 0, 2, 1) == Reduced([Empty, s[1], Live(Replace(2, 7, ""))], 1);
    assert Drop(s, 0, 2, 2) == Drop(s, 0, 2, 1);
  }

  lemma InsertAtMerged()
    ensures var t := [Empty, Live(InsertBefore(2, "x")), Live(Replace(2, 7, ""))];
      (forall k :: 0 <= k < 3 ==> !Late(t, k)) && DoubledAt(t, 2)
  {
    var t := [Empty, Live(InsertBefore(2, "x")), Live(Replace(2, 7, ""))];
    assert Covers(t[2], 2) && CoveredUpTo(t, 2, 3) == 3;
    assert InsertAt(t[1], 2);
  }

  lemma DuplicateAfter(s: Program, t: Program, merges: nat, i: nat, n: nat)
    requires WellFormed(s, n) && WalkReplaces(s, |s|) == Reduced(t, merges) && merges > 0
    requires i < |s| == |t| && DoubledAt(t, i) && forall k :: 0 <= k < |t| ==> !Late(t, k)
    ensures !Clean(s) && Reduce(s).Failed? && Reduce(s).error == DuplicateIndex && Reduce(s).merges == merges
  {
    MergeMeaning(s, |s|);
    InsertsMerges(t, merges, |s|);
    ReduceClean(s, n);
    hide Clean, Merged, Troubled, Late, DoubledAt, OneCover, WalkReplaces, WalkInserts, IndexMap;
    ReduceMerged(s);
  }

  /** The insert stays queued at 2, and the one-operation-per-index check fires. */
  lemma MergeCanDuplicate()
    ensures var s := [Live(Replace(2, 5, "")), Live(InsertBefore(2, "x")), Live(Replace(4, 7, ""))];
      !Clean(s) && Reduce(s).Failed? && Reduce(s).error == DuplicateIndex && Reduce(s).merges == 1
  {
    var s := [Live(Replace(2, 5, "")), Live(InsertBefore(2, "x")), Live(Replace(4, 7, ""))];
    DeletesMerge();
    InsertAtMerged();
    var t := [Empty, s[1], Live(Replace(2, 7, ""))];
    hide *;
    DuplicateAfter(s, t, 1, 2, 8);
  }

  /** An insert inside a delete is refused; with one more delete that merges with the first it is
      accepted, but stands where no walk from the range's start looks. */
  lemma MergeCanStrand()
    ensures var s := [Live(Replace(0, 1, "")), Live(InsertBefore(1, "x")), Live(Replace(0, 0, ""))];
      && Reduce(s).Reduced? && Reduce(s[..2]).Failed? && Reduce(s[..2]).error == InsertInsideReplace
      && Skipped(Merged(s, 3), 0, 1) && LatestFirst(Merged(s, 3), 1, 0, 3) == "x"
  {
    var s := [Live(Replace(0, 1, "")), Live(InsertBefore(1, "x")), Live(Replace(0, 0, ""))];
    StrandedQueue();
    StrandedAlone();
    var t := [Empty, s[1], Live(Replace(0, 1, ""))];
    hide *;
    QuietAfter(s, t, 1, 2);
  }

  lemma StrandedQueue()
    ensures var s := [Live(Replace(0, 1, "")), Live(InsertBefore(1, "x")), Live(Replace(0, 0, ""))];
      var t := [Empty, s[1], Live(Replace(0, 1, ""))];
      && WalkReplaces(s, 3) == Reduced(t, 1)
      && (forall k :: 0 <= k < 3 ==> !Late(t, k) && !DoubledAt(t, k))
      && Skipped(t, 0, 1) && LatestFirst(t, 1, 0, 3) == "x"
  {
    var s := [Live(Replace(0, 1, "")), Live(InsertBefore(1, "x")), Live(Replace(0, 0, ""))];
    assert Absorb(s, 0) == s && WalkReplaces(s, 1) == Reduced(s, 0);
    assert WalkReplaces(s, 2) == Reduced(s, 0);
    assert Absorb(s, 2) == s;
    assert Drop(s, 0, 2, 1) == Reduced([Empty, s[1], Live(Replace(0, 1, ""))], 1);
    assert Drop(s, 0, 2, 2) == Drop(s, 0, 2, 1);
    var t := [Empty, s[1], Live(Replace(0, 1, ""))];
    assert Covers(t[2], 1) && Covers(t[2], 0) && CoveredUpTo(t, 1, 3) == 3;
    assert LatestFirst(t, 1, 0, 2) == "x" + "";
  }

  lemma StrandedAlone()
    ensures var s := [Live(Replace(0, 1, "")), Live(InsertBefore(1, "x")), Live(Replace(0, 0, ""))];
      Reduce(s[..2]).Failed? && Reduce(s[..2]).error == InsertInsideReplace
  {
    var s := [Live(Replace(0, 1, "")), Live(InsertBefore(1, "x")), Live(Replace(0, 0, ""))];
    var u := [Live(Replace(0, 1, "")), Live(InsertBefore(1, "x"))];
    assert s[..2] == u;
    assert Covers(u[0], 1) && CoveredUpTo(u, 1, 1) == 1 == CoveredUpTo(u, 1, 2);
    assert LateInsert(u, 1);
    LateFails(u, 1, 2);
  }

  lemma LateFails(s: Program, k: nat, n: nat)
    requires WellFormed(s, n) && ConflictFree(s, |s|) && k < |s| && LateInsert(s, k)
    ensures Reduce(s).Failed? && Reduce(s).error == InsertInsideReplace
  {
    hide WalkReplaces, WalkInserts, Swept, ConflictFree;
    PassesClean(s, n);
  }

  lemma QuietAfter(s: Program, t: Program, merges: nat, n: nat)
    requires WellFormed(s, n) && WalkReplaces(s, |s|) == Reduced(t, merges)
    requires |t| == |s| && forall k :: 0 <= k < |t| ==> !Late(t, k) && !DoubledAt(t, k)
    ensures Reduce(s).Reduced? && Merged(s, |s|) == t
  {
    MergeMeaning(s, |s|);
    hide Merged, Troubled, Late, DoubledAt, OneCover, WalkReplaces, WalkInserts, IndexMap;
    ReduceMerged(s);
  }

  /** I.p R.p-p: the reduction joins the insert with the replacement, it does not drop it. */
  lemma InsertJoinsReplacement(s: Program, tokens: seq<Token>, p: nat)
    requires p < |tokens| && |s| == 2 && InsertAt(s[0], p)
    requires IsReplace(s[1]) && s[1].op.index == p == s[1].op.lastIndex
    ensures Clean(s) && Piece(s, tokens, 0, p) == s[0].op.text + s[1].op.text
  {
    FirstOfTwo(s, p);
    hide Piece, Clean, LatestFirst, TokenText;
    assert Covers(s[1], p);
    SimpleMeaning(s, tokens, p);
  }

  lemma FirstOfTwo(s: Program, p: nat)
    requires |s| == 2 && InsertAt(s[0], p) && !InsertAt(s[1], p)
    ensures LatestFirst(s, p, 0, 2) == s[0].op.text
  {
    assert LatestFirst(s, p, 0, 1) == s[0].op.text + "" == s[0].op.text;
    assert LatestFirst(s, p, 0, 2) == "" + LatestFirst(s, p, 0, 1);
  }

}
