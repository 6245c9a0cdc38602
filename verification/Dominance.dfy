/**
 * The data-flow solver of the compiler, computing dominators (src/backend/ir/analysis/dataflow/framework.hpp,
 * src/backend/ir/analysis/dataflow/dominance.hpp): sets of blocks are refined round after round until none changes. What
 * it arrives at is domination as paths define it, and the whole universe exactly for blocks no path reaches.
 */
module Dominance {
  import opened Basics
  import opened SsaProgram

  datatype BlockSet = Universe | Blocks(members: set<nat>)

  predicate Has(s: BlockSet, d: nat) {
    s.Universe? || d in s.members
  }

  function Intersection(a: BlockSet, b: BlockSet): BlockSet {
    if a.Universe? then b else if b.Universe? then a else Blocks(a.members * b.members)
  }

  function Insert(s: BlockSet, b: nat): BlockSet {
    if s.Universe? then s else Blocks(s.members + {b})
  }

  ghost predicate Below(s: BlockSet, t: BlockSet) {
    t.Universe? || (s.Blocks? && s.members <= t.members)
  }

  ghost predicate Bounded(s: BlockSet, n: nat) {
    s.Blocks? ==> forall d :: d in s.members ==> d < n
  }

  /** Targets name blocks that exist. */
  ghost predicate Closed(f: Func) {
    f.blocks != [] && forall a: nat, b: nat :: Edge(f, a, b) ==> b < |f.blocks|
  }

  ghost predicate Sets(f: Func, out: seq<BlockSet>) {
    |out| == |f.blocks| && forall b :: 0 <= b < |out| ==> Bounded(out[b], |f.blocks|)
  }

  ghost function Predecessors(f: Func, b: nat): set<nat> {
    set p | 0 <= p < |f.blocks| && b in Targets(f.blocks[p].exit)
  }

  ghost predicate InAll(out: seq<BlockSet>, ps: set<nat>, d: nat)
    requires forall p :: p in ps ==> p < |out|
  {
    forall p :: p in ps ==> Has(out[p], d)
  }

  ghost predicate AllUniverse(out: seq<BlockSet>, ps: set<nat>)
    requires forall p :: p in ps ==> p < |out|
  {
    forall p :: p in ps ==> out[p].Universe?
  }

  /** The meet over the predecessors, and with the empty set at the entrance. */
  ghost function Gathered(f: Func, out: seq<BlockSet>, b: nat): BlockSet
    requires Sets(f, out)
  {
    var ps := Predecessors(f, b);
    if b != 0 && AllUniverse(out, ps) then Universe
    else Blocks(set d: nat | d < |f.blocks| && b != 0 && InAll(out, ps, d))
  }

  ghost function Transferred(f: Func, out: seq<BlockSet>, b: nat): BlockSet
    requires Sets(f, out)
  {
    Insert(Gathered(f, out, b), b)
  }

  // ----- What holds round after round

  /** Nothing that dominates is ever taken away, and unreachable blocks keep the universe. */
  ghost predicate Above(f: Func, b: nat, s: BlockSet) {
    && (forall d: nat :: d < |f.blocks| && Dominates(f, d, b) ==> Has(s, d))
    && (!Reachable(f, b) ==> s.Universe?)
  }

  ghost predicate Solving(f: Func, out: seq<BlockSet>) {
    && Sets(f, out)
    && forall b :: 0 <= b < |out| ==> Above(f, b, out[b]) && Below(Transferred(f, out, b), out[b])
  }

  lemma EntranceReached(f: Func)
    ensures PathTo(f, [0], 0) && Reachable(f, 0)
  {
    assert PathTo(f, [0], 0);
  }

  lemma PredecessorReached(f: Func, p: nat, b: nat)
    requires Edge(f, p, b) && !Reachable(f, b)
    ensures !Reachable(f, p)
  {
    if q :| PathTo(f, q, p) {
      PathExtends(f, q, p, b);
    }
  }

  /** One block's equation keeps its set above the dominators. */
  lemma TransferAbove(f: Func, out: seq<BlockSet>, b: nat)
    requires Closed(f) && Sets(f, out) && b < |out| && forall p :: 0 <= p < |out| ==> Above(f, p, out[p])
    ensures Above(f, b, Transferred(f, out, b)) && Bounded(Transferred(f, out, b), |f.blocks|)
  {
    EntranceReached(f);
    forall d: nat | d < |f.blocks| && Dominates(f, d, b) ensures Has(Transferred(f, out, b), d) {
      if d != b {
        assert b == 0 ==> d in [0];
        forall p | p in Predecessors(f, b) ensures Has(out[p], d) {
          assert Edge(f, p, b);
          DominatesBefore(f, d, p, b);
          assert Above(f, p, out[p]);
        }
      }
    }
    if !Reachable(f, b) {
      forall p | p in Predecessors(f, b) ensures out[p].Universe? {
        assert Edge(f, p, b);
        PredecessorReached(f, p, b);
        assert Above(f, p, out[p]);
      }
    }
  }

  /** A smaller set at one block makes no equation's right-hand side larger. */
  lemma TransferShrinks(f: Func, out: seq<BlockSet>, b: nat, s: BlockSet, c: nat)
    requires Sets(f, out) && b < |out| && Below(s, out[b]) && Bounded(s, |f.blocks|)
    ensures Sets(f, out[b := s])
    ensures Below(Transferred(f, out[b := s], c), Transferred(f, out, c))
  {
    var now, ps := out[b := s], Predecessors(f, c);
    if !Gathered(f, out, c).Universe? {
      assert AllUniverse(now, ps) ==> forall p :: p in ps ==> now[p].Universe? && out[p].Universe?;
      forall d: nat | InAll(now, ps, d) ensures InAll(out, ps, d) {
        forall p | p in ps ensures Has(out[p], d) {
          assert Has(now[p], d);
        }
      }
    }
  }

  lemma UpdateSolving(f: Func, out: seq<BlockSet>, b: nat)
    requires Closed(f) && Solving(f, out) && b < |out|
    ensures Solving(f, out[b := Transferred(f, out, b)])
  {
    var s := Transferred(f, out, b);
    var now := out[b := s];
    TransferAbove(f, out, b);
    assert Below(s, out[b]);
    forall c | 0 <= c < |now| ensures Above(f, c, now[c]) && Below(Transferred(f, now, c), now[c]) {
      TransferShrinks(f, out, b, s, c);
      assert Above(f, c, out[c]) && Below(Transferred(f, out, c), out[c]);
    }
  }

  lemma StartSolving(f: Func, out: seq<BlockSet>)
    requires Closed(f) && |out| == |f.blocks|
    requires forall b :: 0 <= b < |out| ==> out[b] == if b == 0 then Blocks({0}) else Universe
    ensures Solving(f, out)
  {
    EntranceReached(f);
    forall d: nat | Dominates(f, d, 0) ensures d == 0 {
      assert d in [0];
    }
  }

  // ----- Termination

  ghost function Size(s: BlockSet, n: nat): nat {
    if s.Universe? then n + 1 else |s.members|
  }

  ghost function Total(out: seq<BlockSet>, n: nat): nat {
    if out == [] then 0 else Size(out[0], n) + Total(out[1..], n)
  }

  lemma {:induction false} BoundedSize(s: set<nat>, n: nat)
    requires forall d :: d in s ==> d < n
    ensures |s| <= n
  {
    if n > 0 {
      BoundedSize(s - {n - 1}, n - 1);
    }
  }

  lemma SmallerSize(s: BlockSet, t: BlockSet, n: nat)
    requires Below(s, t) && s != t && Bounded(s, n)
    ensures Size(s, n) < Size(t, n)
  {
    if s.Blocks? {
      BoundedSize(s.members, n);
      if t.Blocks? {
        SubsetSmaller(s.members, t.members);
      }
    }
  }

  lemma {:induction false} SmallerTotal(out: seq<BlockSet>, b: nat, s: BlockSet, n: nat)
    requires b < |out| && Size(s, n) < Size(out[b], n)
    ensures Total(out[b := s], n) < Total(out, n)
  {
    if b == 0 {
      assert out[b := s][1..] == out[1..];
    } else {
      SmallerTotal(out[1..], b - 1, s, n);
      assert out[b := s][1..] == out[1..][b - 1 := s];
    }
  }

  // ----- The solution

  ghost predicate Solved(f: Func, out: seq<BlockSet>) {
    Solving(f, out) && forall b :: 0 <= b < |out| ==> out[b] == Transferred(f, out, b)
  }

  /** Along any path, what a solution has for its end is on the path. */
  lemma {:induction false} OnThePath(f: Func, out: seq<BlockSet>, p: seq<nat>, b: nat, d: nat)
    requires Closed(f) && Solved(f, out) && PathTo(f, p, b) && b < |out| && Has(out[b], d)
    ensures d in p && out[b].Blocks?
    decreases |p|
  {
    assert out[b] == Transferred(f, out, b);
    if |p| > 1 {
      var a := p[|p| - 2];
      assert Edge(f, p[|p| - 2], p[|p| - 1]);
      var init := p[..|p| - 1];
      assert PathTo(f, init, a);
      if d != b && b != 0 {
        assert a in Predecessors(f, b) && Has(out[a], d);
        OnThePath(f, out, init, a, d);
      } else if b != 0 {
        assert a in Predecessors(f, b);
        OnThePath(f, out, init, a, if out[a].Universe? then 0 else a);
      }
    }
  }

  /** What the set of block b should be. */
  ghost predicate IsDominators(f: Func, b: nat, s: BlockSet) {
    && (s.Universe? <==> !Reachable(f, b))
    && forall d: nat :: d < |f.blocks| ==> (Has(s, d) <==> Dominates(f, d, b))
  }

  lemma SolvedIsDominance(f: Func, out: seq<BlockSet>, b: nat)
    requires Closed(f) && Solved(f, out) && b < |out|
    ensures IsDominators(f, b, out[b])
  {
    assert Above(f, b, out[b]);
    assert Has(out[b], b) by {
      assert out[b] == Transferred(f, out, b);
    }
    if p :| PathTo(f, p, b) {
      OnThePath(f, out, p, b, b);
    }
    forall d: nat | Has(out[b], d) ensures Dominates(f, d, b) {
      forall p | PathTo(f, p, b) ensures d in p {
        OnThePath(f, out, p, b, d);
      }
    }
  }

  lemma MeetOne(out: seq<BlockSet>, ps: set<nat>, p: nat, s: BlockSet)
    requires p < |out| && forall q :: q in ps ==> q < |out|
    requires s.Universe? <==> AllUniverse(out, ps)
    requires forall d: nat :: Has(s, d) <==> InAll(out, ps, d)
    ensures Intersection(s, out[p]).Universe? <==> AllUniverse(out, ps + {p})
    ensures forall d: nat :: Has(Intersection(s, out[p]), d) <==> InAll(out, ps + {p}, d)
  {
    forall d: nat ensures Has(Intersection(s, out[p]), d) <==> InAll(out, ps + {p}, d) {
      assert Has(Intersection(s, out[p]), d) <==> Has(s, d) && Has(out[p], d);
      if InAll(out, ps + {p}, d) {
        assert p in ps + {p} && forall q :: q in ps ==> q in ps + {p};
        assert InAll(out, ps, d);
      }
    }
    if AllUniverse(out, ps + {p}) {
      assert p in ps + {p} && forall q :: q in ps ==> q in ps + {p};
      assert AllUniverse(out, ps);
    }
  }

  class DataFlow {
    const f: Func
    var into: seq<BlockSet>
    var out: seq<BlockSet>

    constructor (f: Func)
      requires Closed(f)
      ensures this.f == f && Sets(f, out) && |into| == |out|
      ensures forall b :: 0 <= b < |out| ==> IsDominators(f, b, out[b])
      ensures forall b :: 0 <= b < |out| ==> into[b] == Gathered(f, out, b)
    {
      this.f := f;
      into := seq(|f.blocks|, b => if b == 0 then Blocks({}) else Universe);
      out := seq(|f.blocks|, b => if b == 0 then Blocks({0}) else Universe);
      new;
      Solve();
    }

    /** The meet over the predecessors of b, as solve() builds it up. */
    method Meet(b: nat) returns (s: BlockSet)
      requires Closed(f) && Sets(f, out)
      ensures s == Gathered(f, out, b)
    {
      s := Universe;
      var preds := set p | 0 <= p < |f.blocks| && b in Targets(f.blocks[p].exit);
      var todo := preds;
      while todo != {}
        invariant todo <= preds
        invariant s.Universe? <==> AllUniverse(out, preds - todo)
        invariant forall d: nat :: Has(s, d) <==> InAll(out, preds - todo, d)
        invariant Bounded(s, |f.blocks|)
      {
        var p :| p in todo;
        assert preds - (todo - {p}) == (preds - todo) + {p};
        MeetOne(out, preds - todo, p, s);
        s := Intersection(s, out[p]);
        todo := todo - {p};
      }
      if b == 0 {
        s := Intersection(s, Blocks({}));
      }
      assert preds - todo == preds == Predecessors(f, b);
      assert s.Blocks? ==> forall d: nat :: d in s.members <==> d < |f.blocks| && b != 0 && InAll(out, preds, d);
    }

    /** Rounds until nothing changes. */
    method Solve()
      requires Closed(f) && |into| == |f.blocks| && |out| == |f.blocks|
      requires forall b :: 0 <= b < |out| ==> out[b] == if b == 0 then Blocks({0}) else Universe
      modifies this
      ensures Sets(f, out) && |into| == |out|
      ensures forall b :: 0 <= b < |out| ==> IsDominators(f, b, out[b])
      ensures forall b :: 0 <= b < |out| ==> into[b] == Gathered(f, out, b)
    {
      StartSolving(f, out);
      var changed := true;
      while changed
        invariant Solving(f, out) && |into| == |out|
        invariant !changed ==> Solved(f, out) && forall b :: 0 <= b < |out| ==> into[b] == Gathered(f, out, b)
        decreases Total(out, |f.blocks|), changed
      {
        changed := Round();
      }
      forall b | 0 <= b < |out| ensures IsDominators(f, b, out[b]) {
        SolvedIsDominance(f, out, b);
      }
    }

    /** One round over all blocks. */
    method Round() returns (changed: bool)
      requires Closed(f) && Solving(f, out) && |into| == |out|
      modifies this
      ensures Solving(f, out) && |into| == |out|
      ensures if changed then Total(out, |f.blocks|) < Total(old(out), |f.blocks|) else out == old(out)
      ensures !changed ==> Solved(f, out) && forall b :: 0 <= b < |out| ==> into[b] == Gathered(f, out, b)
    {
      changed := false;
      var b := 0;
      while b < |f.blocks|
        invariant b <= |f.blocks| && Solving(f, out) && |into| == |out|
        invariant if changed then Total(out, |f.blocks|) < Total(old(out), |f.blocks|) else out == old(out)
        invariant !changed ==> forall c :: 0 <= c < b ==> into[c] == Gathered(f, out, c) && out[c] == Transferred(f, out, c)
      {
        var newIn := Meet(b);
        into := into[b := newIn];
        var newOut := Insert(newIn, b);
        if newOut != out[b] {
          UpdateSolving(f, out, b);
          TransferAbove(f, out, b);
          SmallerSize(newOut, out[b], |f.blocks|);
          SmallerTotal(out, b, newOut, |f.blocks|);
          out := out[b := newOut];
          changed := true;
        }
        b := b + 1;
      }
    }
  }
}
