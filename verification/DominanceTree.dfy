/**
 * Immediate dominators and dominance frontiers, computed from the dominator sets
 * (src/backend/ir/analysis/dominance.hpp). Phis are placed with the one, copies and renaming walk along the other.
 */
module DominanceTree {
  import opened Basics
  import opened SsaProgram
  import opened Dominance

  // ----- Domination is a chain above every block

  lemma Reflexive(f: Func, b: nat)
    ensures Dominates(f, b, b)
  {
  }

  lemma Transitive(f: Func, a: nat, b: nat, c: nat)
    requires Dominates(f, a, b) && Dominates(f, b, c)
    ensures Dominates(f, a, c)
  {
    forall p | PathTo(f, p, c) ensures a in p {
      var i :| 0 <= i < |p| && p[i] == b;
      assert PathTo(f, p[..i + 1], b);
    }
  }

  lemma {:induction false} NoMutual(f: Func, a: nat, b: nat, p: seq<nat>)
    requires Dominates(f, a, b) && Dominates(f, b, a) && PathTo(f, p, b)
    ensures a == b
    decreases |p|
  {
    if a != b {
      var i :| 0 <= i < |p| && p[i] == a;
      NoMutual(f, b, a, p[..i + 1]);
    }
  }

  lemma Antisymmetric(f: Func, a: nat, b: nat)
    requires Dominates(f, a, b) && Dominates(f, b, a) && Reachable(f, b)
    ensures a == b
  {
    var p :| PathTo(f, p, b);
    NoMutual(f, a, b, p);
  }

  lemma DominatorReached(f: Func, d: nat, b: nat)
    requires Dominates(f, d, b) && Reachable(f, b)
    ensures Reachable(f, d)
  {
    var p :| PathTo(f, p, b);
    var i :| 0 <= i < |p| && p[i] == d;
    assert PathTo(f, p[..i + 1], d);
  }

  /** Another way to the middle of a path is another path. */
  lemma Detour(f: Func, p: seq<nat>, j: nat, q: seq<nat>)
    requires Path(f, p) && j < |p| && PathTo(f, q, p[j])
    ensures PathTo(f, q + p[j + 1..], p[|p| - 1])
  {
    var r := q + p[j + 1..];
    forall i | 0 < i < |r| ensures Edge(f, r[i - 1], r[i]) {
      if i >= |q| {
        assert Edge(f, p[j + (i - |q|)], p[j + (i - |q|) + 1]);
      } else {
        assert Edge(f, q[i - 1], q[i]);
      }
    }
  }

  /** The last place of x on a path. */
  ghost function LastIndex(p: seq<nat>, x: nat): (i: nat)
    requires x in p
    ensures i < |p| && p[i] == x && x !in p[i + 1..]
  {
    if p[|p| - 1] == x then |p| - 1
    else
      assert p == p[..|p| - 1] + [p[|p| - 1]];
      var i := LastIndex(p[..|p| - 1], x);
      assert p[i + 1..] == p[..|p| - 1][i + 1..] + [p[|p| - 1]];
      i
  }

  /** Where v comes last, a way round u to v would be a way round u altogether. */
  lemma LaterIsDominated(f: Func, u: nat, v: nat, p: seq<nat>)
    requires Path(f, p) && Dominates(f, u, p[|p| - 1]) && u in p && v in p && LastIndex(p, u) < LastIndex(p, v)
    ensures Dominates(f, u, v)
  {
    var j := LastIndex(p, v);
    forall q | PathTo(f, q, v) ensures u in q {
      Detour(f, p, j, q);
      assert u in q + p[j + 1..];
      assert u !in p[j + 1..] by {
        assert forall k :: j + 1 <= k < |p| ==> p[k] == p[LastIndex(p, u) + 1..][k - LastIndex(p, u) - 1];
      }
    }
  }

  /** Of two dominators of a block, one dominates the other. */
  lemma Chain(f: Func, u: nat, v: nat, w: nat)
    requires Dominates(f, u, w) && Dominates(f, v, w) && Reachable(f, w)
    ensures Dominates(f, u, v) || Dominates(f, v, u)
  {
    var p :| PathTo(f, p, w);
    var i, j := LastIndex(p, u), LastIndex(p, v);
    if i < j {
      LaterIsDominated(f, u, v, p);
    } else if j < i {
      LaterIsDominated(f, v, u, p);
    } else {
      Reflexive(f, u);
    }
  }

  // ----- Immediate dominators

  ghost predicate StrictlyDominates(f: Func, d: nat, b: nat) {
    Dominates(f, d, b) && d != b
  }

  /** i is the strict dominator of b that all others dominate; the entrance has none. */
  ghost predicate IsIdom(f: Func, i: int, b: nat) {
    if b == 0 then i == -1
    else
      && 0 <= i < |f.blocks| && StrictlyDominates(f, i, b)
      && forall d: nat :: StrictlyDominates(f, d, b) ==> Dominates(f, d, i)
  }

  ghost predicate AllReachable(f: Func) {
    forall b: nat :: b < |f.blocks| ==> Reachable(f, b)
  }

  ghost predicate DominatorSets(f: Func, out: seq<BlockSet>) {
    && Closed(f) && Sets(f, out)
    && forall b: nat :: b < |out| ==> IsDominators(f, b, out[b])
  }

  /** A strict dominator has fewer dominators. */
  lemma FewerDominators(f: Func, out: seq<BlockSet>, d: nat, b: nat)
    requires DominatorSets(f, out) && d < |out| && b < |out| && Reachable(f, b) && StrictlyDominates(f, d, b)
    ensures out[d].Blocks? && out[b].Blocks? && |out[d].members| < |out[b].members|
  {
    DominatorReached(f, d, b);
    assert IsDominators(f, d, out[d]) && IsDominators(f, b, out[b]);
    forall x | x in out[d].members ensures x in out[b].members {
      Transitive(f, x, d, b);
    }
    if b in out[d].members {
      Antisymmetric(f, d, b);
    }
    Reflexive(f, b);
    assert Has(out[b], b);
    SubsetSmaller(out[d].members, out[b].members);
  }

  /** So the strict dominator with most dominators is dominated by all others. */
  lemma LargestIsIdom(f: Func, out: seq<BlockSet>, m: nat, b: nat)
    requires DominatorSets(f, out) && m < |out| && b < |out| && b != 0 && Reachable(f, b) && StrictlyDominates(f, m, b)
    requires forall d: nat :: d < |out| && StrictlyDominates(f, d, b) ==> out[d].Blocks?
    requires out[m].Blocks?
    requires forall d: nat :: d < |out| && StrictlyDominates(f, d, b) ==> |out[d].members| <= |out[m].members|
    ensures IsIdom(f, m, b)
  {
    forall d: nat | StrictlyDominates(f, d, b) ensures Dominates(f, d, m) {
      DominatorInRange(f, d, b);
      DominatorReached(f, d, b);
      Chain(f, d, m, b);
      if d != m && Dominates(f, m, d) {
        FewerDominators(f, out, m, d);
      }
      Reflexive(f, m);
    }
  }

  lemma {:induction false} PathInRange(f: Func, p: seq<nat>, b: nat, d: nat)
    requires Closed(f) && PathTo(f, p, b) && d in p
    ensures d < |f.blocks|
  {
    var i :| 0 <= i < |p| && p[i] == d;
    if i > 0 {
      assert Edge(f, p[i - 1], p[i]);
    }
  }

  lemma DominatorInRange(f: Func, d: nat, b: nat)
    requires Closed(f) && Reachable(f, b) && Dominates(f, d, b)
    ensures d < |f.blocks|
  {
    var p :| PathTo(f, p, b);
    PathInRange(f, p, b, d);
  }

  lemma OnlyEntrance(f: Func, d: nat)
    requires Dominates(f, d, 0)
    ensures d == 0
  {
    EntranceReached(f);
    assert d in [0];
  }

  lemma EntranceDominates(f: Func, b: nat)
    ensures Dominates(f, 0, b)
  {
    forall p | PathTo(f, p, b) ensures 0 in p {
      assert p[0] == 0;
    }
  }

  /** One block's immediate dominator: the largest set wins. Nothing can be found where a set is the universe. */
  method FindIdom(f: Func, out: seq<BlockSet>, b: nat) returns (idom: int)
    requires DominatorSets(f, out) && b < |out| && Reachable(f, b)
    ensures IsIdom(f, idom, b)
  {
    assert IsDominators(f, b, out[b]);
    idom := -1;
    var todo := out[b].members;
    while todo != {}
      invariant todo <= out[b].members && idom >= -1
      invariant idom == -1 ==> forall x :: x in out[b].members && x !in todo ==> x == b
      invariant idom >= 0 ==> idom < |out| && idom in out[b].members && idom != b
      invariant idom >= 0 ==>
        forall x :: x in out[b].members && x !in todo && x != b ==> SetSize(out[x]) <= SetSize(out[idom])
    {
      var d :| d in todo;
      if d != b {
        if idom == -1 || SetSize(out[d]) > SetSize(out[idom]) {
          idom := d;
        }
      }
      todo := todo - {d};
    }
    if b == 0 {
      EntranceReached(f);
      assert idom != -1 ==> Has(out[0], idom) && idom in [0];
    } else {
      EntranceDominates(f, b);
      assert Has(out[b], 0) && 0 in out[b].members;
      assert Has(out[b], idom);
      DominatorReached(f, idom, b);
      forall d: nat | d < |out| && StrictlyDominates(f, d, b)
        ensures out[d].Blocks? && |out[d].members| <= |out[idom].members|
      {
        DominatorReached(f, d, b);
        DominatorReached(f, idom, b);
        assert Has(out[b], d) && IsDominators(f, d, out[d]) && IsDominators(f, idom, out[idom]);
      }
      assert IsDominators(f, idom, out[idom]);
      LargestIsIdom(f, out, idom, b);
    }
  }

  function SetSize(s: BlockSet): nat {
    if s.Universe? then 0 else |s.members|
  }

  /** The tree, or an error when some block is unreachable: its set is the universe, over which there is no iterating. */
  method BuildTree(f: Func, out: seq<BlockSet>) returns (ok: bool, idoms: seq<int>, children: seq<seq<nat>>)
    requires DominatorSets(f, out)
    ensures ok <==> AllReachable(f)
    ensures ok ==> |idoms| == |out| && forall b: nat :: b < |out| ==> IsIdom(f, idoms[b], b)
    ensures ok ==> Children(idoms, children)
  {
    idoms := [];
    while |idoms| < |out|
      invariant |idoms| <= |out|
      invariant forall b: nat :: b < |idoms| ==> Reachable(f, b) && IsIdom(f, idoms[b], b)
    {
      assert IsDominators(f, |idoms|, out[|idoms|]);
      if out[|idoms|].Universe? {
        return false, [], [];
      }
      var idom := FindIdom(f, out, |idoms|);
      idoms := idoms + [idom];
    }
    children := ListChildren(idoms);
    return true, idoms, children;
  }

  /** Every block stands once in the list of its immediate dominator, and nowhere else. */
  ghost predicate Children(idoms: seq<int>, children: seq<seq<nat>>) {
    && |children| == |idoms|
    && (forall p: nat, c: nat :: p < |children| ==> (c in children[p] <==> c < |idoms| && idoms[c] == p))
    && (forall p: nat, i: nat, j: nat :: p < |children| && i < j < |children[p]| ==> children[p][i] != children[p][j])
  }

  /** The loop over the map from blocks to parents, which may be walked in any order. */
  method ListChildren(idoms: seq<int>) returns (children: seq<seq<nat>>)
    requires forall b: nat :: b < |idoms| ==> idoms[b] < |idoms|
    ensures Children(idoms, children)
  {
    children := seq(|idoms|, _ => []);
    var waiting := set b: nat {:trigger idoms[b]} | b < |idoms|;
    while waiting != {}
      invariant |children| == |idoms| && forall b :: b in waiting ==> b < |idoms|
      invariant forall p: nat, c: nat :: p < |children| ==>
        (c in children[p] <==> c < |idoms| && idoms[c] == p && c !in waiting)
      invariant forall p: nat, i: nat, j: nat :: p < |children| && i < j < |children[p]| ==> children[p][i] != children[p][j]
    {
      var b :| b in waiting;
      waiting := waiting - {b};
      if idoms[b] >= 0 {
        var p: nat := idoms[b];
        children := children[p := children[p] + [b]];
      }
    }
  }

  // ----- Dominance frontiers

  /** w is in the frontier of d: d dominates a predecessor of w, but not strictly w. */
  ghost predicate InFrontier(f: Func, d: nat, w: nat) {
    (exists p :: ThroughEdge(f, d, p, w)) && !StrictlyDominates(f, d, w)
  }

  ghost predicate ThroughEdge(f: Func, d: nat, p: nat, w: nat) {
    Edge(f, p, w) && Dominates(f, d, p)
  }

  ghost predicate Tree(f: Func, idoms: seq<int>) {
    && Closed(f) && AllReachable(f) && |idoms| == |f.blocks|
    && forall b: nat :: b < |idoms| ==> IsIdom(f, idoms[b], b)
  }

  /** The runner has visited the dominators of p below it. */
  ghost predicate Visited(f: Func, p: nat, runner: nat, d: nat) {
    Dominates(f, d, p) && StrictlyDominates(f, runner, d)
  }

  lemma RunnerStarts(f: Func, p: nat, d: nat)
    requires Reachable(f, p)
    ensures !Visited(f, p, p, d)
  {
    if Visited(f, p, p, d) {
      Antisymmetric(f, d, p);
    }
  }

  /** Going from the runner to its immediate dominator visits the runner and nothing else. */
  lemma RunnerSteps(f: Func, idoms: seq<int>, p: nat, runner: nat, d: nat)
    requires Tree(f, idoms) && p < |f.blocks| && Dominates(f, runner, p) && runner < |f.blocks| && runner != 0
    ensures idoms[runner] >= 0
    ensures Dominates(f, idoms[runner], p)
    ensures Visited(f, p, idoms[runner], d) <==> Visited(f, p, runner, d) || d == runner
  {
    assert IsIdom(f, idoms[runner], runner) && Reachable(f, p);
    var up := idoms[runner];
    Transitive(f, up, runner, p);
    if Visited(f, p, up, d) && d != runner {
      Chain(f, d, runner, p);
      if !Dominates(f, runner, d) {
        DominatorReached(f, d, p);
        DominatorReached(f, up, p);
        Antisymmetric(f, up, d);
      }
    }
    if Visited(f, p, runner, d) {
      Transitive(f, up, runner, d);
      if d == up {
        DominatorReached(f, up, p);
        Antisymmetric(f, runner, up);
      }
    }
  }

  /** When the runner arrives at the immediate dominator of w, it has visited what has w in its frontier. */
  lemma RunnerEnds(f: Func, idoms: seq<int>, p: nat, w: nat, d: nat)
    requires Tree(f, idoms) && Edge(f, p, w) && w != 0
    ensures idoms[w] >= 0
    ensures Visited(f, p, idoms[w], d) <==> Dominates(f, d, p) && !StrictlyDominates(f, d, w)
  {
    assert IsIdom(f, idoms[w], w) && Reachable(f, w) && Reachable(f, p);
    var m := idoms[w];
    DominatesBefore(f, m, p, w);
    if Visited(f, p, m, d) && StrictlyDominates(f, d, w) {
      DominatorReached(f, m, w);
      Antisymmetric(f, d, m);
    }
    if Dominates(f, d, p) && !StrictlyDominates(f, d, w) {
      Chain(f, m, d, p);
      if !Dominates(f, m, d) || m == d {
        Transitive(f, d, m, w);
        DominatorReached(f, m, w);
        assert d == w;
        Antisymmetric(f, m, w);
      }
    }
  }

  ghost function Dominators(f: Func, b: nat): set<nat> {
    set d | 0 <= d < |f.blocks| && Dominates(f, d, b)
  }

  /** The immediate dominator of w dominates every predecessor of w. */
  lemma RunnerAbove(f: Func, idoms: seq<int>, pred: nat, w: nat)
    requires Tree(f, idoms) && w != 0 && Edge(f, pred, w)
    ensures idoms[w] >= 0 && Dominates(f, idoms[w], pred)
  {
    assert IsIdom(f, idoms[w], w);
    DominatesBefore(f, idoms[w], pred, w);
  }

  /** Below the immediate dominator of w the runner can go on, and gets nearer. */
  lemma RunnerGoesOn(f: Func, idoms: seq<int>, w: nat, pred: nat, runner: nat)
    requires Tree(f, idoms) && w < |idoms| && w != 0 && idoms[w] >= 0 && Edge(f, pred, w) && runner < |idoms|
    requires Dominates(f, idoms[w], runner) && idoms[w] != runner && Dominates(f, runner, pred)
    ensures runner != 0 && 0 <= idoms[runner] < |idoms|
    ensures Dominates(f, idoms[w], idoms[runner]) && Dominates(f, idoms[runner], pred)
    ensures |Dominators(f, idoms[runner])| < |Dominators(f, runner)|
  {
    if runner == 0 {
      OnlyEntrance(f, idoms[w]);
    }
    assert IsIdom(f, idoms[runner], runner) && Reachable(f, runner);
    var up := idoms[runner];
    Transitive(f, up, runner, pred);
    forall d | d in Dominators(f, up) ensures d in Dominators(f, runner) {
      Transitive(f, d, up, runner);
    }
    Reflexive(f, runner);
    if runner in Dominators(f, up) {
      Antisymmetric(f, up, runner);
    }
    assert runner in Dominators(f, runner);
    SubsetSmaller(Dominators(f, up), Dominators(f, runner));
  }

  ghost predicate Joined(f: Func, d: nat, w: nat, ps: set<nat>) {
    (exists p :: p in ps && Dominates(f, d, p)) && !StrictlyDominates(f, d, w)
  }

  lemma JoinOne(f: Func, d: nat, w: nat, ps: set<nat>, p: nat)
    ensures Joined(f, d, w, ps + {p}) <==> Joined(f, d, w, ps) || (Dominates(f, d, p) && !StrictlyDominates(f, d, w))
  {
    if q :| q in ps && Dominates(f, d, q) {
      assert q in ps + {p};
    }
    if Dominates(f, d, p) {
      assert p in ps + {p};
    }
  }

  lemma JoinAll(f: Func, d: nat, w: nat, preds: set<nat>)
    requires preds == Predecessors(f, w)
    ensures Joined(f, d, w, preds) <==> InFrontier(f, d, w)
  {
    if q :| q in preds && Dominates(f, d, q) {
      assert ThroughEdge(f, d, q, w);
    }
    if q :| ThroughEdge(f, d, q, w) {
      assert q in preds && Dominates(f, d, q);
    }
  }

  class DominanceFrontier {
    const f: Func
    var frontier: seq<set<nat>>

    ghost predicate Valid(idoms: seq<int>)
      reads this
    {
      Tree(f, idoms) && |frontier| == |f.blocks|
    }

    /** Main result. The frontiers are those of the definition, for every block but the entrance, which is skipped. */
    constructor (f: Func, idoms: seq<int>)
      requires Tree(f, idoms)
      ensures this.f == f && |frontier| == |f.blocks|
      ensures forall d: nat, w: nat :: d < |frontier| ==>
        (w in frontier[d] <==> w < |frontier| && InFrontier(f, d, w) && w != 0)
    {
      this.f := f;
      frontier := seq(|f.blocks|, _ => {});
      new;
      var w := 0;
      while w < |f.blocks|
        invariant w <= |f.blocks| && Valid(idoms)
        invariant forall d: nat, x: nat :: d < |frontier| ==>
          (x in frontier[d] <==> x < w && InFrontier(f, d, x) && x != 0)
      {
        if idoms[w] != -1 {
          AddJoin(idoms, w);
        }
        assert IsIdom(f, idoms[w], w);
        w := w + 1;
      }
    }

    /** The predecessors of one block. */
    method AddJoin(idoms: seq<int>, w: nat)
      requires Valid(idoms) && w < |frontier| && w != 0
      requires forall d: nat :: d < |frontier| ==> w !in frontier[d]
      modifies this
      ensures Valid(idoms)
      ensures forall d: nat, x: nat :: d < |frontier| ==>
        (x in frontier[d] <==> x in old(frontier)[d] || (x == w && InFrontier(f, d, w)))
    {
      var preds := set p | 0 <= p < |f.blocks| && w in Targets(f.blocks[p].exit);
      var todo := preds;
      while todo != {}
        invariant todo <= preds && Valid(idoms)
        invariant forall d: nat, x: nat :: d < |frontier| ==>
          (x in frontier[d] <==> x in old(frontier)[d] || (x == w && Joined(f, d, w, preds - todo)))
      {
        var pred :| pred in todo;
        assert Edge(f, pred, w);
        label Before:
        RunUp(idoms, w, pred);
        todo := todo - {pred};
        assert preds - todo == (preds - (todo + {pred})) + {pred};
        forall d: nat | d < |frontier|
          ensures w in frontier[d] <==> w in old(frontier)[d] || Joined(f, d, w, preds - todo)
        {
          JoinOne(f, d, w, preds - (todo + {pred}), pred);
        }
      }
      forall d: nat | d < |frontier| ensures Joined(f, d, w, preds) <==> InFrontier(f, d, w) {
        JoinAll(f, d, w, preds);
      }
      assert preds - todo == preds;
    }

    /** From one predecessor up to the immediate dominator. */
    method RunUp(idoms: seq<int>, w: nat, pred: nat)
      requires Valid(idoms) && w < |frontier| && w != 0 && Edge(f, pred, w)
      modifies this
      ensures Valid(idoms)
      ensures forall d: nat, x: nat :: d < |frontier| ==>
        (x in frontier[d] <==> x in old(frontier)[d] || (x == w && Dominates(f, d, pred) && !StrictlyDominates(f, d, w)))
    {
      assert Reachable(f, pred);
      Reflexive(f, pred);
      RunnerAbove(f, idoms, pred, w);
      forall d: nat ensures !Visited(f, pred, pred, d) {
        RunnerStarts(f, pred, d);
      }
      var runner: int := pred;
      while runner != -1 && runner != idoms[w]
        invariant Valid(idoms) && 0 <= runner < |frontier|
        invariant Dominates(f, runner, pred) && Dominates(f, idoms[w], runner)
        invariant forall d: nat, x: nat :: d < |frontier| ==>
          (x in frontier[d] <==> x in old(frontier)[d] || (x == w && Visited(f, pred, runner, d)))
        decreases |Dominators(f, runner)|
      {
        RunnerGoesOn(f, idoms, w, pred, runner);
        forall d: nat ensures Visited(f, pred, idoms[runner], d) <==> Visited(f, pred, runner, d) || d == runner {
          RunnerSteps(f, idoms, pred, runner, d);
        }
        frontier := frontier[runner := frontier[runner] + {w}];
        runner := idoms[runner];
      }
      forall d: nat
        ensures Visited(f, pred, idoms[w], d) <==> Dominates(f, d, pred) && !StrictlyDominates(f, d, w)
      {
        RunnerEnds(f, idoms, pred, w, d);
      }
    }
  }

  /** The analyses that SSA construction starts from, one after the other: they work exactly on functions without dead
      blocks. */
  method Analyse(f: Func) returns (ok: bool, idoms: seq<int>, children: seq<seq<nat>>, frontier: seq<set<nat>>)
    requires Closed(f)
    ensures ok <==> AllReachable(f)
    ensures ok ==> Tree(f, idoms) && Children(idoms, children) && |frontier| == |f.blocks|
    ensures ok ==> forall d: nat, w: nat :: d < |frontier| ==>
      (w in frontier[d] <==> w < |frontier| && InFrontier(f, d, w) && w != 0)
  {
    var flow := new DataFlow(f);
    ok, idoms, children := BuildTree(f, flow.out);
    frontier := [];
    if ok {
      var df := new DominanceFrontier(f, idoms);
      frontier := df.frontier;
    }
  }
}
