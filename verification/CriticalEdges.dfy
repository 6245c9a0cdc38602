/**
 * Splitting a critical edge (src/backend/ir/transform/ssa/destruct.hpp, SplitCriticalEdge): a new, empty block is put on
 * the edge, and the phis at its end name the new block where they named its start. SSA form and meaning are kept, and no
 * other edge becomes critical.
 */
module CriticalEdges {
  import opened PhiCopies
  import opened SsaProgram
  import opened PhiElimination

  function RenameArgs(args: seq<(nat, Value)>, from: nat, mid: nat): seq<(nat, Value)> {
    seq(|args|, k requires 0 <= k < |args| => if args[k].0 == from then (mid, args[k].1) else args[k])
  }

  function RenamePhis(phis: seq<Phi>, from: nat, mid: nat): seq<Phi> {
    seq(|phis|, i requires 0 <= i < |phis| => Phi(phis[i].result, RenameArgs(phis[i].args, from, mid)))
  }

  function Retarget(e: Exit, to: nat, mid: nat): Exit {
    match e
    case Jump(t) => Jump(if t == to then mid else t)
    case Branch(c, t, u) => Branch(c, if t == to then mid else t, if u == to then mid else u)
    case Return(_) => e
  }

  /** Block b of the result, for a block of the function. */
  function SplitBlock(f: Func, from: nat, to: nat, b: nat): Block
    requires b < |f.blocks|
  {
    var block := f.blocks[b];
    Block(if b == to then RenamePhis(block.phis, from, |f.blocks|) else block.phis, block.body,
          if b == from then Retarget(block.exit, to, |f.blocks|) else block.exit)
  }

  function SplitEdge(f: Func, from: nat, to: nat): Func {
    Func(seq(|f.blocks|, b requires 0 <= b < |f.blocks| => SplitBlock(f, from, to, b)) + [Block([], [], Jump(to))],
         f.temps)
  }

  // ----- Arguments and edges

  lemma {:induction false} RenamedArg(args: seq<(nat, Value)>, from: nat, mid: nat, x: nat)
    requires forall k :: 0 <= k < |args| ==> args[k].0 != mid
    ensures x != from && x != mid ==> ArgOf(RenameArgs(args, from, mid), x) == ArgOf(args, x)
    ensures x == mid ==> ArgOf(RenameArgs(args, from, mid), x) == ArgOf(args, from)
    ensures x != from && x != mid && HasArg(args, x) ==> HasArg(RenameArgs(args, from, mid), x)
    ensures x == mid && HasArg(args, from) ==> HasArg(RenameArgs(args, from, mid), x)
  {
    var renamed := RenameArgs(args, from, mid);
    if args != [] {
      RenamedArg(args[1..], from, mid, x);
      assert renamed[1..] == RenameArgs(args[1..], from, mid);
      assert forall k :: 0 <= k < |args| ==> (args[k].0 == from ==> renamed[k].0 == mid) && (args[k].0 != from ==> renamed[k] == args[k]);
    }
  }

  lemma {:induction false} RenamedIndex(phis: seq<Phi>, from: nat, mid: nat, x: Value)
    ensures PhiIndex(RenamePhis(phis, from, mid), x) == PhiIndex(phis, x)
  {
    if phis != [] {
      RenamedIndex(phis[1..], from, mid, x);
      assert RenamePhis(phis, from, mid)[1..] == RenamePhis(phis[1..], from, mid);
    }
  }

  lemma SplitEdges(f: Func, from: nat, to: nat, x: nat, y: nat)
    requires StrictSsa(f) && Edge(f, from, to)
    ensures Edge(SplitEdge(f, from, to), x, y) <==>
      (Edge(f, x, y) && (x != from || y != to)) || (x == from && y == |f.blocks|) || (x == |f.blocks| && y == to)
  {
    assert Edge(f, x, y) ==> EdgeArgs(f, x, y);
    NoEdgeBeyond(f, x, |f.blocks|);
  }

  /** A path of the split function, without its stops at the new block, is a path of the function. */
  lemma {:induction false} Project(f: Func, from: nat, to: nat, p: seq<nat>, y: nat) returns (q: seq<nat>)
    requires StrictSsa(f) && Edge(f, from, to) && PathTo(SplitEdge(f, from, to), p, y) && y < |f.blocks|
    ensures PathTo(f, q, y) && forall z :: z in q ==> z in p
    decreases |p|
  {
    if |p| == 1 {
      return p;
    }
    var n, g := |p|, SplitEdge(f, from, to);
    var x := p[n - 2];
    assert Edge(g, p[n - 2], p[n - 1]);
    SplitEdges(f, from, to, x, y);
    var init := p[..n - 1];
    if x == |f.blocks| {
      assert n > 2 && Edge(g, p[n - 3], p[n - 2]);
      SplitEdges(f, from, to, p[n - 3], x);
      NoEdgeBeyond(f, p[n - 3], x);
      init := p[..n - 2];
      x := from;
    }
    var r := Project(f, from, to, init, x);
    PathExtends(f, r, x, y);
    q := r + [y];
  }

  lemma NoEdgeBeyond(f: Func, x: nat, y: nat)
    requires StrictSsa(f) && y >= |f.blocks|
    ensures !Edge(f, x, y)
  {
    assert Edge(f, x, y) ==> EdgeArgs(f, x, y);
  }

  // ----- SSA form

  lemma SplitDominates(f: Func, from: nat, to: nat, d: nat, y: nat)
    requires StrictSsa(f) && Edge(f, from, to)
    requires (y < |f.blocks| && Dominates(f, d, y)) || (y == |f.blocks| && Dominates(f, d, from))
    ensures Dominates(SplitEdge(f, from, to), d, y)
  {
    var g := SplitEdge(f, from, to);
    forall p | PathTo(g, p, y) ensures d in p {
      if y < |f.blocks| {
        var q := Project(f, from, to, p, y);
      } else {
        assert |p| > 1 && Edge(g, p[|p| - 2], p[|p| - 1]);
        SplitEdges(f, from, to, p[|p| - 2], y);
        NoEdgeBeyond(f, p[|p| - 2], y);
        var q := Project(f, from, to, p[..|p| - 1], from);
      }
    }
  }

  lemma SplitPhiResult(f: Func, from: nat, to: nat, d: nat, x: Value)
    ensures PhiResult(SplitEdge(f, from, to), d, x) <==> PhiResult(f, d, x)
  {
    if d < |f.blocks| {
      RenamedIndex(f.blocks[d].phis, from, |f.blocks|, x);
    }
  }

  lemma SplitUsable(f: Func, from: nat, to: nat, y: nat, v: Value)
    requires StrictSsa(f) && Edge(f, from, to)
    requires (y < |f.blocks| && Usable(f, y, v)) || (y == |f.blocks| && Usable(f, from, v))
    ensures Usable(SplitEdge(f, from, to), y, v)
  {
    forall d | PhiResult(SplitEdge(f, from, to), d, v) && !v.Constant? ensures Dominates(SplitEdge(f, from, to), d, y) {
      SplitPhiResult(f, from, to, d, v);
      SplitDominates(f, from, to, d, y);
    }
  }

  lemma SplitSingleAssignment(f: Func, from: nat, to: nat)
    requires SingleAssignment(f)
    ensures SingleAssignment(SplitEdge(f, from, to))
  {
    var g := SplitEdge(f, from, to);
    forall b: nat, i: nat | IsPhi(g, b, i)
      ensures IsPhi(f, b, i) && g.blocks[b].phis[i].result == f.blocks[b].phis[i].result
    {
    }
  }

  lemma SplitEdgeArgs(f: Func, from: nat, to: nat, x: nat, y: nat)
    requires StrictSsa(f) && Edge(f, from, to) && Edge(SplitEdge(f, from, to), x, y)
    ensures EdgeArgs(SplitEdge(f, from, to), x, y)
  {
    var n, g := |f.blocks|, SplitEdge(f, from, to);
    SplitEdges(f, from, to, x, y);
    if y < n {
      var source := if x == n then from else x;
      assert EdgeArgs(f, source, y);
      forall i | 0 <= i < |g.blocks[y].phis|
        ensures HasArg(g.blocks[y].phis[i].args, x) && Usable(g, x, ArgOf(g.blocks[y].phis[i].args, x))
      {
        var args := f.blocks[y].phis[i].args;
        RenamedArg(args, from, n, x);
        SplitUsable(f, from, to, x, ArgOf(args, source));
      }
    } else {
      NoEdgeBeyond(f, x, y);
    }
  }

  lemma SplitUses(f: Func, from: nat, to: nat, b: nat, k: nat)
    requires StrictSsa(f) && Edge(f, from, to) && b < |f.blocks| && k < |f.blocks[b].body|
    ensures UsesVisible(SplitEdge(f, from, to), b, f.blocks[b].body[k])
  {
    assert UsesVisible(f, b, f.blocks[b].body[k]);
    match f.blocks[b].body[k] {
      case Mov(m) => SplitUsable(f, from, to, b, m.operand);
      case Compute(_, _, vs) =>
        forall j | 0 <= j < |vs| ensures Usable(SplitEdge(f, from, to), b, vs[j]) {
          SplitUsable(f, from, to, b, vs[j]);
        }
    }
  }

  lemma SplitExit(f: Func, from: nat, to: nat, b: nat)
    requires StrictSsa(f) && Edge(f, from, to) && b < |f.blocks|
    ensures ExitVisible(SplitEdge(f, from, to), b, SplitBlock(f, from, to, b).exit)
  {
    assert ExitVisible(f, b, f.blocks[b].exit);
    match f.blocks[b].exit {
      case Jump(_) =>
      case Branch(c, _, _) => SplitUsable(f, from, to, b, c);
      case Return(v) => SplitUsable(f, from, to, b, v);
    }
  }

  lemma SplitKeepsSsa(f: Func, from: nat, to: nat)
    requires StrictSsa(f) && Edge(f, from, to)
    ensures StrictSsa(SplitEdge(f, from, to))
  {
    var n, g := |f.blocks|, SplitEdge(f, from, to);
    SplitSingleAssignment(f, from, to);
    forall a, b | Edge(g, a, b) ensures EdgeArgs(g, a, b) {
      SplitEdgeArgs(f, from, to, a, b);
    }
    forall b, i, k | 0 <= b < |g.blocks| && 0 <= i < |g.blocks[b].phis| && 0 <= k < |g.blocks[b].phis[i].args|
      ensures g.blocks[b].phis[i].args[k].0 < |g.blocks|
    {
      assert f.blocks[b].phis[i].args[k].0 < n;
    }
    forall b, k | 0 <= b < |g.blocks| && 0 <= k < |g.blocks[b].body| ensures UsesVisible(g, b, g.blocks[b].body[k]) {
      SplitUses(f, from, to, b, k);
    }
    forall b | 0 <= b < |g.blocks| ensures ExitVisible(g, b, g.blocks[b].exit) {
      if b < n {
        SplitExit(f, from, to, b);
      }
    }
  }

  // ----- Critical edges

  /** The edge is gone from the critical ones, and no other has joined them. */
  lemma SplitCritical(f: Func, from: nat, to: nat, x: nat, y: nat)
    requires StrictSsa(f) && Edge(f, from, to) && Critical(SplitEdge(f, from, to), x, y)
    ensures Critical(f, x, y) && (x != from || y != to)
  {
    var n, g := |f.blocks|, SplitEdge(f, from, to);
    SplitEdges(f, from, to, x, y);
    NoEdgeBeyond(f, from, n);
    assert SeveralSuccessors(f, x) by {
      assert Edge(f, x, f.blocks[x].exit.onTrue) && Edge(f, x, f.blocks[x].exit.onFalse);
    }
    var c :| c != x && Edge(g, c, y);
    SplitEdges(f, from, to, c, y);
    if c == n {
      assert Edge(f, from, y) && from != x;
    } else {
      assert Edge(f, c, y);
    }
  }

  // ----- Meaning

  ghost predicate Same(s: Store, t: Store) {
    s.world == t.world && forall x :: s.env(x) == t.env(x)
  }

  lemma {:induction false} ExecSame(ops: Ops, body: seq<Inst>, s: Store, t: Store)
    requires Same(s, t)
    ensures Same(Exec(ops, body, s), Exec(ops, body, t))
  {
    if body != [] {
      var init := body[..|body| - 1];
      ExecSame(ops, init, s, t);
      InstSame(ops, body[|body| - 1], Exec(ops, init, s), Exec(ops, init, t));
    }
  }

  lemma InstSame(ops: Ops, i: Inst, s: Store, t: Store)
    requires Same(s, t)
    ensures Same(ExecInst(ops, i, s), ExecInst(ops, i, t))
  {
    match i {
      case Mov(_) =>
      case Compute(_, _, vs) =>
        assert seq(|vs|, k requires 0 <= k < |vs| => Eval(s.env, vs[k]))
            == seq(|vs|, k requires 0 <= k < |vs| => Eval(t.env, vs[k]));
    }
  }

  /** The runs are at the same block of the function, with the same store. */
  ghost predicate Matches(f: Func, r: Running, q: Running) {
    if r.Halted? then q == r else q.At? && q.block == r.block < |f.blocks| && Same(r.store, q.store)
  }

  /** Renamed phis give the new predecessor what they gave the old one. */
  lemma RenamedEnter(phis: seq<Phi>, from: nat, mid: nat, x: nat, s: Store, t: Store, z: Value)
    requires Same(s, t) && x != mid && forall i, k :: 0 <= i < |phis| && 0 <= k < |phis[i].args| ==> phis[i].args[k].0 != mid
    ensures EnterEnv(phis, x, s.env)(z)
         == EnterEnv(RenamePhis(phis, from, mid), if x == from then mid else x, t.env)(z)
  {
    RenamedIndex(phis, from, mid, z);
    var i := PhiIndex(phis, z);
    if i >= 0 {
      RenamedArg(phis[i].args, from, mid, if x == from then mid else x);
    }
  }

  lemma SameEnter(phis: seq<Phi>, x: nat, s: Store, t: Store, z: Value)
    requires Same(s, t)
    ensures EnterEnv(phis, x, s.env)(z) == EnterEnv(phis, x, t.env)(z)
  {
    var i := PhiIndex(phis, z);
    var source := if i < 0 then z else ArgOf(phis[i].args, x);
    assert s.env(source) == t.env(source);
  }

  lemma ArgsBelow(f: Func, y: nat)
    requires StrictSsa(f) && y < |f.blocks|
    ensures var phis := f.blocks[y].phis;
      forall i, k :: 0 <= i < |phis| && 0 <= k < |phis[i].args| ==> phis[i].args[k].0 != |f.blocks|
  {
  }

  /** Entering a block of the function, from its old predecessor or from the block put before it. */
  lemma EnterMatches(f: Func, from: nat, to: nat, x: nat, y: nat, s: Store, t: Store)
    requires StrictSsa(f) && Edge(f, from, to) && Same(s, t)
    requires Edge(f, x, y)
    ensures var source := if x == from && y == to then |f.blocks| else x;
      Matches(f, Enter(f, x, y, s), Enter(SplitEdge(f, from, to), source, y, t))
  {
    var n, g := |f.blocks|, SplitEdge(f, from, to);
    assert EdgeArgs(f, x, y);
    var source := if x == from && y == to then n else x;
    var r, q := Enter(f, x, y, s).store, Enter(g, source, y, t).store;
    var phis := f.blocks[y].phis;
    assert g.blocks[y].phis == if y == to then RenamePhis(phis, from, n) else phis;
    if y == to {
      ArgsBelow(f, y);
      forall z ensures r.env(z) == q.env(z) {
        RenamedEnter(phis, from, n, x, s, t, z);
      }
    } else {
      forall z ensures r.env(z) == q.env(z) {
        SameEnter(phis, x, s, t, z);
      }
    }
  }

  /** One step of the function is one or two of the split one. */
  lemma SplitStep(ops: Ops, f: Func, from: nat, to: nat, r: Running, q: Running)
    requires StrictSsa(f) && Edge(f, from, to) && Matches(f, r, q)
    ensures var g := SplitEdge(f, from, to);
      Matches(f, Step(ops, f, r), Step(ops, g, q)) || Matches(f, Step(ops, f, r), Step(ops, g, Step(ops, g, q)))
  {
    if r.At? {
      var g, b := SplitEdge(f, from, to), r.block;
      var block := f.blocks[b];
      ExecSame(ops, block.body, r.store, q.store);
      var s, t := Exec(ops, block.body, r.store), Exec(ops, block.body, q.store);
      if !block.exit.Return? {
        var y := Next(block.exit, s.env);
        assert Edge(f, b, y);
        if b == from && y == to {
          ThroughMid(ops, f, from, to, s, t);
        } else {
          EnterMatches(f, from, to, b, y, s, t);
        }
      }
    }
  }

  /** The new block does nothing and goes on to the end of the edge. */
  lemma ThroughMid(ops: Ops, f: Func, from: nat, to: nat, s: Store, t: Store)
    requires StrictSsa(f) && Edge(f, from, to) && Same(s, t)
    ensures var g := SplitEdge(f, from, to);
      Matches(f, Enter(f, from, to, s), Step(ops, g, Enter(g, from, |f.blocks|, t)))
  {
    var g, n := SplitEdge(f, from, to), |f.blocks|;
    var u := Enter(g, from, n, t).store;
    assert Same(t, u);
    EnterMatches(f, from, to, from, to, s, u);
  }

  lemma SplitNext(ops: Ops, f: Func, from: nat, to: nat, s: Store, n: nat, m: nat)
    requires StrictSsa(f) && Edge(f, from, to)
    requires Matches(f, Run(ops, f, At(0, s), n), Run(ops, SplitEdge(f, from, to), At(0, s), m))
    ensures var g, r := SplitEdge(f, from, to), Run(ops, f, At(0, s), n + 1);
      Matches(f, r, Run(ops, g, At(0, s), m + 1)) || Matches(f, r, Run(ops, g, At(0, s), m + 2))
  {
    var g := SplitEdge(f, from, to);
    SplitStep(ops, f, from, to, Run(ops, f, At(0, s), n), Run(ops, g, At(0, s), m));
    assert Run(ops, g, At(0, s), m + 2) == Step(ops, g, Run(ops, g, At(0, s), m + 1));
  }

  lemma {:induction false} SplitRun(ops: Ops, f: Func, from: nat, to: nat, s: Store, n: nat) returns (m: nat)
    requires StrictSsa(f) && Edge(f, from, to)
    ensures n <= m && Matches(f, Run(ops, f, At(0, s), n), Run(ops, SplitEdge(f, from, to), At(0, s), m))
  {
    if n == 0 {
      return 0;
    }
    m := SplitRun(ops, f, from, to, s, n - 1);
    SplitNext(ops, f, from, to, s, n - 1, m);
    m := if Matches(f, Run(ops, f, At(0, s), n), Run(ops, SplitEdge(f, from, to), At(0, s), m + 1)) then m + 1 else m + 2;
  }

  lemma SplitKeepsMeaning(f: Func, from: nat, to: nat)
    requires StrictSsa(f) && Edge(f, from, to)
    ensures SameMeaning(f, SplitEdge(f, from, to))
  {
    var g := SplitEdge(f, from, to);
    forall ops, s, value, world
      ensures Returns(ops, f, s, value, world) <==> Returns(ops, g, s, value, world)
    {
      if n :| Run(ops, f, At(0, s), n) == Halted(value, world) {
        var m := SplitRun(ops, f, from, to, s, n);
      }
      if n :| Run(ops, g, At(0, s), n) == Halted(value, world) {
        var m := SplitRun(ops, f, from, to, s, n);
        HaltedStays(ops, g, At(0, s), n, m);
      }
    }
  }
}
