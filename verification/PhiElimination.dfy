/**
 * Replacing phis by copies preserves what a function does
 * (src/backend/ir/transform/ssa/destruct.hpp, ReplacePhi).
 *
 * Copies for all successors of a block are made at its end, so on the way to one successor the phi results of another
 * are overwritten too. That is harmless once no edge into a phi is critical: the other successor then has no other
 * predecessor, so it dominates nothing that is reached without passing through it again.
 */
module PhiElimination {
  import opened PhiCopies
  import opened SsaProgram

  function PhisOf(f: Func, b: nat): seq<Phi> {
    if b < |f.blocks| then f.blocks[b].phis else []
  }

  function CopyFor(f: Func, from: nat, to: nat, i: nat): Copy
    requires i < |PhisOf(f, to)|
  {
    Copy(ArgOf(PhisOf(f, to)[i].args, from), PhisOf(f, to)[i].result)
  }

  /** The parallel copy at the end of block b: one for each phi of each successor. */
  ghost function Copies(f: Func, b: nat): set<Copy>
    requires b < |f.blocks|
  {
    set t, i | t in Targets(f.blocks[b].exit) && 0 <= i < |PhisOf(f, t)| :: CopyFor(f, b, t, i)
  }

  lemma CopiesParallel(f: Func, b: nat)
    requires StrictSsa(f) && b < |f.blocks|
    ensures Parallel(Copies(f, b), f.temps)
  {
    var all := Copies(f, b);
    forall c | c in all ensures !c.dest.Constant? && !IsFresh(c.dest, f.temps) && !IsFresh(c.src, f.temps) {
      var t, i :| t in Targets(f.blocks[b].exit) && 0 <= i < |PhisOf(f, t)| && c == CopyFor(f, b, t, i);
      assert Edge(f, b, t) && EdgeArgs(f, b, t);
    }
    forall c, d | c in all && d in all && c.dest == d.dest ensures c == d {
      var t, i :| t in Targets(f.blocks[b].exit) && 0 <= i < |PhisOf(f, t)| && c == CopyFor(f, b, t, i);
      var u, j :| u in Targets(f.blocks[b].exit) && 0 <= j < |PhisOf(f, u)| && d == CopyFor(f, b, u, j);
      assert IsPhi(f, t, i) && IsPhi(f, u, j);
    }
  }

  function Movs(ms: seq<Move>): seq<Inst> {
    seq(|ms|, i requires 0 <= i < |ms| => Mov(ms[i]))
  }

  lemma {:induction false} MovesExec(ops: Ops, ms: seq<Move>, s: Store, x: Value)
    ensures Exec(ops, Movs(ms), s).world == s.world
    ensures !x.Constant? ==> Exec(ops, Movs(ms), s).env(x) == Eval(s.env, Origin(ms, x))
  {
    if ms != [] {
      var init, last := ms[..|ms| - 1], ms[|ms| - 1];
      assert Movs(ms)[..|ms| - 1] == Movs(init);
      var y := if x == last.result then last.operand else x;
      MovesExec(ops, init, s, y);
    }
  }

  ghost predicate DestructedBlock(f: Func, b: nat, c: Block, ms: seq<Move>)
    requires b < |f.blocks|
  {
    && Implements(ms, Copies(f, b), f.temps)
    && c == Block([], f.blocks[b].body + Movs(ms), f.blocks[b].exit)
  }

  ghost predicate Replaced(f: Func, b: nat, c: Block)
    requires b < |f.blocks|
  {
    exists ms :: DestructedBlock(f, b, c, ms)
  }

  /** g is f with each block's phis gone and moves at the end of each block that implement its parallel copy. */
  ghost predicate Destructed(f: Func, g: Func) {
    && |g.blocks| == |f.blocks|
    && forall b :: 0 <= b < |f.blocks| ==> Replaced(f, b, g.blocks[b])
  }

  ghost predicate SeveralSuccessors(f: Func, b: nat) {
    b < |f.blocks| && f.blocks[b].exit.Branch? && f.blocks[b].exit.onTrue != f.blocks[b].exit.onFalse
  }

  /** An edge from a block with several successors to one with phis and several predecessors. */
  ghost predicate Critical(f: Func, a: nat, b: nat) {
    && Edge(f, a, b) && PhisOf(f, b) != [] && SeveralSuccessors(f, a)
    && exists c :: c != a && Edge(f, c, b)
  }

  ghost predicate NoCritical(f: Func) {
    forall a, b :: !Critical(f, a, b)
  }

  /** A phi result of another successor cannot be used at the one that is entered. */
  lemma SiblingUnusable(f: Func, b: nat, t: nat, d: nat, x: Value)
    requires StrictSsa(f) && NoCritical(f) && Reachable(f, b)
    requires Edge(f, b, t) && Edge(f, b, d) && t != d && PhiResult(f, d, x)
    ensures !Visible(f, t, x)
  {
    assert SeveralSuccessors(f, b) && PhisOf(f, d) != [];
    assert !Critical(f, b, d);
    var p :| PathTo(f, p, b);
    SuccessorAvoided(f, p, d, b);
    if Visible(f, t, x) {
      assert Dominates(f, d, t);
      DominatesBefore(f, d, b, t);
    }
  }

  lemma VisibleBefore(f: Func, b: nat, t: nat, x: Value)
    requires Edge(f, b, t) && Visible(f, t, x) && !PhiResult(f, t, x)
    ensures Visible(f, b, x)
  {
    forall d | PhiResult(f, d, x) ensures Dominates(f, d, b) {
      DominatesBefore(f, d, b, t);
    }
  }

  /** What the copies leave in x, for entering t. */
  lemma EdgeSimulates(ops: Ops, f: Func, b: nat, t: nat, ms: seq<Move>, s: Store, q: Store, x: Value)
    requires StrictSsa(f) && NoCritical(f) && Reachable(f, b) && Edge(f, b, t)
    requires Implements(ms, Copies(f, b), f.temps) && Agree(f, b, s, q) && Visible(f, t, x)
    ensures Exec(ops, Movs(ms), q).env(x) == EnterEnv(PhisOf(f, t), b, s.env)(x)
  {
    assert EdgeArgs(f, b, t);
    MovesExec(ops, ms, q, x);
    var i := PhiIndex(PhisOf(f, t), x);
    if i >= 0 {
      var c := CopyFor(f, b, t, i);
      assert c in Copies(f, b) && c.dest == x;
      EvalAgrees(f, b, s, q, c.src);
    } else {
      VisibleBefore(f, b, t, x);
      forall c | c in Copies(f, b) ensures c.dest != x {
        var d, j :| d in Targets(f.blocks[b].exit) && 0 <= j < |PhisOf(f, d)| && c == CopyFor(f, b, d, j);
        if c.dest == x {
          assert PhiIndex(PhisOf(f, d), x) >= 0;
          SiblingUnusable(f, b, t, d, x);
        }
      }
      assert !Writes(Copies(f, b), x);
    }
  }

  /** The two runs are at the same block, with the same values wherever a value can be used. */
  ghost predicate Alike(f: Func, r: Running, q: Running) {
    if r.Halted? then q == r
    else q.At? && q.block == r.block < |f.blocks| && Reachable(f, r.block) && Agree(f, r.block, r.store, q.store)
  }

  /** A condition is read after the copies: they do not touch it where it decides anything. */
  lemma ConditionKept(ops: Ops, f: Func, b: nat, ms: seq<Move>, u: Store, v: Value)
    requires StrictSsa(f) && NoCritical(f) && Reachable(f, b) && b < |f.blocks|
    requires Implements(ms, Copies(f, b), f.temps) && Usable(f, b, v)
    requires SeveralSuccessors(f, b) || f.blocks[b].exit.Return?
    ensures Eval(Exec(ops, Movs(ms), u).env, v) == Eval(u.env, v)
  {
    MovesExec(ops, ms, u, v);
    if !v.Constant? {
      forall c | c in Copies(f, b) ensures c.dest != v {
        var d, j :| d in Targets(f.blocks[b].exit) && 0 <= j < |PhisOf(f, d)| && c == CopyFor(f, b, d, j);
        assert Edge(f, b, d) && !Critical(f, b, d);
        if c.dest == v {
          assert PhiResult(f, d, v);
          var p :| PathTo(f, p, b);
          SuccessorAvoided(f, p, d, b);
        }
      }
      assert !Writes(Copies(f, b), v);
    }
  }

  lemma NextAlike(ops: Ops, f: Func, b: nat, ms: seq<Move>, s: Store, u: Store)
    requires StrictSsa(f) && NoCritical(f) && b < |f.blocks| && Reachable(f, b)
    requires Implements(ms, Copies(f, b), f.temps) && Agree(f, b, s, u) && !f.blocks[b].exit.Return?
    ensures Next(f.blocks[b].exit, s.env) == Next(f.blocks[b].exit, Exec(ops, Movs(ms), u).env)
  {
    var e := f.blocks[b].exit;
    assert ExitVisible(f, b, e);
    if SeveralSuccessors(f, b) {
      ConditionKept(ops, f, b, ms, u, e.cond);
      EvalAgrees(f, b, s, u, e.cond);
    }
  }

  lemma EnterAlike(ops: Ops, f: Func, g: Func, b: nat, t: nat, ms: seq<Move>, s: Store, u: Store)
    requires StrictSsa(f) && NoCritical(f) && Destructed(f, g) && Reachable(f, b) && Edge(f, b, t)
    requires Implements(ms, Copies(f, b), f.temps) && Agree(f, b, s, u)
    ensures Alike(f, Enter(f, b, t, s), Enter(g, b, t, Exec(ops, Movs(ms), u)))
  {
    var v := Exec(ops, Movs(ms), u);
    assert EdgeArgs(f, b, t);
    var p :| PathTo(f, p, b);
    PathExtends(f, p, b, t);
    MovesExec(ops, ms, u, Constant(0));
    var r, q := Enter(f, b, t, s).store, Enter(g, b, t, v).store;
    assert g.blocks[t].phis == [] by {
      assert Replaced(f, t, g.blocks[t]);
      var other :| DestructedBlock(f, t, g.blocks[t], other);
    }
    forall x | Visible(f, t, x) ensures r.env(x) == q.env(x) {
      EdgeSimulates(ops, f, b, t, ms, s, u, x);
    }
  }

  lemma StepAlike(ops: Ops, f: Func, g: Func, r: Running, q: Running)
    requires StrictSsa(f) && NoCritical(f) && Destructed(f, g) && Alike(f, r, q)
    ensures Alike(f, Step(ops, f, r), Step(ops, g, q))
  {
    if r.At? {
      var b := r.block;
      assert Replaced(f, b, g.blocks[b]);
      var ms :| DestructedBlock(f, b, g.blocks[b], ms);
      var block := f.blocks[b];
      var s, u := Exec(ops, block.body, r.store), Exec(ops, block.body, q.store);
      ExecAgrees(ops, f, b, block.body, r.store, q.store);
      ExecAppends(ops, block.body, Movs(ms), q.store);
      if block.exit.Return? {
        assert ExitVisible(f, b, block.exit);
        ConditionKept(ops, f, b, ms, u, block.exit.value);
        EvalAgrees(f, b, s, u, block.exit.value);
        MovesExec(ops, ms, u, Constant(0));
      } else {
        NextAlike(ops, f, b, ms, s, u);
        EnterAlike(ops, f, g, b, Next(block.exit, s.env), ms, s, u);
      }
    }
  }

  lemma {:induction false} RunAlike(ops: Ops, f: Func, g: Func, s: Store, n: nat)
    requires StrictSsa(f) && NoCritical(f) && Destructed(f, g)
    ensures Alike(f, Run(ops, f, At(0, s), n), Run(ops, g, At(0, s), n))
  {
    if n == 0 {
      assert PathTo(f, [0], 0);
    } else {
      RunAlike(ops, f, g, s, n - 1);
      StepAlike(ops, f, g, Run(ops, f, At(0, s), n - 1), Run(ops, g, At(0, s), n - 1));
    }
  }

  /** Main result, for the replacement itself: without critical edges, the copies do what the phis did. */
  lemma EliminationKeepsMeaning(f: Func, g: Func)
    requires StrictSsa(f) && NoCritical(f) && Destructed(f, g)
    ensures SameMeaning(f, g)
  {
    forall ops, s, value, world
      ensures Returns(ops, f, s, value, world) <==> Returns(ops, g, s, value, world)
    {
      if n :| Run(ops, f, At(0, s), n) == Halted(value, world) {
        RunAlike(ops, f, g, s, n);
      }
      if n :| Run(ops, g, At(0, s), n) == Halted(value, world) {
        RunAlike(ops, f, g, s, n);
      }
    }
  }
}
