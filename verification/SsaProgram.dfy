/**
 * The compiler's intermediate representation in SSA form (src/backend/ir/ir.h, docs/ir.md), and what a function in it
 * does when it is run.
 *
 * Blocks are indices into the function's list, the first is the entrance. A Compute instruction stands for every
 * instruction but MOV and phi: what it computes, and what it does to memory and to the outside, is a parameter.
 */
module SsaProgram {
  import opened PhiCopies

  datatype Inst = Mov(move: Move) | Compute(result: Value, op: nat, operands: seq<Value>)

  datatype Phi = Phi(result: Value, args: seq<(nat, Value)>)

  datatype Exit = Jump(target: nat) | Branch(cond: Value, onTrue: nat, onFalse: nat) | Return(value: Value)

  /** The phis of a block come before its other instructions. */
  datatype Block = Block(phis: seq<Phi>, body: seq<Inst>, exit: Exit)

  /** newTemp() hands out the temporaries from `temps` on. */
  datatype Func = Func(blocks: seq<Block>, temps: nat)

  // ----- Running

  /** The variables, and everything else: memory and the effects so far. */
  datatype Store = Store(env: Value -> int, world: seq<int>)

  /** What an instruction computes from its operands and the world. */
  type Ops = (nat, seq<int>, seq<int>) -> (int, seq<int>)

  function Eval(env: Value -> int, v: Value): int {
    if v.Constant? then v.literal else env(v)
  }

  function Assign(env: Value -> int, x: Value, n: int): Value -> int {
    y => if y == x then n else env(y)
  }

  function ExecInst(ops: Ops, i: Inst, s: Store): Store {
    match i
    case Mov(m) => Store(Assign(s.env, m.result, Eval(s.env, m.operand)), s.world)
    case Compute(x, op, vs) =>
      var r := ops(op, seq(|vs|, k requires 0 <= k < |vs| => Eval(s.env, vs[k])), s.world);
      Store(Assign(s.env, x, r.0), r.1)
  }

  function Exec(ops: Ops, body: seq<Inst>, s: Store): Store {
    if body == [] then s else ExecInst(ops, body[|body| - 1], Exec(ops, body[..|body| - 1], s))
  }

  /** PhiInst::value: the argument for a predecessor. (The program is rejected when there is none; see StrictSsa.) */
  function ArgOf(args: seq<(nat, Value)>, from: nat): (v: Value)
    ensures forall k :: 0 <= k < |args| && args[k].0 == from && (forall j :: 0 <= j < k ==> args[j].0 != from) ==>
      v == args[k].1
    ensures HasArg(args, from) <==> exists k :: 0 <= k < |args| && args[k] == (from, v)
  {
    if args == [] then Constant(0)
    else if args[0].0 == from then args[0].1
    else
      var v := ArgOf(args[1..], from);
      assert forall j :: 1 <= j < |args| ==> args[j] == args[1..][j - 1];
      v
  }

  predicate HasArg(args: seq<(nat, Value)>, from: nat) {
    exists k :: 0 <= k < |args| && args[k].0 == from
  }

  /** The first phi with result x, -1 if there is none. */
  function PhiIndex(phis: seq<Phi>, x: Value): (i: int)
    ensures -1 <= i < |phis|
    ensures i >= 0 ==> phis[i].result == x
    ensures i < 0 ==> forall j :: 0 <= j < |phis| ==> phis[j].result != x
  {
    if phis == [] then -1
    else if phis[0].result == x then 0
    else
      var i := PhiIndex(phis[1..], x);
      assert forall j :: 1 <= j < |phis| ==> phis[j] == phis[1..][j - 1];
      if i < 0 then -1 else i + 1
  }

  predicate Defines(phis: seq<Phi>, x: Value) {
    PhiIndex(phis, x) >= 0
  }

  /** Entering a block from a predecessor: its phis read all their arguments, then write all their results. */
  function EnterEnv(phis: seq<Phi>, from: nat, env: Value -> int): Value -> int {
    x =>
      var i := PhiIndex(phis, x);
      if i < 0 then env(x) else Eval(env, ArgOf(phis[i].args, from))
  }

  datatype Running = At(block: nat, store: Store) | Halted(value: int, world: seq<int>)

  /** The block that an exit leads to. */
  function Next(e: Exit, env: Value -> int): nat
    requires !e.Return?
  {
    match e
    case Jump(t) => t
    case Branch(c, t, u) => if Eval(env, c) != 0 then t else u
  }

  function Enter(f: Func, from: nat, to: nat, s: Store): Running {
    At(to, Store(if to < |f.blocks| then EnterEnv(f.blocks[to].phis, from, s.env) else s.env, s.world))
  }

  function Step(ops: Ops, f: Func, r: Running): Running {
    if r.Halted? || r.block >= |f.blocks| then r
    else
      var b := f.blocks[r.block];
      var s := Exec(ops, b.body, r.store);
      if b.exit.Return? then Halted(Eval(s.env, b.exit.value), s.world)
      else Enter(f, r.block, Next(b.exit, s.env), s)
  }

  function Run(ops: Ops, f: Func, r: Running, n: nat): Running {
    if n == 0 then r else Step(ops, f, Run(ops, f, r, n - 1))
  }

  /** Started on s, the function returns this value and leaves the world like this. */
  ghost predicate Returns(ops: Ops, f: Func, s: Store, value: int, world: seq<int>) {
    exists n :: Run(ops, f, At(0, s), n) == Halted(value, world)
  }

  /** Two functions do the same: they return on the same inputs, the same value, with the same effects. */
  ghost predicate SameMeaning(f: Func, g: Func) {
    forall ops, s, value, world :: Returns(ops, f, s, value, world) <==> Returns(ops, g, s, value, world)
  }

  // ----- The control flow graph

  function Targets(e: Exit): set<nat> {
    match e
    case Jump(t) => {t}
    case Branch(_, t, u) => {t, u}
    case Return(_) => {}
  }

  predicate Edge(f: Func, a: nat, b: nat) {
    a < |f.blocks| && b in Targets(f.blocks[a].exit)
  }

  /** p runs along edges, from the entrance. */
  ghost predicate Path(f: Func, p: seq<nat>) {
    && p != [] && p[0] == 0
    && forall i :: 0 < i < |p| ==> Edge(f, p[i - 1], p[i])
  }

  ghost predicate PathTo(f: Func, p: seq<nat>, b: nat) {
    Path(f, p) && p[|p| - 1] == b
  }

  ghost predicate Reachable(f: Func, b: nat) {
    exists p :: PathTo(f, p, b)
  }

  ghost predicate Dominates(f: Func, d: nat, b: nat) {
    forall p :: PathTo(f, p, b) ==> d in p
  }

  lemma PathExtends(f: Func, p: seq<nat>, a: nat, b: nat)
    requires PathTo(f, p, a) && Edge(f, a, b)
    ensures PathTo(f, p + [b], b)
  {
  }

  /** What dominates the end of an edge dominates its start, or is its end. */
  lemma DominatesBefore(f: Func, d: nat, a: nat, b: nat)
    requires Edge(f, a, b) && Dominates(f, d, b) && d != b
    ensures Dominates(f, d, a)
  {
    forall p | PathTo(f, p, a) ensures d in p {
      PathExtends(f, p, a, b);
      assert d in p + [b];
    }
  }

  /** A block with one predecessor does not dominate it. */
  lemma {:induction false} SuccessorAvoided(f: Func, p: seq<nat>, d: nat, b: nat)
    requires PathTo(f, p, b) && d != 0 && forall a :: Edge(f, a, d) ==> a == b
    ensures !Dominates(f, d, b)
    decreases |p|
  {
    if i :| 0 <= i < |p| - 1 && p[i] == b {
      SuccessorAvoided(f, p[..i + 1], d, b);
    } else {
      forall j | 0 <= j < |p| ensures p[j] != d {
        assert j > 0 ==> Edge(f, p[j - 1], p[j]);
      }
    }
  }

  // ----- SSA form

  ghost predicate PhiResult(f: Func, d: nat, x: Value) {
    d < |f.blocks| && Defines(f.blocks[d].phis, x)
  }

  /** x is a variable of the program whose value is defined in block b, if it is a phi's result. */
  ghost predicate Visible(f: Func, b: nat, x: Value) {
    && !x.Constant? && !IsFresh(x, f.temps)
    && forall d :: PhiResult(f, d, x) ==> Dominates(f, d, b)
  }

  ghost predicate Usable(f: Func, b: nat, v: Value) {
    v.Constant? || Visible(f, b, v)
  }

  ghost predicate UsesVisible(f: Func, b: nat, i: Inst) {
    match i
    case Mov(m) => Usable(f, b, m.operand)
    case Compute(_, _, vs) => forall k :: 0 <= k < |vs| ==> Usable(f, b, vs[k])
  }

  ghost predicate ExitVisible(f: Func, b: nat, e: Exit) {
    match e
    case Jump(_) => true
    case Branch(c, _, _) => Usable(f, b, c)
    case Return(v) => Usable(f, b, v)
  }

  function Result(i: Inst): Value {
    match i
    case Mov(m) => m.result
    case Compute(x, _, _) => x
  }

  /** The arguments of a block's phis for one incoming edge are there, and defined at its start. */
  ghost predicate EdgeArgs(f: Func, a: nat, b: nat) {
    b < |f.blocks| &&
    forall i :: 0 <= i < |f.blocks[b].phis| ==>
      HasArg(f.blocks[b].phis[i].args, a) && Usable(f, a, ArgOf(f.blocks[b].phis[i].args, a))
  }

  /** Phi results are left values of the program, each the result of one phi and of nothing else. */
  ghost predicate SingleAssignment(f: Func) {
    && (forall b, i :: 0 <= b < |f.blocks| && 0 <= i < |f.blocks[b].phis| ==>
          !f.blocks[b].phis[i].result.Constant? && !IsFresh(f.blocks[b].phis[i].result, f.temps))
    && (forall b: nat, i: nat, c: nat, j: nat :: IsPhi(f, b, i) && IsPhi(f, c, j) && (b != c || i != j) ==>
          f.blocks[b].phis[i].result != f.blocks[c].phis[j].result)
  }

  predicate IsPhi(f: Func, b: nat, i: nat) {
    b < |f.blocks| && i < |f.blocks[b].phis|
  }

  /** What the passes rely on: targets exist, phis are assigned once and have an argument per predecessor, the entrance
      has none, and a phi's result is only used where the phi's block dominates. */
  ghost predicate StrictSsa(f: Func) {
    && f.blocks != [] && f.blocks[0].phis == []
    && SingleAssignment(f)
    && (forall a, b :: Edge(f, a, b) ==> EdgeArgs(f, a, b))
    && (forall b, i, k :: 0 <= b < |f.blocks| && 0 <= i < |f.blocks[b].phis| && 0 <= k < |f.blocks[b].phis[i].args| ==>
          f.blocks[b].phis[i].args[k].0 < |f.blocks|)
    && (forall b, k :: 0 <= b < |f.blocks| && 0 <= k < |f.blocks[b].body| ==> UsesVisible(f, b, f.blocks[b].body[k]))
    && (forall b :: 0 <= b < |f.blocks| ==> ExitVisible(f, b, f.blocks[b].exit))
  }

  // ----- Facts about running

  /** Two stores agree on everything that can be used in block b. */
  ghost predicate Agree(f: Func, b: nat, s: Store, t: Store) {
    s.world == t.world && forall x :: Visible(f, b, x) ==> s.env(x) == t.env(x)
  }

  lemma EvalAgrees(f: Func, b: nat, s: Store, t: Store, v: Value)
    requires Agree(f, b, s, t) && Usable(f, b, v)
    ensures Eval(s.env, v) == Eval(t.env, v)
  {
  }

  lemma InstAgrees(ops: Ops, f: Func, b: nat, i: Inst, s: Store, t: Store)
    requires Agree(f, b, s, t) && UsesVisible(f, b, i)
    ensures Agree(f, b, ExecInst(ops, i, s), ExecInst(ops, i, t))
  {
    match i {
      case Mov(m) =>
        EvalAgrees(f, b, s, t, m.operand);
      case Compute(x, op, vs) =>
        assert seq(|vs|, k requires 0 <= k < |vs| => Eval(s.env, vs[k]))
            == seq(|vs|, k requires 0 <= k < |vs| => Eval(t.env, vs[k]));
    }
  }

  lemma {:induction false} ExecAgrees(ops: Ops, f: Func, b: nat, body: seq<Inst>, s: Store, t: Store)
    requires Agree(f, b, s, t) && forall k :: 0 <= k < |body| ==> UsesVisible(f, b, body[k])
    ensures Agree(f, b, Exec(ops, body, s), Exec(ops, body, t))
  {
    if body != [] {
      var init := body[..|body| - 1];
      ExecAgrees(ops, f, b, init, s, t);
      InstAgrees(ops, f, b, body[|body| - 1], Exec(ops, init, s), Exec(ops, init, t));
    }
  }

  lemma {:induction false} ExecAppends(ops: Ops, body: seq<Inst>, more: seq<Inst>, s: Store)
    ensures Exec(ops, body + more, s) == Exec(ops, more, Exec(ops, body, s))
  {
    if more == [] {
      assert body + more == body;
    } else {
      assert (body + more)[..|body + more| - 1] == body + more[..|more| - 1];
      ExecAppends(ops, body, more[..|more| - 1], s);
    }
  }

  lemma {:induction false} HaltedStays(ops: Ops, f: Func, r: Running, n: nat, m: nat)
    requires n <= m && Run(ops, f, r, n).Halted?
    ensures Run(ops, f, r, m) == Run(ops, f, r, n)
    decreases m
  {
    if n < m {
      HaltedStays(ops, f, r, n, m - 1);
    }
  }

  // ----- Branches on constants

  /** What constant folding makes of a block's branch on a constant. */
  function FoldExit(f: Func, b: nat): Func
    requires b < |f.blocks| && f.blocks[b].exit.Branch? && f.blocks[b].exit.cond.Constant?
  {
    var e := f.blocks[b].exit;
    f.(blocks := f.blocks[b := f.blocks[b].(exit := Jump(if e.cond.literal == 0 then e.onFalse else e.onTrue))])
  }

  lemma {:induction false} FoldedRun(ops: Ops, f: Func, b: nat, r: Running, n: nat)
    requires b < |f.blocks| && f.blocks[b].exit.Branch? && f.blocks[b].exit.cond.Constant?
    ensures Run(ops, f, r, n) == Run(ops, FoldExit(f, b), r, n)
  {
    if n > 0 {
      FoldedRun(ops, f, b, r, n - 1);
      var now := Run(ops, f, r, n - 1);
      hide Run, Exec, EnterEnv;
      assert Step(ops, f, now) == Step(ops, FoldExit(f, b), now);
    }
  }

  /** Jumping to the target that a constant condition chooses does the same. */
  lemma FoldKeepsMeaning(f: Func, b: nat)
    requires b < |f.blocks| && f.blocks[b].exit.Branch? && f.blocks[b].exit.cond.Constant?
    ensures SameMeaning(f, FoldExit(f, b))
  {
    var g := FoldExit(f, b);
    forall ops, s, value, world
      ensures Returns(ops, f, s, value, world) <==> Returns(ops, g, s, value, world)
    {
      if n :| Run(ops, f, At(0, s), n) == Halted(value, world) {
        FoldedRun(ops, f, b, At(0, s), n);
      }
      if n :| Run(ops, g, At(0, s), n) == Halted(value, world) {
        FoldedRun(ops, f, b, At(0, s), n);
      }
    }
  }
}
