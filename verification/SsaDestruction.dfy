/**
 * Leaving SSA form, in place (src/backend/ir/transform/ssa/destruct.hpp): critical edges are split, copies are put at the
 * end of every block, and the phis are removed.
 */
module SsaDestruction {
  import opened Basics
  import opened PhiCopies
  import opened SsaProgram
  import opened PhiElimination
  import opened CriticalEdges

  /** The copies still to be made and where values are, as the scheduler starts. */
  ghost predicate Collected(all: set<Copy>, where: map<Value, Value>, used: set<Value>) {
    && (forall c :: c in all ==> c.src in where && c.dest in where)
    && (forall x :: x in where ==> where[x] == x)
    && (forall x :: x in used <==> Reads(all, x))
  }

  /** The blocks agree but for copies at the end of their bodies. */
  ghost predicate SameShape(f: Func, blocks: seq<Block>) {
    && |blocks| == |f.blocks|
    && forall b :: 0 <= b < |blocks| ==> blocks[b].phis == f.blocks[b].phis && blocks[b].exit == f.blocks[b].exit
  }

  /** An edge needs a second predecessor, and phis, at its end to be critical. */
  lemma NoneCritical(f: Func, b: nat, preds: set<nat>)
    requires preds == set a | 0 <= a < |f.blocks| && b in Targets(f.blocks[a].exit)
    ensures |preds| <= 1 || PhisOf(f, b) == [] ==> forall a :: !Critical(f, a, b)
    ensures forall a :: Critical(f, a, b) ==> a in preds
  {
    forall a | Critical(f, a, b) ensures |preds| > 1 && a in preds {
      var c :| c != a && Edge(f, c, b);
      SubsetSmaller({a, c}, preds);
    }
  }

  /** And then it is, if its start has several successors. */
  lemma OneCritical(f: Func, a: nat, b: nat, preds: set<nat>)
    requires preds == set a | 0 <= a < |f.blocks| && b in Targets(f.blocks[a].exit)
    requires |preds| > 1 && PhisOf(f, b) != [] && a in preds
    ensures Critical(f, a, b) <==> |Targets(f.blocks[a].exit)| > 1
  {
    assert |preds - {a}| == |preds| - 1;
    var c :| c in preds - {a};
    assert Edge(f, c, b);
    match f.blocks[a].exit {
      case Branch(_, t, u) => assert t != u ==> |{t, u}| == 2;
      case _ =>
    }
  }

  /** From the i-th on, these are edges, and every critical edge is among them. */
  ghost predicate LeftToSplit(f: Func, edges: seq<(nat, nat)>, i: nat) {
    && (forall j :: i <= j < |edges| ==> Edge(f, edges[j].0, edges[j].1))
    && (forall a: nat, b: nat :: Critical(f, a, b) ==> exists j :: i <= j < |edges| && edges[j] == (a, b))
    && (forall j, k :: 0 <= j < k < |edges| ==> edges[j] != edges[k])
  }

  lemma EdgeInside(f: Func, from: nat, to: nat)
    requires StrictSsa(f) && Edge(f, from, to)
    ensures from < |f.blocks| && to < |f.blocks|
  {
    assert EdgeArgs(f, from, to);
  }

  /** Splitting the i-th edge leaves the later ones to split. */
  lemma SplitLeaves(f: Func, edges: seq<(nat, nat)>, i: nat)
    requires StrictSsa(f) && i < |edges| && LeftToSplit(f, edges, i)
    requires edges[i].0 < |f.blocks| && edges[i].1 < |f.blocks|
    ensures LeftToSplit(SplitEdge(f, edges[i].0, edges[i].1), edges, i + 1)
  {
    var (from, to) := edges[i];
    var g := SplitEdge(f, from, to);
    hide StrictSsa, SplitEdge, Critical, Edge;
    forall a: nat, b: nat | Critical(g, a, b) ensures exists j :: i + 1 <= j < |edges| && edges[j] == (a, b) {
      SplitCritical(f, from, to, a, b);
      var j :| i <= j < |edges| && edges[j] == (a, b);
      assert j != i;
    }
    forall j | i + 1 <= j < |edges| ensures Edge(g, edges[j].0, edges[j].1) {
      assert edges[j] != edges[i];
      SplitOthers(f, from, to, edges[j].0, edges[j].1);
    }
  }

  lemma SplitOthers(f: Func, from: nat, to: nat, a: nat, b: nat)
    requires StrictSsa(f) && from < |f.blocks| && to < |f.blocks|
    requires Edge(f, from, to) && Edge(f, a, b) && (a, b) != (from, to)
    ensures Edge(SplitEdge(f, from, to), a, b)
  {
    hide StrictSsa, Edge;
    SplitEdges(f, from, to, a, b);
  }

  lemma SplitProgress(f: Func, edges: seq<(nat, nat)>, i: nat)
    requires StrictSsa(f) && i < |edges| && LeftToSplit(f, edges, i)
    ensures var g := SplitEdge(f, edges[i].0, edges[i].1);
      StrictSsa(g) && SameMeaning(f, g) && LeftToSplit(g, edges, i + 1)
    ensures edges[i].0 < |f.blocks| && edges[i].1 < |f.blocks|
  {
    var (from, to) := edges[i];
    assert Edge(f, from, to);
    EdgeInside(f, from, to);
    hide *;
    SplitKeepsSsa(f, from, to);
    SplitKeepsMeaning(f, from, to);
    SplitLeaves(f, edges, i);
  }

  lemma RenameNext(phis: seq<Phi>, from: nat, mid: nat, i: nat)
    requires i < |phis|
    ensures (RenamePhis(phis[..i], from, mid) + phis[i..])[i := Phi(phis[i].result, RenameArgs(phis[i].args, from, mid))]
         == RenamePhis(phis[..i + 1], from, mid) + phis[i + 1..]
  {
  }

  lemma CollectOne(all: set<Copy>, where: map<PhiCopies.Value, PhiCopies.Value>, used: set<PhiCopies.Value>, c: Copy)
    requires Collected(all, where, used)
    ensures Collected(all + {c}, where[c.src := c.src][c.dest := c.dest], used + {c.src})
  {
    forall x ensures x in used + {c.src} <==> Reads(all + {c}, x) {
      if Reads(all, x) {
        var d :| d in all && d.src == x;
        assert d in all + {c};
      }
    }
  }

  /** Block b has these moves at the end, and nothing else is different. */
  ghost predicate Appended(was: seq<Block>, now: seq<Block>, b: nat, moves: seq<Move>) {
    b < |was| && now == was[b := Block(was[b].phis, was[b].body + Movs(moves), was[b].exit)]
  }

  /** Pass 2: the copies whose results nobody reads come first. */
  method InitialCopies(copySet: set<Copy>, used: set<PhiCopies.Value>) returns (worklist: seq<Copy>)
    ensures NoRepeats(worklist) && forall c :: c in worklist <==> c in copySet && c.dest !in used
  {
    worklist := [];
    var todo := copySet;
    while todo != {}
      invariant todo <= copySet && NoRepeats(worklist)
      invariant forall c :: c in worklist <==> c in copySet - todo && c.dest !in used
    {
      var c :| c in todo;
      if c.dest !in used {
        worklist := worklist + [c];
      }
      todo := todo - {c};
    }
  }

  method Without(copySet: set<Copy>, worklist: seq<Copy>) returns (rest: set<Copy>)
    ensures forall c :: c in rest <==> c in copySet && c !in worklist
  {
    rest := copySet;
    for i := 0 to |worklist|
      invariant forall c :: c in rest <==> c in copySet && c !in worklist[..i]
    {
      rest := rest - {worklist[i]};
    }
  }

  /** The inner loop of pass 3: the copies into `src` need not wait any longer. */
  method ReleaseAll(ghost all: set<Copy>, ghost base: nat, copySet: set<Copy>, worklist: seq<Copy>,
                    ghost where: map<PhiCopies.Value, PhiCopies.Value>, ghost moves: seq<Move>, ghost temps: nat,
                    src: PhiCopies.Value)
    returns (blocked: set<Copy>, ready: seq<Copy>)
    requires Parallel(all, base) && Settling(all, base, State(copySet, worklist, where, moves, temps), src)
    ensures Invariant(all, base, State(blocked, ready, where, moves, temps))
    ensures |blocked| + |ready| == |copySet| + |worklist|
  {
    blocked, ready := copySet, worklist;
    var todo := copySet;
    while todo != {}
      invariant todo <= blocked && |blocked| + |ready| == |copySet| + |worklist|
      invariant Settling(all, base, State(blocked, ready, where, moves, temps), src)
      invariant forall c :: c in blocked && c.dest == src ==> c in todo
    {
      var c :| c in todo;
      if c.dest == src {
        ReleaseSettles(all, base, State(blocked, ready, where, moves, temps), c);
        blocked, ready := blocked - {c}, ready + [c];
      }
      todo := todo - {c};
    }
  }

  class Function {
    var blocks: seq<Block>
    var temps: nat

    ghost function Value(): Func
      reads this
    {
      Func(blocks, temps)
    }

    constructor (f: Func)
      ensures Value() == f
    {
      blocks, temps := f.blocks, f.temps;
    }

    method NewTemp() returns (t: PhiCopies.Value)
      modifies this`temps
      ensures t == Temp(old(temps)) && temps == old(temps) + 1
    {
      t := Temp(temps);
      temps := temps + 1;
    }

    method Append(b: nat, i: Inst)
      requires b < |blocks|
      modifies this`blocks
      ensures blocks == old(blocks)[b := Block(old(blocks)[b].phis, old(blocks)[b].body + [i], old(blocks)[b].exit)]
    {
      blocks := blocks[b := Block(blocks[b].phis, blocks[b].body + [i], blocks[b].exit)];
    }

    // ----- SplitCriticalEdge

    /** The predecessors that the control flow graph lists for b. */
    function Predecessors(b: nat): set<nat>
      reads this
    {
      set a | 0 <= a < |blocks| && b in Targets(blocks[a].exit)
    }

    /** The edges that split() finds critical. */
    method FindCritical() returns (edges: seq<(nat, nat)>)
      ensures forall a: nat, b: nat :: (a, b) in edges <==> Critical(Value(), a, b)
      ensures forall i, j :: 0 <= i < j < |edges| ==> edges[i] != edges[j]
    {
      edges := [];
      for b := 0 to |blocks|
        invariant forall x: nat, y: nat :: (x, y) in edges <==> Critical(Value(), x, y) && y < b
        invariant forall i, j :: 0 <= i < j < |edges| ==> edges[i] != edges[j]
      {
        var preds := Predecessors(b);
        NoneCritical(Value(), b, preds);
        if |preds| > 1 && blocks[b].phis != [] {
          var todo := preds;
          while todo != {}
            invariant todo <= preds
            invariant forall x: nat, y: nat :: (x, y) in edges <==> Critical(Value(), x, y) && (y < b || (y == b && x !in todo))
            invariant forall i, j :: 0 <= i < j < |edges| ==> edges[i] != edges[j]
          {
            var pred :| pred in todo;
            OneCritical(Value(), pred, b, preds);
            if |Targets(blocks[pred].exit)| > 1 {
              edges := edges + [(pred, b)];
            }
            todo := todo - {pred};
          }
        }
      }
      assert forall x: nat, y: nat :: Critical(Value(), x, y) ==> y < |blocks|;
    }

    /** One critical edge is split: a new block, the exit of the start, the phis of the end. */
    method SplitOne(from: nat, to: nat)
      requires from < |blocks| && to < |blocks|
      modifies this`blocks
      ensures Value() == SplitEdge(old(Value()), from, to)
    {
      ghost var f := Value();
      var mid := |blocks|;
      blocks := blocks + [Block([], [], Jump(to))];
      var e := blocks[from].exit;
      blocks := blocks[from := Block(blocks[from].phis, blocks[from].body, Retarget(e, to, mid))];
      var i := 0;
      ghost var was := blocks;
      assert RenamePhis(was[to].phis[..0], from, mid) + was[to].phis[0..] == was[to].phis;
      while i < |blocks[to].phis|
        invariant i <= |was[to].phis|
        invariant blocks == was[to := Block(RenamePhis(was[to].phis[..i], from, mid) + was[to].phis[i..], was[to].body, was[to].exit)]
        decreases |was[to].phis| - i
      {
        var phi := blocks[to].phis[i];
        assert phi == was[to].phis[i];
        var renamed := blocks[to].phis[i := Phi(phi.result, RenameArgs(phi.args, from, mid))];
        RenameNext(was[to].phis, from, mid, i);
        blocks := blocks[to := Block(renamed, blocks[to].body, blocks[to].exit)];
        i := i + 1;
      }
      assert was[to].phis[..i] == was[to].phis && was[to].phis[i..] == [];
      forall c | 0 <= c < |f.blocks| ensures blocks[c] == SplitBlock(f, from, to, c) {
        assert was[c].exit == if c == from then Retarget(f.blocks[c].exit, to, mid) else f.blocks[c].exit;
      }
      assert Value().blocks == SplitEdge(f, from, to).blocks;
    }

    /** split(): no edge is critical afterwards. */
    method SplitCriticalEdges() returns (changed: bool)
      requires StrictSsa(Value())
      modifies this`blocks
      ensures StrictSsa(Value()) && NoCritical(Value()) && SameMeaning(old(Value()), Value())
      ensures !changed <==> NoCritical(old(Value()))
      ensures !changed ==> Value() == old(Value())
    {
      var edges := FindCritical();
      if |edges| == 0 {
        return false;
      }
      assert edges[0] in edges && Critical(Value(), edges[0].0, edges[0].1);
      var i := 0;
      while i < |edges|
        invariant i <= |edges| && StrictSsa(Value()) && SameMeaning(old(Value()), Value())
        invariant LeftToSplit(Value(), edges, i)
      {
        ghost var f := Value();
        var (from, to) := edges[i];
        SplitProgress(f, edges, i);
        SplitOne(from, to);
        i := i + 1;
      }
      return true;
    }

    // ----- ReplacePhi

    /** Pass 1 of schedule_copy(): the copies that the successors' phis ask for. */
    method Collect(b: nat, ghost f: Func) returns (copySet: set<Copy>, where: map<PhiCopies.Value, PhiCopies.Value>, used: set<PhiCopies.Value>)
      requires StrictSsa(f) && SameShape(f, blocks) && b < |blocks|
      ensures copySet == Copies(f, b) && Collected(copySet, where, used)
    {
      copySet, where, used := {}, map[], {};
      var todo := Targets(blocks[b].exit);
      while todo != {}
        invariant todo <= Targets(f.blocks[b].exit)
        invariant copySet <= Copies(f, b) && Collected(copySet, where, used)
        invariant forall t, i :: t in Targets(f.blocks[b].exit) - todo && 0 <= i < |PhisOf(f, t)| ==> CopyFor(f, b, t, i) in copySet
      {
        var succ :| succ in todo;
        assert Edge(f, b, succ) && EdgeArgs(f, b, succ);
        var k := 0;
        while k < |blocks[succ].phis|
          invariant k <= |PhisOf(f, succ)|
          invariant copySet <= Copies(f, b) && Collected(copySet, where, used)
          invariant forall t, i :: t in Targets(f.blocks[b].exit) - todo && 0 <= i < |PhisOf(f, t)| ==> CopyFor(f, b, t, i) in copySet
          invariant forall i :: 0 <= i < k ==> CopyFor(f, b, succ, i) in copySet
        {
          var phi := blocks[succ].phis[k];
          var c := Copy(ArgOf(phi.args, b), phi.result);
          assert c == CopyFor(f, b, succ, k);
          CollectOne(copySet, where, used, c);
          copySet := copySet + {c};
          where := where[c.src := c.src][c.dest := c.dest];
          used := used + {c.src};
          k := k + 1;
        }
        todo := todo - {succ};
      }
    }

    /** schedule_copy(): moves with the effect of the parallel copy, at the end of block b. */
    method ScheduleCopy(b: nat, ghost f: Func) returns (ghost moves: seq<Move>)
      requires StrictSsa(f) && SameShape(f, blocks) && b < |blocks| && f.temps <= temps
      modifies this
      ensures Implements(moves, Copies(f, b), f.temps) && temps >= old(temps)
      ensures Appended(old(blocks), blocks, b, moves)
    {
      var copySet, where, used := Collect(b, f);
      ghost var all := copySet;
      CopiesParallel(f, b);

      var worklist := InitialCopies(copySet, used);
      copySet := Without(copySet, worklist);

      moves := [];
      StartHolds(all, f.temps, State(copySet, worklist, where, moves, temps));
      assert blocks[b].body + Movs([]) == blocks[b].body;
      while worklist != [] || copySet != {}
        invariant temps >= old(temps) && Appended(old(blocks), blocks, b, moves)
        invariant Invariant(all, f.temps, State(copySet, worklist, where, moves, temps))
        decreases |copySet| + |worklist|, |copySet|
      {
        copySet, worklist, where, moves := EmitReady(b, all, f.temps, old(blocks), copySet, worklist, where, moves);
        if copySet != {} {
          copySet, worklist, where, moves := BreakCycle(b, all, f.temps, old(blocks), copySet, where, moves);
        }
      }
      EndImplements(all, f.temps, State(copySet, worklist, where, moves, temps));
    }

    method AppendMove(b: nat, ghost was: seq<Block>, ghost moves: seq<Move>, result: PhiCopies.Value, operand: PhiCopies.Value)
      returns (ghost more: seq<Move>)
      requires Appended(was, blocks, b, moves)
      modifies this`blocks
      ensures more == moves + [Move(result, operand)] && Appended(was, blocks, b, more)
    {
      more := moves + [Move(result, operand)];
      assert was[b].body + Movs(moves) + [Mov(Move(result, operand))] == was[b].body + Movs(more);
      Append(b, Mov(Move(result, operand)));
    }

    /** The first loop of pass 3: copies that are ready are made, and make others ready. */
    method EmitReady(b: nat, ghost all: set<Copy>, ghost base: nat, ghost was: seq<Block>, copySet: set<Copy>,
                     worklist: seq<Copy>, where: map<PhiCopies.Value, PhiCopies.Value>, ghost moves: seq<Move>)
      returns (blocked: set<Copy>, ready: seq<Copy>, now: map<PhiCopies.Value, PhiCopies.Value>, ghost more: seq<Move>)
      requires Parallel(all, base) && Invariant(all, base, State(copySet, worklist, where, moves, temps))
      requires Appended(was, blocks, b, moves)
      modifies this`blocks
      ensures Invariant(all, base, State(blocked, ready, now, more, temps)) && ready == []
      ensures Appended(was, blocks, b, more)
      ensures if worklist == [] then blocked == copySet else |blocked| < |copySet| + |worklist|
    {
      blocked, ready, now, more := copySet, worklist, where, moves;
      while ready != []
        invariant Invariant(all, base, State(blocked, ready, now, more, temps))
        invariant Appended(was, blocks, b, more)
        invariant (blocked == copySet && ready == worklist) || |blocked| + |ready| < |copySet| + |worklist|
        invariant worklist == [] ==> blocked == copySet && ready == worklist
        decreases |blocked| + |ready|
      {
        EmitSettles(all, base, State(blocked, ready, now, more, temps));
        ghost var emitted := Emit(State(blocked, ready, now, more, temps));
        var c := ready[|ready| - 1];
        ready := ready[..|ready| - 1];
        more := AppendMove(b, was, more, c.dest, now[c.src]);
        now := now[c.src := c.dest];
        assert State(blocked, ready, now, more, temps) == emitted;
        blocked, ready := ReleaseAll(all, base, blocked, ready, now, more, temps, c.src);
      }
    }

    /** The rest of pass 3: a cycle is left, and one of its values is saved. */
    method BreakCycle(b: nat, ghost all: set<Copy>, ghost base: nat, ghost was: seq<Block>, copySet: set<Copy>,
                      where: map<PhiCopies.Value, PhiCopies.Value>, ghost moves: seq<Move>)
      returns (blocked: set<Copy>, ready: seq<Copy>, now: map<PhiCopies.Value, PhiCopies.Value>, ghost more: seq<Move>)
      requires Parallel(all, base) && Invariant(all, base, State(copySet, [], where, moves, temps)) && copySet != {}
      requires Appended(was, blocks, b, moves)
      modifies this
      ensures Invariant(all, base, State(blocked, ready, now, more, temps)) && temps == old(temps) + 1
      ensures Appended(was, blocks, b, more) && |ready| == 1 && |blocked| == |copySet| - 1
    {
      var c :| c in copySet;
      BreakKeeps(all, base, State(copySet, [], where, moves, temps), c);
      blocked, ready := copySet - {c}, [c];
      var temp := NewTemp();
      more := AppendMove(b, was, moves, temp, c.dest);
      now := where[c.dest := temp];
      assert State(blocked, ready, now, more, temps) == Break(State(copySet, [], where, moves, old(temps)), c);
    }

    /** remove_phi() on every block. */
    method RemovePhis() returns (changed: bool)
      modifies this`blocks
      ensures |blocks| == |old(blocks)|
      ensures forall b :: 0 <= b < |blocks| ==> blocks[b] == old(blocks)[b].(phis := [])
      ensures changed <==> exists b :: 0 <= b < |old(blocks)| && old(blocks)[b].phis != []
    {
      var b := 0;
      changed := false;
      while b < |blocks|
        invariant b <= |blocks| == |old(blocks)|
        invariant changed <==> exists c :: 0 <= c < b && old(blocks)[c].phis != []
        invariant forall c :: 0 <= c < b ==> blocks[c] == old(blocks)[c].(phis := [])
        invariant forall c :: b <= c < |blocks| ==> blocks[c] == old(blocks)[c]
      {
        changed := changed || blocks[b].phis != [];
        blocks := blocks[b := Block([], blocks[b].body, blocks[b].exit)];
        b := b + 1;
      }
    }

    /** replace_phi(): copies into every block, in any order that visits each once, then no phis. It reports a change
        exactly when there were phis. */
    method ReplacePhi() returns (changed: bool)
      requires StrictSsa(Value()) && NoCritical(Value())
      modifies this
      ensures Destructed(old(Value()), Value()) && SameMeaning(old(Value()), Value())
      ensures changed <==> exists b :: 0 <= b < |old(blocks)| && old(blocks)[b].phis != []
    {
      ghost var f := Value();
      ghost var copies: seq<seq<Move>> := [];
      var b := 0;
      while b < |blocks|
        invariant b <= |blocks| && SameShape(f, blocks) && f.temps <= temps
        invariant |copies| == b && forall c :: 0 <= c < b ==> DestructedBlock(f, c, blocks[c].(phis := []), copies[c])
        invariant forall c :: b <= c < |blocks| ==> blocks[c] == f.blocks[c]
      {
        ghost var moves := ScheduleCopy(b, f);
        copies := copies + [moves];
        b := b + 1;
      }
      ghost var copied := blocks;
      changed := RemovePhis();
      ghost var g := Value();
      forall c | 0 <= c < |blocks| ensures Replaced(f, c, g.blocks[c]) {
        assert DestructedBlock(f, c, copied[c].(phis := []), copies[c]);
        assert DestructedBlock(f, c, g.blocks[c], copies[c]);
      }
      EliminationKeepsMeaning(f, g);
    }

    /** Main result. The function has no phis any more and does what it did. */
    method Destruct()
      requires StrictSsa(Value())
      modifies this
      ensures SameMeaning(old(Value()), Value())
      ensures forall b :: 0 <= b < |blocks| ==> blocks[b].phis == []
    {
      var _ := SplitCriticalEdges();
      ghost var g := Value();
      var _ := ReplacePhi();
      forall b | 0 <= b < |blocks| ensures blocks[b].phis == [] {
        assert Replaced(g, b, blocks[b]);
      }
    }
  }
}
