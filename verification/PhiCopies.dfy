/**
 * The copies that replace phi instructions at the end of a block
 * (src/backend/ir/transform/ssa/destruct.hpp, ReplacePhi::schedule_copy).
 *
 * The phis of a block's successors are parallel: all their arguments are read before any result is written. The
 * scheduler turns such a parallel copy into a sequence of MOVs, ordering them so that no value is overwritten while it
 * is needed, and breaking each cycle with one fresh temporary.
 */
module PhiCopies {
  /** A left value is a named value or a temporary. */
  datatype Value = Constant(literal: int) | Named(name: nat) | Temp(id: nat)

  datatype Copy = Copy(src: Value, dest: Value)

  datatype Move = Move(result: Value, operand: Value)

  // ----- What a sequence of moves does

  /** The initial value that x holds after the moves. */
  function Origin(ms: seq<Move>, x: Value): Value {
    if ms == [] || x.Constant? then x
    else
      var last := ms[|ms| - 1];
      Origin(ms[..|ms| - 1], if x == last.result then last.operand else x)
  }

  lemma OriginOfLast(ms: seq<Move>, m: Move, x: Value)
    requires !x.Constant?
    ensures Origin(ms + [m], x) == Origin(ms, if x == m.result then m.operand else x)
  {
    assert (ms + [m])[..|ms|] == ms;
  }

  /** The parallel copy to be made: results are distinct left values, and no temporary from `base` on is in use. */
  ghost predicate Parallel(all: set<Copy>, base: nat) {
    && (forall c, d :: c in all && d in all && c.dest == d.dest ==> c == d)
    && (forall c :: c in all ==> !c.dest.Constant? && !IsFresh(c.dest, base) && !IsFresh(c.src, base))
  }

  predicate IsFresh(x: Value, base: nat) {
    x.Temp? && x.id >= base
  }

  predicate Writes(all: set<Copy>, x: Value) {
    exists c :: c in all && c.dest == x
  }

  predicate Reads(all: set<Copy>, x: Value) {
    exists c :: c in all && c.src == x
  }

  /** The moves have the effect of the parallel copy, but for temporaries from `base` on. */
  ghost predicate Implements(ms: seq<Move>, all: set<Copy>, base: nat) {
    && (forall c :: c in all ==> Origin(ms, c.dest) == c.src)
    && (forall x :: !Writes(all, x) && !IsFresh(x, base) ==> Origin(ms, x) == x)
  }

  // ----- The scheduler's state

  /** Copies still blocked, copies ready to be made, where each source's value is now, the moves so far, the next temp. */
  datatype State = State(blocked: set<Copy>, ready: seq<Copy>, where: map<Value, Value>, moves: seq<Move>, temps: nat)

  predicate Made(all: set<Copy>, s: State, c: Copy) {
    c in all && c !in s.blocked && c !in s.ready
  }

  /** Where the value of x may be: at home, in the result of a copy made, or in a temporary of the scheduler's. */
  ghost predicate Placed(all: set<Copy>, base: nat, s: State, x: Value, at: Value) {
    at == x || (exists c :: Made(all, s, c) && c.dest == at) || (IsFresh(at, base) && at.id < s.temps)
  }

  ghost predicate Located(all: set<Copy>, base: nat, s: State, x: Value) {
    x in s.where && Origin(s.moves, s.where[x]) == x && Placed(all, base, s, x, s.where[x])
  }

  /** Nothing that is still needed is kept in x. */
  ghost predicate Free(all: set<Copy>, s: State, x: Value) {
    forall y :: Reads(all, y) && y in s.where ==> s.where[y] != x
  }

  /** A blocked copy's result still holds its own value, which is needed. */
  ghost predicate Blocked(all: set<Copy>, s: State, c: Copy) {
    c in all && Reads(all, c.dest) && c.dest in s.where && s.where[c.dest] == c.dest
  }

  ghost predicate Untouched(all: set<Copy>, base: nat, s: State, x: Value) {
    !Writes(all, x) && !IsFresh(x, base) ==> Origin(s.moves, x) == x
  }

  predicate NoRepeats(cs: seq<Copy>) {
    forall i, j :: 0 <= i < j < |cs| ==> cs[i] != cs[j]
  }

  /** What holds throughout; the blocked copies aside. */
  ghost predicate Core(all: set<Copy>, base: nat, s: State) {
    && s.temps >= base && NoRepeats(s.ready) && s.blocked <= all
    && (forall c :: c in s.ready ==> c in all && c !in s.blocked && Free(all, s, c.dest))
    && (forall x :: Reads(all, x) ==> Located(all, base, s, x))
    && (forall c :: Made(all, s, c) ==> Origin(s.moves, c.dest) == c.src)
    && (forall x :: Untouched(all, base, s, x))
  }

  ghost predicate Invariant(all: set<Copy>, base: nat, s: State) {
    Core(all, base, s) && forall c :: c in s.blocked ==> Blocked(all, s, c)
  }

  /** The same just after the value of `moved` went elsewhere: a copy into `moved` need not be blocked any more. */
  ghost predicate Settling(all: set<Copy>, base: nat, s: State, moved: Value) {
    && Core(all, base, s)
    && forall c :: c in s.blocked ==> if c.dest == moved then Free(all, s, moved) else Blocked(all, s, c)
  }

  // ----- Its three steps

  /** The last ready copy is emitted. */
  function Emit(s: State): State
    requires s.ready != [] && s.ready[|s.ready| - 1].src in s.where
  {
    var c := s.ready[|s.ready| - 1];
    State(s.blocked, s.ready[..|s.ready| - 1], s.where[c.src := c.dest], s.moves + [Move(c.dest, s.where[c.src])], s.temps)
  }

  /** A copy into a place that is free now becomes ready. */
  function Release(s: State, c: Copy): State {
    State(s.blocked - {c}, s.ready + [c], s.where, s.moves, s.temps)
  }

  /** With nothing ready, the result of a blocked copy is saved in a temporary. */
  function Break(s: State, c: Copy): State {
    State(s.blocked - {c}, s.ready + [c], s.where[c.dest := Temp(s.temps)], s.moves + [Move(Temp(s.temps), c.dest)],
          s.temps + 1)
  }

  // ----- Emit

  lemma EmitLocates(all: set<Copy>, base: nat, s: State, c: Copy, x: Value)
    requires Parallel(all, base) && Core(all, base, s) && s.ready != [] && c == s.ready[|s.ready| - 1] && Reads(all, x)
    requires c.src in s.where
    ensures Located(all, base, Emit(s), x)
  {
    var t := Emit(s);
    assert c in s.ready && Reads(all, c.src);
    assert Located(all, base, s, x) && Located(all, base, s, c.src);
    EmitMade(all, base, s, c);
    if x == c.src {
      OriginOfLast(s.moves, Move(c.dest, s.where[c.src]), c.dest);
    } else {
      assert Free(all, s, c.dest);
      if s.where[x].Constant? {
        assert Origin(t.moves, s.where[x]) == s.where[x] == Origin(s.moves, s.where[x]);
      } else {
        OriginOfLast(s.moves, Move(c.dest, s.where[c.src]), s.where[x]);
      }
    }
  }

  /** Exactly one more copy is made. */
  lemma EmitMade(all: set<Copy>, base: nat, s: State, c: Copy)
    requires Core(all, base, s) && s.ready != [] && c == s.ready[|s.ready| - 1] && c.src in s.where
    ensures forall d :: Made(all, Emit(s), d) <==> Made(all, s, d) || d == c
    ensures NoRepeats(Emit(s).ready) && (forall d :: d in Emit(s).ready ==> d in s.ready && d != c)
  {
    var t := Emit(s);
    assert s.ready == t.ready + [c];
    assert c in s.ready;
    forall d ensures d in s.ready <==> d in t.ready || d == c {
    }
  }

  lemma EmitOrigin(all: set<Copy>, base: nat, s: State, c: Copy, d: Copy)
    requires Parallel(all, base) && Core(all, base, s) && s.ready != [] && c == s.ready[|s.ready| - 1] && c.src in s.where
    requires Made(all, Emit(s), d)
    ensures Origin(Emit(s).moves, d.dest) == d.src
  {
    EmitMade(all, base, s, c);
    OriginOfLast(s.moves, Move(c.dest, s.where[c.src]), d.dest);
    if d == c {
      assert c in s.ready && Reads(all, c.src) && Located(all, base, s, c.src);
    }
  }

  lemma EmitUntouched(all: set<Copy>, base: nat, s: State, c: Copy, x: Value)
    requires Parallel(all, base) && Core(all, base, s) && s.ready != [] && c == s.ready[|s.ready| - 1] && c.src in s.where
    ensures Untouched(all, base, Emit(s), x)
  {
    if !x.Constant? {
      OriginOfLast(s.moves, Move(c.dest, s.where[c.src]), x);
      assert c in s.ready && Writes(all, c.dest);
      assert Untouched(all, base, s, x);
    }
  }

  lemma EmitFrees(all: set<Copy>, base: nat, s: State, c: Copy, d: Copy)
    requires Parallel(all, base) && Core(all, base, s) && s.ready != [] && c == s.ready[|s.ready| - 1] && c.src in s.where
    requires d in Emit(s).ready
    ensures Free(all, Emit(s), d.dest)
  {
    EmitMade(all, base, s, c);
    assert c in s.ready && Free(all, s, d.dest);
  }

  /** A copy that waited for the emitted one's source to be read is free to go. */
  lemma EmitUnblocks(all: set<Copy>, base: nat, s: State, c: Copy, d: Copy, y: Value)
    requires Parallel(all, base) && Invariant(all, base, s) && s.ready != [] && c == s.ready[|s.ready| - 1]
    requires c.src in s.where && d in s.blocked && d.dest == c.src && Reads(all, y)
    ensures Emit(s).where[y] != c.src
  {
    assert c in s.ready && Blocked(all, s, d);
    assert Located(all, base, s, y);
    if s.where[y] == d.dest {
      assert Placed(all, base, s, y, d.dest);
    }
  }

  lemma EmitSettles(all: set<Copy>, base: nat, s: State)
    requires Parallel(all, base) && Invariant(all, base, s) && s.ready != []
    ensures s.ready[|s.ready| - 1].src in s.where
    ensures Settling(all, base, Emit(s), s.ready[|s.ready| - 1].src)
  {
    var c := s.ready[|s.ready| - 1];
    assert c in s.ready && Reads(all, c.src) && Located(all, base, s, c.src);
    var t := Emit(s);
    EmitMade(all, base, s, c);
    forall x | Reads(all, x) ensures Located(all, base, t, x) {
      EmitLocates(all, base, s, c, x);
    }
    forall d | Made(all, t, d) ensures Origin(t.moves, d.dest) == d.src {
      EmitOrigin(all, base, s, c, d);
    }
    forall x ensures Untouched(all, base, t, x) {
      EmitUntouched(all, base, s, c, x);
    }
    forall d | d in t.ready ensures Free(all, t, d.dest) {
      EmitFrees(all, base, s, c, d);
    }
    forall d | d in t.blocked
      ensures if d.dest == c.src then Free(all, t, c.src) else Blocked(all, t, d)
    {
      assert Blocked(all, s, d);
      if d.dest == c.src {
        forall y | Reads(all, y) && y in t.where ensures t.where[y] != c.src {
          EmitUnblocks(all, base, s, c, d, y);
        }
      }
    }
  }

  // ----- Release

  lemma ReleaseMade(all: set<Copy>, s: State, c: Copy)
    requires c in s.blocked
    ensures forall d :: Made(all, Release(s, c), d) <==> Made(all, s, d)
  {
  }

  lemma ReleaseSettles(all: set<Copy>, base: nat, s: State, c: Copy)
    requires Parallel(all, base) && Settling(all, base, s, c.dest) && c in s.blocked
    ensures Settling(all, base, Release(s, c), c.dest)
  {
    var t := Release(s, c);
    ReleaseMade(all, s, c);
    forall x | Reads(all, x) ensures Located(all, base, t, x) {
      assert Located(all, base, s, x);
    }
    forall x ensures Untouched(all, base, t, x) {
      assert Untouched(all, base, s, x);
    }
    forall d | d in t.ready ensures d in all && d !in t.blocked && Free(all, t, d.dest) {
      assert d in s.ready ==> Free(all, s, d.dest);
    }
    forall d | d in t.blocked ensures if d.dest == c.dest then Free(all, t, c.dest) else Blocked(all, t, d) {
      assert d.dest != c.dest ==> Blocked(all, s, d);
    }
  }

  // ----- Break

  lemma BreakLocates(all: set<Copy>, base: nat, s: State, c: Copy, x: Value)
    requires Parallel(all, base) && Invariant(all, base, s) && s.ready == [] && c in s.blocked && Reads(all, x)
    ensures Located(all, base, Break(s, c), x)
    ensures Break(s, c).where[x] != c.dest
  {
    var t := Break(s, c);
    var m := Move(Temp(s.temps), c.dest);
    assert Located(all, base, s, x) && Blocked(all, s, c);
    assert Located(all, base, s, c.dest);
    assert forall d :: Made(all, t, d) <==> Made(all, s, d);
    if x == c.dest {
      OriginOfLast(s.moves, m, Temp(s.temps));
    } else {
      assert Placed(all, base, s, x, s.where[x]);
      BreakKeepsOrigin(all, base, s, c, s.where[x]);
    }
  }

  lemma BreakKeepsOrigin(all: set<Copy>, base: nat, s: State, c: Copy, at: Value)
    requires at != Temp(s.temps)
    ensures Origin(Break(s, c).moves, at) == Origin(s.moves, at)
  {
    if at.Constant? {
    } else {
      OriginOfLast(s.moves, Move(Temp(s.temps), c.dest), at);
    }
  }

  lemma BreakKeeps(all: set<Copy>, base: nat, s: State, c: Copy)
    requires Parallel(all, base) && Invariant(all, base, s) && s.ready == [] && c in s.blocked
    ensures Invariant(all, base, Break(s, c))
  {
    var t := Break(s, c);
    assert Blocked(all, s, c);
    assert forall d :: Made(all, t, d) <==> Made(all, s, d);
    forall x | Reads(all, x) ensures Located(all, base, t, x) && t.where[x] != c.dest {
      BreakLocates(all, base, s, c, x);
    }
    forall d | Made(all, t, d) ensures Origin(t.moves, d.dest) == d.src {
      BreakKeepsOrigin(all, base, s, c, d.dest);
    }
    forall x ensures Untouched(all, base, t, x) {
      assert Untouched(all, base, s, x);
      if x != Temp(s.temps) {
        BreakKeepsOrigin(all, base, s, c, x);
      }
    }
    forall d | d in t.blocked ensures Blocked(all, t, d) {
      assert Blocked(all, s, d);
    }
  }

  // ----- The whole schedule

  lemma StartHolds(all: set<Copy>, base: nat, s: State)
    requires Parallel(all, base) && s.temps >= base && s.moves == [] && NoRepeats(s.ready)
    requires forall c :: c in all ==> c.src in s.where && c.dest in s.where
    requires forall x :: x in s.where ==> s.where[x] == x
    requires forall c :: c in all ==> (c in s.ready <==> !Reads(all, c.dest))
    requires forall c :: c in s.ready ==> c in all
    requires forall c :: c in s.blocked <==> c in all && c !in s.ready
    ensures Invariant(all, base, s)
  {
    forall x | Reads(all, x) ensures Located(all, base, s, x) {
    }
  }

  lemma EndImplements(all: set<Copy>, base: nat, s: State)
    requires Core(all, base, s) && s.ready == [] && s.blocked == {}
    ensures Implements(s.moves, all, base)
  {
    forall c | c in all ensures Origin(s.moves, c.dest) == c.src {
      assert Made(all, s, c);
    }
    forall x | !Writes(all, x) && !IsFresh(x, base) ensures Origin(s.moves, x) == x {
      assert Untouched(all, base, s, x);
    }
  }
}
