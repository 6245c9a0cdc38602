/**
 The parse tree that Parser builds while rules are entered and left. Nodes live in the tracker's
 list of allocated nodes; a pointer is a position in that list.
 */
module ParseTree {

  datatype Option<+T> = None | Some(value: T)

  datatype Token = Token(isEof: bool, text: string)

  datatype Kind = RuleNode | TerminalNode(token: Token) | ErrorNode(token: Token)

  datatype Node = Node(kind: Kind, parent: Option<nat>, children: seq<nat>, invokingState: int)

  // ---------------------------------------------------------------- trees as values

  datatype Tree = Leaf(id: nat, kind: Kind) | Rule(id: nat, invoking: int, kids: seq<Tree>)

  function Leaves(t: Tree): seq<Token>
    decreases t, 0
  {
    match t
    case Leaf(_, kind) => if kind.RuleNode? then [] else [kind.token]
    case Rule(_, _, kids) => AllLeaves(kids)
  }

  function AllLeaves(ts: seq<Tree>): seq<Token>
    decreases ts, 1
  {
    if ts == [] then [] else AllLeaves(ts[..|ts| - 1]) + Leaves(ts[|ts| - 1])
  }

  ghost function Ids(t: Tree): set<nat>
    decreases t, 0
  {
    {t.id} + if t.Leaf? then {} else AllIds(t.kids)
  }

  ghost function AllIds(ts: seq<Tree>): set<nat>
    decreases ts, 1
  {
    if ts == [] then {} else AllIds(ts[..|ts| - 1]) + Ids(ts[|ts| - 1])
  }

  function RootIds(ts: seq<Tree>): (r: seq<nat>)
    ensures |r| == |ts|
  {
    seq(|ts|, i requires 0 <= i < |ts| => ts[i].id)
  }

  /** The nodes from t.id on spell out t: every child's parent pointer is the node that lists it. */
  ghost predicate Spells(nodes: seq<Node>, t: Tree, parent: Option<nat>)
    decreases t, 0
  {
    && t.id < |nodes| && nodes[t.id].parent == parent
    && match t
       case Leaf(_, kind) => nodes[t.id].kind == kind && !kind.RuleNode? && nodes[t.id].children == []
       case Rule(_, invoking, kids) =>
         && nodes[t.id].kind == RuleNode && nodes[t.id].children == RootIds(kids) && nodes[t.id].invokingState == invoking
         && AllSpell(nodes, kids, Some(t.id))
  }

  ghost predicate AllSpell(nodes: seq<Node>, ts: seq<Tree>, parent: Option<nat>)
    decreases ts, 1
  {
    ts == [] || (AllSpell(nodes, ts[..|ts| - 1], parent) && Spells(nodes, ts[|ts| - 1], parent))
  }

  // ---------------------------------------------------------------- the open rules

  /** A rule that has been entered and not left: its completed children so far. */
  datatype Frame = Frame(id: nat, recursive: bool, precedence: int, invoking: int, kids: seq<Tree>)

  /** The open rules, outermost first; the finished outermost trees; the nodes allocated. */
  datatype Model = Model(frames: seq<Frame>, roots: seq<Tree>, count: nat)

  datatype Event =
    | Enter(state: int)
    | Exit
    | EnterRecursion(state: int, precedence: int)
    | PushRecursion(state: int)
    | Unroll
    | Add(kind: Kind)

  function Top(m: Model): Frame
    requires m.frames != []
  {
    m.frames[|m.frames| - 1]
  }

  /** Well-bracketed use: rules are left the way they were entered. */
  predicate Legal(m: Model, e: Event)
  {
    match e
    case Exit => m.frames != [] && !Top(m).recursive
    case PushRecursion(_) => m.frames != [] && Top(m).recursive
    case Unroll => m.frames != [] && Top(m).recursive
    case Add(kind) => m.frames != [] && !kind.RuleNode?
    case _ => true
  }

  function AddKid(fs: seq<Frame>, t: Tree): seq<Frame>
    requires fs != []
  {
    var f := fs[|fs| - 1];
    fs[..|fs| - 1] + [f.(kids := f.kids + [t])]
  }

  /** Leaving a rule hands its tree to the rule below, or finishes it. */
  function Leave(m: Model): Model
    requires m.frames != []
  {
    var rest := m.frames[..|m.frames| - 1];
    var t := Rule(Top(m).id, Top(m).invoking, Top(m).kids);
    if rest == [] then m.(frames := [], roots := m.roots + [t])
    else m.(frames := AddKid(rest, t))
  }

  function Step(m: Model, e: Event, state: int): Model
    requires Legal(m, e)
  {
    match e
    case Enter(_) => m.(frames := m.frames + [Frame(m.count, false, 0, state, [])], count := m.count + 1)
    case EnterRecursion(_, prec) =>
      m.(frames := m.frames + [Frame(m.count, true, prec, state, [])], count := m.count + 1)
    case PushRecursion(newState) =>
      var f := Top(m);
      var g := Frame(m.count, true, f.precedence, f.invoking, [Rule(f.id, newState, f.kids)]);
      m.(frames := m.frames[..|m.frames| - 1] + [g], count := m.count + 1)
    case Add(kind) => m.(frames := AddKid(m.frames, Leaf(m.count, kind)), count := m.count + 1)
    case _ => Leave(m)
  }

  // ---------------------------------------------------------------- leaves in order

  function FrameLeaves(fs: seq<Frame>): seq<Token>
  {
    if fs == [] then [] else FrameLeaves(fs[..|fs| - 1]) + AllLeaves(fs[|fs| - 1].kids)
  }

  /** All leaves of finished and open trees, read left to right. */
  function Yield(m: Model): seq<Token>
  {
    AllLeaves(m.roots) + FrameLeaves(m.frames)
  }

  function Added(e: Event): seq<Token>
  {
    if e.Add? && !e.kind.RuleNode? then [e.kind.token] else []
  }

  lemma AllLeavesAppend(ts: seq<Tree>, t: Tree)
    ensures AllLeaves(ts + [t]) == AllLeaves(ts) + Leaves(t)
  {
    assert (ts + [t])[..|ts|] == ts;
  }

  lemma FrameLeavesAppend(fs: seq<Frame>, f: Frame)
    ensures FrameLeaves(fs + [f]) == FrameLeaves(fs) + AllLeaves(f.kids)
  {
    assert (fs + [f])[..|fs|] == fs;
  }

  lemma AddKidLeaves(fs: seq<Frame>, t: Tree)
    requires fs != []
    ensures FrameLeaves(AddKid(fs, t)) == FrameLeaves(fs) + Leaves(t)
  {
    var n := |fs| - 1;
    var a, b, c := FrameLeaves(fs[..n]), AllLeaves(fs[n].kids), Leaves(t);
    AllLeavesAppend(fs[n].kids, t);
    FrameLeavesAppend(fs[..n], fs[n].(kids := fs[n].kids + [t]));
    assert a + (b + c) == (a + b) + c;
  }

  lemma EnterYield(m: Model, f: Frame)
    requires f.kids == []
    ensures FrameLeaves(m.frames + [f]) == FrameLeaves(m.frames)
  {
    FrameLeavesAppend(m.frames, f);
    assert FrameLeaves(m.frames) + [] == FrameLeaves(m.frames);
  }

  /** The wrapped context is the first child of the new one. */
  lemma PushYield(m: Model, g: Frame, newState: int)
    requires m.frames != [] && g.kids == [Rule(Top(m).id, newState, Top(m).kids)]
    ensures FrameLeaves(m.frames[..|m.frames| - 1] + [g]) == FrameLeaves(m.frames)
  {
    AllLeavesAppend([], g.kids[0]);
    assert g.kids == [] + [g.kids[0]];
    assert AllLeaves(g.kids) == [] + AllLeaves(Top(m).kids) == AllLeaves(Top(m).kids);
    FrameLeavesAppend(m.frames[..|m.frames| - 1], g);
  }

  /** Every step keeps the leaves in order and adds exactly the token of the event at the end. */
  lemma StepYield(m: Model, e: Event, state: int)
    requires Legal(m, e)
    ensures Yield(Step(m, e, state)) == Yield(m) + Added(e)
  {
    match e
    case Enter(_) =>
      EnterYield(m, Frame(m.count, false, 0, state, []));
    case EnterRecursion(_, prec) =>
      EnterYield(m, Frame(m.count, true, prec, state, []));
    case PushRecursion(newState) =>
      var f := Top(m);
      PushYield(m, Frame(m.count, true, f.precedence, f.invoking, [Rule(f.id, newState, f.kids)]), newState);
    case Add(kind) =>
      AddKidLeaves(m.frames, Leaf(m.count, kind));
      assert AllLeaves(m.roots) + (FrameLeaves(m.frames) + [kind.token]) == Yield(m) + [kind.token];
    case _ =>
      LeaveYield(m);
  }

  lemma LeaveYield(m: Model)
    requires m.frames != []
    ensures Yield(Leave(m)) == Yield(m)
  {
    var rest := m.frames[..|m.frames| - 1];
    var t := Rule(Top(m).id, Top(m).invoking, Top(m).kids);
    if rest == [] {
      AllLeavesAppend(m.roots, t);
    } else {
      AddKidLeaves(rest, t);
    }
  }

  // ---------------------------------------------------------------- the shape of the trees

  /** A tree without the places of its nodes. */
  datatype Shape = Token(kind: Kind) | Context(invoking: int, kids: seq<Shape>)

  function ShapeOf(t: Tree): Shape
  {
    match t
    case Leaf(_, kind) => Shape.Token(kind)
    case Rule(_, invoking, kids) => Context(invoking, seq(|kids|, i requires 0 <= i < |kids| => ShapeOf(kids[i])))
  }

  function Shapes(ts: seq<Tree>): (r: seq<Shape>)
    ensures |r| == |ts|
  {
    seq(|ts|, i requires 0 <= i < |ts| => ShapeOf(ts[i]))
  }

  /** A forest written down from left to right, each context behind its children, with their number. */
  datatype Item = Shown(kind: Kind) | Closed(invoking: int, count: nat)

  function Polish(t: Tree): seq<Item>
    decreases t, 0
  {
    match t
    case Leaf(_, kind) => [Shown(kind)]
    case Rule(_, invoking, kids) => AllPolish(kids) + [Closed(invoking, |kids|)]
  }

  function AllPolish(ts: seq<Tree>): seq<Item>
    decreases ts, 1
  {
    if ts == [] then [] else AllPolish(ts[..|ts| - 1]) + Polish(ts[|ts| - 1])
  }

  /** Reading it back: the shapes read so far, and the next item. */
  function Read(stack: seq<Shape>, i: Item): seq<Shape>
  {
    match i
    case Shown(kind) => stack + [Shape.Token(kind)]
    case Closed(invoking, count) =>
      if count <= |stack| then stack[..|stack| - count] + [Context(invoking, stack[|stack| - count..])] else []
  }

  function ReadAll(stack: seq<Shape>, items: seq<Item>): seq<Shape>
  {
    if items == [] then stack else Read(ReadAll(stack, items[..|items| - 1]), items[|items| - 1])
  }

  lemma {:induction false} ReadAppend(stack: seq<Shape>, a: seq<Item>, b: seq<Item>)
    ensures ReadAll(stack, a + b) == ReadAll(ReadAll(stack, a), b)
  {
    if b == [] {
      assert a + b == a;
    } else {
      assert (a + b)[..|a + b| - 1] == a + b[..|b| - 1];
      ReadAppend(stack, a, b[..|b| - 1]);
    }
  }

  /** What is written down determines the shapes. */
  lemma {:induction false} PolishReads(stack: seq<Shape>, t: Tree)
    ensures ReadAll(stack, Polish(t)) == stack + [ShapeOf(t)]
    decreases t, 0
  {
    assert ReadAll(stack, []) == stack;
    match t {
      case Leaf(_, kind) =>
        assert Polish(t)[..0] == [];
      case Rule(_, invoking, kids) =>
        var items, last := AllPolish(kids), Closed(invoking, |kids|);
        AllPolishReads(stack, kids);
        assert (items + [last])[..|items|] == items;
        var s := stack + Shapes(kids);
        assert s[..|s| - |kids|] == stack && s[|s| - |kids|..] == Shapes(kids);
    }
  }

  lemma {:induction false} AllPolishReads(stack: seq<Shape>, ts: seq<Tree>)
    ensures ReadAll(stack, AllPolish(ts)) == stack + Shapes(ts)
    decreases ts, 1
  {
    if ts == [] {
      assert Shapes(ts) == [];
    } else {
      var init, t := ts[..|ts| - 1], ts[|ts| - 1];
      AllPolishReads(stack, init);
      ReadAppend(stack, AllPolish(init), Polish(t));
      PolishReads(stack + Shapes(init), t);
      assert Shapes(ts) == Shapes(init) + [ShapeOf(t)];
      assert (stack + Shapes(init)) + [ShapeOf(t)] == stack + (Shapes(init) + [ShapeOf(t)]);
    }
  }

  function FramePolish(fs: seq<Frame>): seq<Item>
  {
    if fs == [] then [] else FramePolish(fs[..|fs| - 1]) + AllPolish(fs[|fs| - 1].kids)
  }

  /** What is complete of finished and open trees. */
  function Progress(m: Model): seq<Item>
  {
    AllPolish(m.roots) + FramePolish(m.frames)
  }

  /** What an event completes. */
  function Completed(m: Model, e: Event): seq<Item>
    requires Legal(m, e)
  {
    match e
    case Enter(_) => []
    case EnterRecursion(_, _) => []
    case PushRecursion(newState) => [Closed(newState, |Top(m).kids|)]
    case Add(kind) => [Shown(kind)]
    case _ => [Closed(Top(m).invoking, |Top(m).kids|)]
  }

  lemma AllPolishAppend(ts: seq<Tree>, t: Tree)
    ensures AllPolish(ts + [t]) == AllPolish(ts) + Polish(t)
  {
    assert (ts + [t])[..|ts|] == ts;
  }

  lemma FramePolishAppend(fs: seq<Frame>, f: Frame)
    ensures FramePolish(fs + [f]) == FramePolish(fs) + AllPolish(f.kids)
  {
    assert (fs + [f])[..|fs|] == fs;
  }

  lemma AddKidPolish(fs: seq<Frame>, t: Tree)
    requires fs != []
    ensures FramePolish(AddKid(fs, t)) == FramePolish(fs) + Polish(t)
  {
    var n := |fs| - 1;
    var a, b, c := FramePolish(fs[..n]), AllPolish(fs[n].kids), Polish(t);
    AllPolishAppend(fs[n].kids, t);
    FramePolishAppend(fs[..n], fs[n].(kids := fs[n].kids + [t]));
    assert a + (b + c) == (a + b) + c;
  }

  lemma EnterPolish(m: Model, f: Frame)
    requires f.kids == []
    ensures FramePolish(m.frames + [f]) == FramePolish(m.frames)
  {
    FramePolishAppend(m.frames, f);
    assert FramePolish(m.frames) + [] == FramePolish(m.frames);
  }

  lemma PushPolish(m: Model, g: Frame, newState: int)
    requires m.frames != [] && g.kids == [Rule(Top(m).id, newState, Top(m).kids)]
    ensures FramePolish(m.frames[..|m.frames| - 1] + [g]) == FramePolish(m.frames) + [Closed(newState, |Top(m).kids|)]
  {
    AllPolishAppend([], g.kids[0]);
    assert g.kids == [] + [g.kids[0]];
    var a, b, c := FramePolish(m.frames[..|m.frames| - 1]), AllPolish(Top(m).kids), [Closed(newState, |Top(m).kids|)];
    assert AllPolish(g.kids) == [] + (b + c) == b + c;
    FramePolishAppend(m.frames[..|m.frames| - 1], g);
    assert a + (b + c) == (a + b) + c;
  }

  lemma RulePolish(f: Frame)
    ensures Polish(Rule(f.id, f.invoking, f.kids)) == AllPolish(f.kids) + [Closed(f.invoking, |f.kids|)]
  {
  }

  lemma FinishPolish(m: Model)
    requires |m.frames| == 1
    ensures Progress(Leave(m)) == Progress(m) + [Closed(Top(m).invoking, |Top(m).kids|)]
  {
    hide Polish, AllPolish;
    var a, c, d := AllPolish(m.roots), AllPolish(Top(m).kids), [Closed(Top(m).invoking, |Top(m).kids|)];
    RulePolish(Top(m));
    AllPolishAppend(m.roots, Rule(Top(m).id, Top(m).invoking, Top(m).kids));
    assert (a + (c + d)) + [] == (a + ([] + c)) + d;
  }

  lemma ClosePolish(m: Model)
    requires |m.frames| > 1
    ensures Progress(Leave(m)) == Progress(m) + [Closed(Top(m).invoking, |Top(m).kids|)]
  {
    hide Polish, AllPolish, FramePolish, AddKid;
    var rest := m.frames[..|m.frames| - 1];
    var a, b, c, d := AllPolish(m.roots), FramePolish(rest), AllPolish(Top(m).kids), [Closed(Top(m).invoking, |Top(m).kids|)];
    RulePolish(Top(m));
    assert rest + [Top(m)] == m.frames;
    FramePolishAppend(rest, Top(m));
    AddKidPolish(rest, Rule(Top(m).id, Top(m).invoking, Top(m).kids));
    assert a + (b + (c + d)) == (a + (b + c)) + d;
  }

  /** Every step writes down what it completes, contexts with their states, behind what was complete. */
  lemma StepPolish(m: Model, e: Event, state: int)
    requires Legal(m, e)
    ensures Progress(Step(m, e, state)) == Progress(m) + Completed(m, e)
  {
    match e
    case Enter(_) =>
      EnterPolish(m, Frame(m.count, false, 0, state, []));
    case EnterRecursion(_, prec) =>
      EnterPolish(m, Frame(m.count, true, prec, state, []));
    case PushRecursion(newState) =>
      var f := Top(m);
      PushPolish(m, Frame(m.count, true, f.precedence, f.invoking, [Rule(f.id, newState, f.kids)]), newState);
      assert AllPolish(m.roots) + (FramePolish(m.frames) + Completed(m, e)) == Progress(m) + Completed(m, e);
    case Add(kind) =>
      AddKidPolish(m.frames, Leaf(m.count, kind));
      assert AllPolish(m.roots) + (FramePolish(m.frames) + [Shown(kind)]) == Progress(m) + [Shown(kind)];
    case _ =>
      if |m.frames| == 1 {
        FinishPolish(m);
      } else {
        ClosePolish(m);
      }
  }

  // ---------------------------------------------------------------- nodes against the model

  ghost predicate FrameSpelled(nodes: seq<Node>, fs: seq<Frame>, i: nat)
    requires i < |fs|
  {
    var f := fs[i];
    && f.id < |nodes| && nodes[f.id].kind == RuleNode && nodes[f.id].invokingState == f.invoking
    && nodes[f.id].parent == (if i == 0 then None else Some(fs[i - 1].id))
    && nodes[f.id].children ==
         RootIds(f.kids) + (if i + 1 < |fs| && !fs[i + 1].recursive then [fs[i + 1].id] else [])
    && AllSpell(nodes, f.kids, Some(f.id))
  }

  /** The node of open rule i is neither in a completed subtree of rule j nor the node of rule j. */
  ghost predicate Apart(fs: seq<Frame>, i: nat, j: nat)
    requires i < |fs| && j < |fs|
  {
    fs[i].id !in AllIds(fs[j].kids) && (i != j ==> fs[i].id != fs[j].id)
  }

  ghost predicate Unfinished(fs: seq<Frame>, roots: seq<Tree>, i: nat)
    requires i < |fs|
  {
    fs[i].id !in AllIds(roots)
  }

  ghost predicate Represents(nodes: seq<Node>, m: Model)
  {
    && m.count == |nodes|
    && (forall i {:trigger FrameSpelled(nodes, m.frames, i)} :: 0 <= i < |m.frames| ==> FrameSpelled(nodes, m.frames, i))
    && (forall i, j {:trigger Apart(m.frames, i, j)} :: 0 <= i < |m.frames| && 0 <= j < |m.frames| ==> Apart(m.frames, i, j))
    && (forall i {:trigger Unfinished(m.frames, m.roots, i)} :: 0 <= i < |m.frames| ==> Unfinished(m.frames, m.roots, i))
    && AllSpell(nodes, m.roots, None)
  }

  /** Spelled trees only depend on their own nodes. */
  lemma {:induction false} SpellsFrame(nodes: seq<Node>, nodes': seq<Node>, t: Tree, parent: Option<nat>)
    requires Spells(nodes, t, parent)
    requires forall id :: id in Ids(t) && id < |nodes| ==> id < |nodes'| && nodes'[id] == nodes[id]
    ensures Spells(nodes', t, parent)
    decreases t, 0
  {
    if t.Rule? {
      AllSpellFrame(nodes, nodes', t.kids, Some(t.id));
    }
  }

  lemma {:induction false} AllSpellFrame(nodes: seq<Node>, nodes': seq<Node>, ts: seq<Tree>, parent: Option<nat>)
    requires AllSpell(nodes, ts, parent)
    requires forall id :: id in AllIds(ts) && id < |nodes| ==> id < |nodes'| && nodes'[id] == nodes[id]
    ensures AllSpell(nodes', ts, parent)
    decreases ts, 1
  {
    if ts != [] {
      AllSpellFrame(nodes, nodes', ts[..|ts| - 1], parent);
      SpellsFrame(nodes, nodes', ts[|ts| - 1], parent);
    }
  }

  lemma {:induction false} SpelledIds(nodes: seq<Node>, t: Tree, parent: Option<nat>)
    requires Spells(nodes, t, parent)
    ensures forall id :: id in Ids(t) ==> id < |nodes|
    decreases t, 0
  {
    if t.Rule? {
      AllSpelledIds(nodes, t.kids, Some(t.id));
    }
  }

  lemma {:induction false} AllSpelledIds(nodes: seq<Node>, ts: seq<Tree>, parent: Option<nat>)
    requires AllSpell(nodes, ts, parent)
    ensures forall id :: id in AllIds(ts) ==> id < |nodes|
    decreases ts, 1
  {
    if ts != [] {
      AllSpelledIds(nodes, ts[..|ts| - 1], parent);
      SpelledIds(nodes, ts[|ts| - 1], parent);
    }
  }

  lemma AllSpellAppend(nodes: seq<Node>, ts: seq<Tree>, t: Tree, parent: Option<nat>)
    ensures AllSpell(nodes, ts + [t], parent) <==> AllSpell(nodes, ts, parent) && Spells(nodes, t, parent)
    ensures AllIds(ts + [t]) == AllIds(ts) + Ids(t)
    ensures RootIds(ts + [t]) == RootIds(ts) + [t.id]
  {
    assert (ts + [t])[..|ts|] == ts;
  }

  /** Changing only the node of open rule k, and allocating, keeps what is completed. */
  lemma KeepKids(nodes: seq<Node>, nodes': seq<Node>, m: Model, k: nat, i: nat)
    requires Represents(nodes, m) && |nodes| <= |nodes'| && i < |m.frames| && k < |m.frames|
    requires forall id :: 0 <= id < |nodes| && id != m.frames[k].id ==> nodes'[id] == nodes[id]
    ensures AllSpell(nodes', m.frames[i].kids, Some(m.frames[i].id))
    ensures forall id :: id in AllIds(m.frames[i].kids) ==> id < |nodes|
  {
    assert FrameSpelled(nodes, m.frames, i) && Apart(m.frames, k, i);
    AllSpelledIds(nodes, m.frames[i].kids, Some(m.frames[i].id));
    AllSpellFrame(nodes, nodes', m.frames[i].kids, Some(m.frames[i].id));
  }

  lemma KeepRoots(nodes: seq<Node>, nodes': seq<Node>, m: Model, changed: Option<nat>)
    requires Represents(nodes, m) && |nodes| <= |nodes'|
    requires changed.Some? ==> changed.value < |m.frames|
    requires forall id :: 0 <= id < |nodes| && (changed.Some? ==> id != m.frames[changed.value].id) ==> nodes'[id] == nodes[id]
    ensures AllSpell(nodes', m.roots, None)
    ensures forall id :: id in AllIds(m.roots) ==> id < |nodes|
  {
    if changed.Some? { assert Unfinished(m.frames, m.roots, changed.value); }
    AllSpelledIds(nodes, m.roots, None);
    AllSpellFrame(nodes, nodes', m.roots, None);
  }

  function AppendChild(nodes: seq<Node>, parent: nat, id: nat): (r: seq<Node>)
    requires parent < |nodes|
    ensures |r| == |nodes|
  {
    nodes[parent := nodes[parent].(children := nodes[parent].children + [id])]
  }

  function TopId(m: Model): Option<nat>
  {
    if m.frames == [] then None else Some(Top(m).id)
  }

  /** The nodes after allocating n and, if asked, listing it as the last child of parent. */
  function Allocate(nodes: seq<Node>, n: Node, parent: Option<nat>): (r: seq<Node>)
    requires parent.Some? ==> parent.value < |nodes|
    ensures |r| == |nodes| + 1
  {
    if parent.None? then nodes + [n] else AppendChild(nodes + [n], parent.value, |nodes|)
  }

  lemma FrameIds(nodes: seq<Node>, m: Model, i: nat)
    requires Represents(nodes, m) && i < |m.frames|
    ensures m.frames[i].id < |nodes|
  {
    assert FrameSpelled(nodes, m.frames, i);
  }

  /** Open rule i looks the same in two stacks that agree around it. */
  lemma SameFrame(nodes: seq<Node>, nodes': seq<Node>, fs: seq<Frame>, fs': seq<Frame>, i: nat)
    requires i < |fs| && i < |fs'| && FrameSpelled(nodes, fs, i) && fs[i] == fs'[i]
    requires i > 0 ==> fs[i - 1].id == fs'[i - 1].id
    requires (i + 1 < |fs| && !fs[i + 1].recursive) <==> (i + 1 < |fs'| && !fs'[i + 1].recursive)
    requires i + 1 < |fs| && i + 1 < |fs'| && !fs[i + 1].recursive ==> fs[i + 1].id == fs'[i + 1].id
    requires fs[i].id < |nodes'| && nodes'[fs[i].id] == nodes[fs[i].id]
    requires AllSpell(nodes', fs[i].kids, Some(fs[i].id))
    ensures FrameSpelled(nodes', fs', i)
  {
  }

  /** The innermost open rule after its node has listed one more child. */
  lemma ListedFrame(nodes: seq<Node>, nodes': seq<Node>, fs: seq<Frame>, i: nat, id: nat)
    requires fs != [] && i == |fs| - 1 && FrameSpelled(nodes, fs, i) && fs[i].id < |nodes'|
    requires nodes'[fs[i].id] == nodes[fs[i].id].(children := nodes[fs[i].id].children + [id])
    ensures nodes'[fs[i].id].children == RootIds(fs[i].kids) + [id]
    ensures nodes'[fs[i].id].kind == RuleNode && nodes'[fs[i].id].invokingState == fs[i].invoking
    ensures nodes'[fs[i].id].parent == (if i == 0 then None else Some(fs[i - 1].id))
  {
    assert RootIds(fs[i].kids) + [] == RootIds(fs[i].kids);
  }

  /** Opening a rule, seen from open rule i. */
  lemma OpenFrame(nodes: seq<Node>, m: Model, n: Node, f: Frame, nodes': seq<Node>, i: nat)
    requires Represents(nodes, m) && i < |m.frames| && f.id == |nodes|
    requires Top(m).id < |nodes|
    requires nodes' == Allocate(nodes, n, if f.recursive then None else TopId(m))
    ensures FrameSpelled(nodes', m.frames + [f], i)
  {
    var last := |m.frames| - 1;
    assert FrameSpelled(nodes, m.frames, i);
    KeepKids(nodes, nodes', m, last, i);
    if i < last {
      assert Apart(m.frames, i, last);
      SameFrame(nodes, nodes', m.frames, m.frames + [f], i);
    } else if f.recursive {
      SameFrame(nodes, nodes', m.frames, m.frames + [f], i);
    } else {
      ListedFrame(nodes, nodes', m.frames, i, |nodes|);
    }
  }

  /** Opening a rule: its node is new, and an ordinary rule is listed by its parent at once. */
  lemma OpenKeeps(nodes: seq<Node>, m: Model, n: Node, f: Frame)
    requires Represents(nodes, m) && f == Frame(m.count, f.recursive, f.precedence, n.invokingState, [])
    requires n == Node(RuleNode, TopId(m), [], n.invokingState)
    ensures m.frames != [] ==> Top(m).id < |nodes|
    ensures Represents(Allocate(nodes, n, if f.recursive then None else TopId(m)),
                       m.(frames := m.frames + [f], count := m.count + 1))
  {
    var last := |m.frames| - 1;
    if m.frames != [] { FrameIds(nodes, m, last); }
    var nodes' := Allocate(nodes, n, if f.recursive then None else TopId(m));
    var fs := m.frames + [f];
    KeepRoots(nodes, nodes', m, if m.frames == [] then None else Some(last));
    forall i | 0 <= i < |fs|
      ensures FrameSpelled(nodes', fs, i)
    {
      if i <= last {
        OpenFrame(nodes, m, n, f, nodes', i);
      }
    }
    forall i, j | 0 <= i < |fs| && 0 <= j < |fs|
      ensures Apart(fs, i, j)
    {
      OpenApart(nodes, m, f, nodes', i, j);
    }
    forall i | 0 <= i < |fs|
      ensures Unfinished(fs, m.roots, i)
    {
      if i <= last { assert Unfinished(m.frames, m.roots, i); }
    }
  }

  lemma OpenApart(nodes: seq<Node>, m: Model, f: Frame, nodes': seq<Node>, i: nat, j: nat)
    requires Represents(nodes, m) && f.id == |nodes| && f.kids == [] && i <= |m.frames| && j <= |m.frames|
    ensures Apart(m.frames + [f], i, j)
  {
    if i < |m.frames| { FrameIds(nodes, m, i); }
    if j < |m.frames| { FrameIds(nodes, m, j); KeepKids(nodes, nodes, m, 0, j); }
    if i < |m.frames| && j < |m.frames| { assert Apart(m.frames, i, j); }
  }

  /** Adding a completed subtree to the innermost open rule, seen from open rule i. */
  lemma AddKidFrame(nodes: seq<Node>, m: Model, t: Tree, nodes': seq<Node>, i: nat)
    requires Represents(nodes, m) && i < |m.frames| && |nodes| <= |nodes'|
    requires forall id :: 0 <= id < |nodes| && id != Top(m).id ==> nodes'[id] == nodes[id]
    requires Top(m).id < |nodes| &&
      nodes'[Top(m).id] == nodes[Top(m).id].(children := nodes[Top(m).id].children + [t.id])
    requires Spells(nodes', t, Some(Top(m).id))
    ensures FrameSpelled(nodes', AddKid(m.frames, t), i)
  {
    var last := |m.frames| - 1;
    KeepKids(nodes, nodes', m, last, i);
    assert FrameSpelled(nodes, m.frames, i);
    assert Apart(m.frames, i, last);
    hide *;
    if i < last {
      AddKidBelow(nodes, m.frames, t, nodes', i);
    } else {
      AddKidTop(nodes, m.frames, t, nodes');
    }
  }

  lemma AddKidBelow(nodes: seq<Node>, fs: seq<Frame>, t: Tree, nodes': seq<Node>, i: nat)
    requires i < |fs| - 1 && FrameSpelled(nodes, fs, i) && Apart(fs, i, |fs| - 1) && |nodes| <= |nodes'|
    requires forall id :: 0 <= id < |nodes| && id != fs[|fs| - 1].id ==> nodes'[id] == nodes[id]
    requires AllSpell(nodes', fs[i].kids, Some(fs[i].id))
    ensures FrameSpelled(nodes', AddKid(fs, t), i)
  {
    hide AllSpell, AllIds, RootIds;
    SameFrame(nodes, nodes', fs, AddKid(fs, t), i);
  }

  /** The same, seen from the innermost open rule. */
  lemma AddKidTop(nodes: seq<Node>, fs: seq<Frame>, t: Tree, nodes': seq<Node>)
    requires fs != [] && FrameSpelled(nodes, fs, |fs| - 1) && |nodes| <= |nodes'|
    requires var f := fs[|fs| - 1];
      && nodes'[f.id] == nodes[f.id].(children := nodes[f.id].children + [t.id])
      && AllSpell(nodes', f.kids, Some(f.id)) && Spells(nodes', t, Some(f.id))
    ensures FrameSpelled(nodes', AddKid(fs, t), |fs| - 1)
  {
    hide AllSpell, AllIds, RootIds, Spells;
    var f := fs[|fs| - 1];
    ListedFrame(nodes, nodes', fs, |fs| - 1, t.id);
    AllSpellAppend(nodes', f.kids, t, Some(f.id));
    assert RootIds(f.kids + [t]) + [] == RootIds(f.kids + [t]);
  }

  lemma AddKidApart(m: Model, t: Tree, i: nat, j: nat)
    requires i < |m.frames| && j < |m.frames| && Apart(m.frames, i, j) && m.frames[i].id !in Ids(t)
    ensures Apart(AddKid(m.frames, t), i, j)
  {
    assert (Top(m).kids + [t])[..|Top(m).kids|] == Top(m).kids;
  }

  /** Adding a completed subtree to the innermost open rule. */
  lemma AddKidKeeps(nodes: seq<Node>, m: Model, t: Tree, nodes': seq<Node>)
    requires Represents(nodes, m) && m.frames != [] && |nodes| <= |nodes'|
    requires forall id :: 0 <= id < |nodes| && id != Top(m).id ==> nodes'[id] == nodes[id]
    requires Top(m).id < |nodes| &&
      nodes'[Top(m).id] == nodes[Top(m).id].(children := nodes[Top(m).id].children + [t.id])
    requires Spells(nodes', t, Some(Top(m).id))
    requires forall i :: 0 <= i < |m.frames| ==> m.frames[i].id !in Ids(t)
    ensures Represents(nodes', m.(frames := AddKid(m.frames, t), count := |nodes'|))
  {
    var fs := AddKid(m.frames, t);
    KeepRoots(nodes, nodes', m, Some(|m.frames| - 1));
    forall i | 0 <= i < |fs|
      ensures FrameSpelled(nodes', fs, i)
    {
      AddKidFrame(nodes, m, t, nodes', i);
    }
    forall i, j | 0 <= i < |fs| && 0 <= j < |fs|
      ensures Apart(fs, i, j)
    {
      assert Apart(m.frames, i, j);
      AddKidApart(m, t, i, j);
    }
    forall i | 0 <= i < |fs|
      ensures Unfinished(fs, m.roots, i)
    {
      assert Unfinished(m.frames, m.roots, i);
    }
  }

  /** The innermost open rule is already a spelled tree of its own. */
  lemma TopSpelled(nodes: seq<Node>, m: Model)
    requires Represents(nodes, m) && m.frames != []
    ensures var below := if |m.frames| == 1 then None else Some(m.frames[|m.frames| - 2].id);
      Spells(nodes, Rule(Top(m).id, Top(m).invoking, Top(m).kids), below)
  {
    assert FrameSpelled(nodes, m.frames, |m.frames| - 1);
    assert RootIds(Top(m).kids) + [] == RootIds(Top(m).kids);
  }

  lemma TopIdsApart(nodes: seq<Node>, m: Model, i: nat)
    requires Represents(nodes, m) && i < |m.frames| - 1
    ensures m.frames[i].id !in Ids(Rule(Top(m).id, Top(m).invoking, Top(m).kids))
  {
    assert Apart(m.frames, i, |m.frames| - 1);
  }

  /** Closing the outermost rule finishes its tree. */
  lemma FinishKeeps(nodes: seq<Node>, m: Model)
    requires Represents(nodes, m) && |m.frames| == 1
    ensures Represents(nodes, Leave(m))
  {
    TopSpelled(nodes, m);
    AllSpellAppend(nodes, m.roots, Rule(Top(m).id, Top(m).invoking, Top(m).kids), None);
  }

  /** Closing an inner rule; a left-recursive one is listed by its parent only now. */
  lemma CloseKeeps(nodes: seq<Node>, m: Model)
    requires Represents(nodes, m) && |m.frames| > 1
    ensures m.frames[|m.frames| - 2].id < |nodes|
    ensures Represents(if Top(m).recursive then AppendChild(nodes, m.frames[|m.frames| - 2].id, Top(m).id) else nodes,
                       Leave(m))
  {
    var last := |m.frames| - 1;
    var below := m.frames[last - 1];
    var t := Rule(Top(m).id, Top(m).invoking, Top(m).kids);
    assert FrameSpelled(nodes, m.frames, last - 1) && Apart(m.frames, last - 1, last);
    var nodes' := if Top(m).recursive then AppendChild(nodes, below.id, Top(m).id) else nodes;
    // Seen from the rule below, the rule being closed was an unlisted or a last child.
    var shorter := nodes[below.id := nodes[below.id].(children := RootIds(below.kids))];
    KeepBelow(nodes, shorter, m);
    TopSpelled(nodes, m);
    SpellsFrame(nodes, nodes', t, Some(below.id)) by {
      TopIdsApart(nodes, m, last - 1);
    }
    forall i | 0 <= i < last
      ensures m.frames[..last][i].id !in Ids(t)
    {
      TopIdsApart(nodes, m, i);
    }
    assert RootIds(below.kids) + [] == RootIds(below.kids);
    AddKidKeeps(shorter, m.(frames := m.frames[..last]), t, nodes');
  }

  /** Without its last open rule, and without listing it, the rest is represented. */
  lemma KeepBelow(nodes: seq<Node>, shorter: seq<Node>, m: Model)
    requires Represents(nodes, m) && |m.frames| > 1 && m.frames[|m.frames| - 2].id < |nodes|
    requires var b := m.frames[|m.frames| - 2];
      shorter == nodes[b.id := nodes[b.id].(children := RootIds(b.kids))]
    ensures Represents(shorter, m.(frames := m.frames[..|m.frames| - 1]))
  {
    var last := |m.frames| - 1;
    var b := m.frames[last - 1];
    var m0 := m.(frames := m.frames[..last]);
    KeepRoots(nodes, shorter, m, Some(last - 1));
    forall i | 0 <= i < last
      ensures FrameSpelled(shorter, m0.frames, i)
    {
      assert FrameSpelled(nodes, m.frames, i);
      KeepKids(nodes, shorter, m, last - 1, i);
      if i < last - 1 {
        assert Apart(m.frames, i, last - 1);
      } else {
        assert RootIds(b.kids) + [] == RootIds(b.kids);
      }
    }
    forall i, j | 0 <= i < last && 0 <= j < last
      ensures Apart(m0.frames, i, j)
    {
      assert Apart(m.frames, i, j);
    }
    forall i | 0 <= i < last
      ensures Unfinished(m0.frames, m0.roots, i)
    {
      assert Unfinished(m.frames, m.roots, i);
    }
  }

  function Below(m: Model): Option<nat>
    requires m.frames != []
  {
    if |m.frames| == 1 then None else Some(m.frames[|m.frames| - 2].id)
  }

  /** The nodes after wrapping the innermost left-recursive rule in a new one. */
  function Wrap(nodes: seq<Node>, m: Model, state: int): seq<Node>
    requires m.frames != [] && Top(m).id < |nodes|
  {
    var id := Top(m).id;
    nodes[id := nodes[id].(parent := Some(|nodes|), invokingState := state)]
      + [Node(RuleNode, Below(m), [id], Top(m).invoking)]
  }

  lemma PushFrame(nodes: seq<Node>, m: Model, state: int, g: Frame, i: nat)
    requires Represents(nodes, m) && i < |m.frames| && Top(m).recursive && Top(m).id < |nodes|
    requires g == Frame(|nodes|, true, Top(m).precedence, Top(m).invoking, [Rule(Top(m).id, state, Top(m).kids)])
    ensures FrameSpelled(Wrap(nodes, m, state), m.frames[..|m.frames| - 1] + [g], i)
  {
    var last := |m.frames| - 1;
    var f := Top(m);
    var nodes' := Wrap(nodes, m, state);
    assert FrameSpelled(nodes, m.frames, i);
    KeepKids(nodes, nodes', m, last, i);
    if i < last {
      assert Apart(m.frames, i, last);
      FrameIds(nodes, m, i);
      SameFrame(nodes, nodes', m.frames, m.frames[..last] + [g], i);
    } else {
      assert RootIds(f.kids) + [] == RootIds(f.kids);
      assert [] + g.kids == g.kids;
      AllSpellAppend(nodes', [], g.kids[0], Some(|nodes|));
      assert RootIds(g.kids) + [] == [f.id];
    }
  }

  lemma PushApart(nodes: seq<Node>, m: Model, state: int, g: Frame, i: nat, j: nat)
    requires Represents(nodes, m) && i < |m.frames| && j < |m.frames|
    requires g == Frame(|nodes|, true, Top(m).precedence, Top(m).invoking, [Rule(Top(m).id, state, Top(m).kids)])
    ensures Apart(m.frames[..|m.frames| - 1] + [g], i, j)
  {
    assert Apart(m.frames, i, j);
    FrameIds(nodes, m, i);
    FrameIds(nodes, m, j);
    KeepKids(nodes, nodes, m, 0, j);
    assert [] + g.kids == g.kids;
    AllSpellAppend(nodes, [], g.kids[0], None);
  }

  /** Wrapping the innermost left-recursive rule in a new node that becomes the innermost rule. */
  lemma PushKeeps(nodes: seq<Node>, m: Model, state: int)
    requires Represents(nodes, m) && m.frames != [] && Top(m).recursive
    ensures Top(m).id < |nodes|
    ensures Represents(Wrap(nodes, m, state), Step(m, PushRecursion(state), state))
  {
    var last := |m.frames| - 1;
    FrameIds(nodes, m, last);
    var g := Frame(|nodes|, true, Top(m).precedence, Top(m).invoking, [Rule(Top(m).id, state, Top(m).kids)]);
    var fs := m.frames[..last] + [g];
    KeepRoots(nodes, Wrap(nodes, m, state), m, Some(last));
    forall i | 0 <= i < |fs|
      ensures FrameSpelled(Wrap(nodes, m, state), fs, i)
    {
      PushFrame(nodes, m, state, g, i);
    }
    forall i, j | 0 <= i < |fs| && 0 <= j < |fs|
      ensures Apart(fs, i, j)
    {
      PushApart(nodes, m, state, g, i, j);
    }
    forall i | 0 <= i < |fs|
      ensures Unfinished(fs, m.roots, i)
    {
      assert Unfinished(m.frames, m.roots, i);
    }
  }
}
