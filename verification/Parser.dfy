/** The parser object: rule entry and exit, left-recursive rules, and token consumption, building the
    parse tree in place. */
module Parser {
  import opened ParseTree

  /** Precedences of the open left-recursive rules, on top of the initial 0. */
  function Precedences(fs: seq<Frame>): (r: seq<int>)
    ensures r != []
  {
    if fs == [] then [0]
    else
      var f := fs[|fs| - 1];
      Precedences(fs[..|fs| - 1]) + if f.recursive then [f.precedence] else []
  }

  /** Token streams end in exactly one EOF. */
  ghost predicate IsInput(input: seq<Token>)
  {
    |input| > 0 && forall i :: 0 <= i < |input| ==> (input[i].isEof <==> i == |input| - 1)
  }

  class Parser {
    /** The token stream: its tokens end in one EOF, which is never moved past. */
    const input: seq<Token>
    var index: nat
    /** Every node the tracker has allocated. */
    var nodes: seq<Node>
    var ctx: Option<nat>
    var state: int
    var precedenceStack: seq<int>

    ghost var model: Model

    ghost predicate Valid()
      reads this
    {
      Represents(nodes, model) && Consistent()
    }

    ghost predicate Consistent()
      reads this
    {
      && index < |input| && IsInput(input)
      && ctx == TopId(model)
      && precedenceStack == Precedences(model.frames)
    }

    /** A context has just been created for a rule invoked from the rule parent. */
    ghost predicate Pending(localctx: nat, parent: Option<nat>, invoking: int)
      reads this
    {
      && Consistent() && localctx == model.count && |nodes| == model.count + 1
      && nodes[localctx] == Node(RuleNode, parent, [], invoking)
      && Represents(nodes[..localctx], model)
    }

    constructor (input: seq<Token>)
      requires IsInput(input)
      ensures Valid() && this.input == input && index == 0 && state == -1 && model == Model([], [], 0)
    {
      this.input, index := input, 0;
      nodes, ctx, state, precedenceStack := [], None, -1, [0];
      model := Model([], [], 0);
    }

    /** What a generated rule function does first. */
    method CreateContext(parent: Option<nat>, invoking: int) returns (localctx: nat)
      requires Valid()
      modifies this`nodes
      ensures Pending(localctx, parent, invoking)
    {
      localctx := |nodes|;
      nodes := nodes + [Node(RuleNode, parent, [], invoking)];
      assert nodes[..localctx] == old(nodes);
    }

    method EnterRule(localctx: nat, newState: int)
      requires Pending(localctx, ctx, state)
      modifies this
      ensures Valid() && model == Step(old(model), Enter(newState), old(state))
      ensures state == newState && index == old(index)
    {
      ghost var base, n := nodes[..localctx], nodes[localctx];
      assert nodes == base + [n];
      ghost var f := Frame(localctx, false, 0, state, []);
      OpenKeeps(base, model, n, f);
      state := newState;
      ctx := Some(localctx);
      if nodes[localctx].parent.Some? {
        nodes := AppendChild(nodes, nodes[localctx].parent.value, localctx);
      }
      model := model.(frames := model.frames + [f], count := model.count + 1);
    }

    method ExitRule()
      requires Valid() && Legal(model, Exit)
      modifies this
      ensures Valid() && model == Step(old(model), Exit, old(state))
      ensures state == Top(old(model)).invoking && index == old(index)
    {
      ghost var last := |model.frames| - 1;
      assert FrameSpelled(nodes, model.frames, last);
      if last > 0 {
        CloseKeeps(nodes, model);
      } else {
        FinishKeeps(nodes, model);
      }
      LeaveStack(model);
      var c := ctx.value;
      state := nodes[c].invokingState;
      ctx := nodes[c].parent;
      model := Leave(model);
    }

    method EnterRecursionRule(localctx: nat, newState: int, precedence: int)
      requires Pending(localctx, ctx, state)
      modifies this
      ensures Valid() && model == Step(old(model), EnterRecursion(newState, precedence), old(state))
      ensures state == newState && index == old(index)
      ensures precedenceStack == old(precedenceStack) + [precedence]
    {
      ghost var base, n := nodes[..localctx], nodes[localctx];
      assert nodes == base + [n];
      ghost var f := Frame(localctx, true, precedence, state, []);
      OpenKeeps(base, model, n, f);
      state := newState;
      precedenceStack := precedenceStack + [precedence];
      ctx := Some(localctx);
      assert (model.frames + [f])[..|model.frames|] == model.frames;
      model := model.(frames := model.frames + [f], count := model.count + 1);
    }

    method PushNewRecursionContext(localctx: nat, newState: int)
      requires Legal(model, PushRecursion(newState))
      requires Pending(localctx, Below(model), Top(model).invoking)
      modifies this
      ensures Valid() && model == Step(old(model), PushRecursion(newState), old(state))
      ensures state == old(state) && index == old(index) && precedenceStack == old(precedenceStack)
      ensures Top(old(model)).id < |nodes| && nodes[Top(old(model)).id].invokingState == newState
    {
      hide Represents, Precedences;
      ghost var base := nodes[..localctx];
      PushKeeps(base, model, newState);
      var previous := ctx.value;
      nodes := nodes[previous := nodes[previous].(parent := Some(localctx), invokingState := newState)];
      ctx := Some(localctx);
      nodes := AppendChild(nodes, localctx, previous);
      WrapInPlace(base, old(nodes), model, newState);
      PushStack(model, newState, state);
      model := Step(model, PushRecursion(newState), state);
    }

    method UnrollRecursionContexts(parentctx: Option<nat>)
      requires Valid() && Legal(model, Event.Unroll) && parentctx == Below(model)
      modifies this
      ensures Valid() && model == Step(old(model), Event.Unroll, old(state))
      ensures state == old(state) && index == old(index)
      ensures precedenceStack == old(precedenceStack)[..|old(precedenceStack)| - 1]
    {
      ghost var last := |model.frames| - 1;
      assert FrameSpelled(nodes, model.frames, last);
      if last > 0 {
        CloseKeeps(nodes, model);
      } else {
        FinishKeeps(nodes, model);
      }
      LeaveStack(model);
      ghost var closed := Leave(model);
      precedenceStack := precedenceStack[..|precedenceStack| - 1];
      var retctx := ctx.value;
      ctx := parentctx;
      nodes := nodes[retctx := nodes[retctx].(parent := parentctx)];
      assert nodes == old(nodes);
      if parentctx.Some? {
        nodes := AppendChild(nodes, parentctx.value, retctx);
      }
      assert Represents(nodes, closed);
      model := closed;
    }

    /** Appends a terminal or error node to the current context. */
    method AddLeaf(kind: Kind)
      requires Valid() && Legal(model, Add(kind))
      modifies this`nodes, this`model
      ensures Valid() && model == Step(old(model), Add(kind), state)
    {
      var id := |nodes|;
      assert FrameSpelled(nodes, model.frames, |model.frames| - 1);
      ghost var t := Leaf(id, kind);
      forall i | 0 <= i < |model.frames|
        ensures model.frames[i].id !in Ids(t)
      {
        FrameIds(nodes, model, i);
      }
      nodes := nodes + [Node(kind, ctx, [], -1)];
      nodes := AppendChild(nodes, ctx.value, id);
      AddKidKeeps(old(nodes), model, t, nodes);
      AddKidStack(model.frames, t);
      model := model.(frames := AddKid(model.frames, t), count := |nodes|);
    }

    /** Consumes the current token; while recovering from an error its node is an error node. */
    method Consume(recovering: bool) returns (o: Token)
      requires Valid() && model.frames != []
      modifies this`index, this`nodes, this`model
      ensures Valid() && o == input[old(index)]
      ensures index == if o.isEof then old(index) else old(index) + 1
      ensures model == Step(old(model), Add(if recovering then ErrorNode(o) else TerminalNode(o)), state)
    {
      o := input[index];
      if !o.isEof {
        index := index + 1;
      }
      AddLeaf(if recovering then ErrorNode(o) else TerminalNode(o));
    }

    /** Single token insertion: match() adds an error node for the conjured token. */
    method AddMissing(conjured: Token)
      requires Valid() && model.frames != []
      modifies this`nodes, this`model
      ensures Valid() && model == Step(old(model), Add(ErrorNode(conjured)), state)
    {
      AddLeaf(ErrorNode(conjured));
    }
  }

  /** Updating the wrapped node and listing it in the fresh one is Wrap. */
  lemma WrapInPlace(base: seq<Node>, nodes: seq<Node>, m: Model, newState: int)
    requires m.frames != [] && Top(m).id < |base|
    requires nodes == base + [Node(RuleNode, Below(m), [], Top(m).invoking)]
    ensures var id := Top(m).id;
      AppendChild(nodes[id := nodes[id].(parent := Some(|base|), invokingState := newState)], |base|, id)
        == Wrap(base, m, newState)
  {
    assert [] + [Top(m).id] == [Top(m).id];
  }

  lemma PushStack(m: Model, newState: int, state: int)
    requires Legal(m, PushRecursion(newState))
    ensures Precedences(Step(m, PushRecursion(newState), state).frames) == Precedences(m.frames)
    ensures TopId(Step(m, PushRecursion(newState), state)) == Some(m.count)
  {
    var last := |m.frames| - 1;
    var fs := Step(m, PushRecursion(newState), state).frames;
    assert fs[..last] == m.frames[..last];
  }

  lemma LeaveStack(m: Model)
    requires m.frames != []
    ensures Precedences(Leave(m).frames) ==
      if Top(m).recursive then Precedences(m.frames)[..|Precedences(m.frames)| - 1] else Precedences(m.frames)
  {
    var rest := m.frames[..|m.frames| - 1];
    var a := Precedences(rest);
    assert a + [] == a;
    assert (a + [Top(m).precedence])[..|a|] == a;
    if rest != [] {
      AddKidStack(rest, Rule(Top(m).id, Top(m).invoking, Top(m).kids));
    }
  }

  lemma AddKidStack(fs: seq<Frame>, t: Tree)
    requires fs != []
    ensures Precedences(AddKid(fs, t)) == Precedences(fs)
  {
    assert AddKid(fs, t)[..|fs| - 1] == fs[..|fs| - 1];
  }

  // ---------------------------------------------------------------- whole runs

  datatype Command =
    | CallRule(state: int)
    | ReturnRule
    | CallRecursive(state: int, precedence: int)
    | PushRecursive(state: int)
    | ReturnRecursive
    | ConsumeToken(recovering: bool)
    | InsertMissing(conjured: Token)

  function EventOf(c: Command, current: Token): Event
  {
    match c
    case CallRule(s) => Enter(s)
    case ReturnRule => Exit
    case CallRecursive(s, p) => EnterRecursion(s, p)
    case PushRecursive(s) => PushRecursion(s)
    case ReturnRecursive => Event.Unroll
    case ConsumeToken(r) => Add(if r then ErrorNode(current) else TerminalNode(current))
    case InsertMissing(t) => Add(ErrorNode(t))
  }

  function NextIndex(input: seq<Token>, index: nat, c: Command): nat
    requires index < |input|
  {
    if c.ConsumeToken? && !input[index].isEof then index + 1 else index
  }

  /** The tokens a run adds to the tree, in order: consumed ones and conjured ones. */
  function TokensAdded(input: seq<Token>, index: nat, cs: seq<Command>): seq<Token>
    requires index < |input| && IsInput(input)
    decreases |cs|
  {
    if cs == [] then []
    else
      match cs[0]
      case ConsumeToken(_) =>
        [input[index]] + TokensAdded(input, if input[index].isEof then index else index + 1, cs[1..])
      case InsertMissing(t) => [t] + TokensAdded(input, index, cs[1..])
      case _ => TokensAdded(input, index, cs[1..])
  }

  /** Rules are left the way they were entered, tokens are added inside rules, and in the end no rule
      is open. Only the kinds of the open rules matter, outermost first. */
  predicate Bracketed(open: seq<bool>, cs: seq<Command>)
    decreases |cs|
  {
    if cs == [] then open == []
    else
      match cs[0]
      case CallRule(_) => Bracketed(open + [false], cs[1..])
      case CallRecursive(_, _) => Bracketed(open + [true], cs[1..])
      case ReturnRule => open != [] && !open[|open| - 1] && Bracketed(open[..|open| - 1], cs[1..])
      case ReturnRecursive => open != [] && open[|open| - 1] && Bracketed(open[..|open| - 1], cs[1..])
      case PushRecursive(_) => open != [] && open[|open| - 1] && Bracketed(open, cs[1..])
      case _ => open != [] && Bracketed(open, cs[1..])
  }

  /** A rule that is open: whether it is left-recursive, the state it was invoked in, its children so far. */
  datatype Open = Open(recursive: bool, invoking: int, count: nat)

  function OneMore(open: seq<Open>): seq<Open>
  {
    if open == [] then [] else open[|open| - 1 := open[|open| - 1].(count := open[|open| - 1].count + 1)]
  }

  /** Where a command takes the parser's state and the open rules. */
  function NextState(state: int, open: seq<Open>, c: Command): int
  {
    match c
    case CallRule(s) => s
    case CallRecursive(s, _) => s
    case ReturnRule => if open == [] then state else open[|open| - 1].invoking
    case _ => state
  }

  function NextOpen(state: int, open: seq<Open>, c: Command): seq<Open>
  {
    match c
    case CallRule(_) => open + [Open(false, state, 0)]
    case CallRecursive(_, _) => open + [Open(true, state, 0)]
    case PushRecursive(_) => if open == [] then [] else open[|open| - 1 := open[|open| - 1].(count := 1)]
    case ConsumeToken(_) => OneMore(open)
    case InsertMissing(_) => OneMore(open)
    case _ => if open == [] then [] else OneMore(open[..|open| - 1])
  }

  /** What a command completes: a token's node, or a context with its children, invoked in some state. */
  function Written(open: seq<Open>, c: Command, current: Token): seq<Item>
  {
    match c
    case ConsumeToken(r) => [Shown(if r then ErrorNode(current) else TerminalNode(current))]
    case InsertMissing(t) => [Shown(ErrorNode(t))]
    case PushRecursive(s) => if open == [] then [] else [Closed(s, open[|open| - 1].count)]
    case ReturnRule => if open == [] then [] else [Closed(open[|open| - 1].invoking, open[|open| - 1].count)]
    case ReturnRecursive => if open == [] then [] else [Closed(open[|open| - 1].invoking, open[|open| - 1].count)]
    case _ => []
  }

  /** The forest that a run builds, written down, from its commands alone. */
  function AllWritten(input: seq<Token>, index: nat, state: int, open: seq<Open>, cs: seq<Command>): seq<Item>
    requires index < |input| && IsInput(input)
    decreases |cs|
  {
    if cs == [] then []
    else
      Written(open, cs[0], input[index])
        + AllWritten(input, NextIndex(input, index, cs[0]),
                     NextState(state, open, cs[0]), NextOpen(state, open, cs[0]), cs[1..])
  }

  function Opens(fs: seq<Frame>): (r: seq<Open>)
    ensures |r| == |fs|
  {
    seq(|fs|, i requires 0 <= i < |fs| => Open(fs[i].recursive, fs[i].invoking, |fs[i].kids|))
  }

  /** The open rules and what is completed, told from the commands. */
  lemma StepOpens(m: Model, c: Command, current: Token, state: int)
    requires Legal(m, EventOf(c, current))
    ensures Opens(Step(m, EventOf(c, current), state).frames) == NextOpen(state, Opens(m.frames), c)
    ensures Completed(m, EventOf(c, current)) == Written(Opens(m.frames), c, current)
    ensures c.ReturnRule? ==> NextState(state, Opens(m.frames), c) == Top(m).invoking
  {
  }

  function Kinds(fs: seq<Frame>): (r: seq<bool>)
    ensures |r| == |fs|
  {
    seq(|fs|, i requires 0 <= i < |fs| => fs[i].recursive)
  }

  lemma StepKinds(m: Model, e: Event, state: int)
    requires Legal(m, e)
    ensures var ks, ks' := Kinds(m.frames), Kinds(Step(m, e, state).frames);
      match e
      case Enter(_) => ks' == ks + [false]
      case EnterRecursion(_, _) => ks' == ks + [true]
      case Exit => ks' == ks[..|ks| - 1]
      case Unroll => ks' == ks[..|ks| - 1]
      case PushRecursion(_) => ks' == ks
      case Add(_) => ks' == ks
  {
  }

  method Perform(p: Parser, c: Command)
    requires p.Valid() && Legal(p.model, EventOf(c, p.input[p.index]))
    modifies p
    ensures p.Valid()
    ensures p.model == Step(old(p.model), EventOf(c, p.input[old(p.index)]), old(p.state))
    ensures p.state == NextState(old(p.state), old(Opens(p.model.frames)), c)
    ensures p.index == NextIndex(p.input, old(p.index), c)
  {
    match c {
      case CallRule(s) =>
        var x := p.CreateContext(p.ctx, p.state);
        p.EnterRule(x, s);
      case ReturnRule =>
        p.ExitRule();
      case CallRecursive(s, prec) =>
        var x := p.CreateContext(p.ctx, p.state);
        p.EnterRecursionRule(x, s, prec);
      case PushRecursive(s) =>
        assert FrameSpelled(p.nodes, p.model.frames, |p.model.frames| - 1);
        // parentContext and parentState: what the rule function saved when it was invoked.
        ghost var top := Top(p.model);
        var below, invoking := p.nodes[p.ctx.value].parent, p.nodes[p.ctx.value].invokingState;
        var x := p.CreateContext(below, invoking);
        p.PushNewRecursionContext(x, s);
      case ReturnRecursive =>
        assert FrameSpelled(p.nodes, p.model.frames, |p.model.frames| - 1);
        p.UnrollRecursionContexts(p.nodes[p.ctx.value].parent);
      case ConsumeToken(r) =>
        var _ := p.Consume(r);
      case InsertMissing(t) =>
        p.AddMissing(t);
    }
  }

  /** The next command of a well-bracketed run is legal, and the rest stays well-bracketed. */
  lemma BracketStep(m: Model, cs: seq<Command>, current: Token, state: int)
    requires cs != [] && Bracketed(Kinds(m.frames), cs)
    ensures Legal(m, EventOf(cs[0], current))
    ensures Bracketed(Kinds(Step(m, EventOf(cs[0], current), state).frames), cs[1..])
  {
    var ks := Kinds(m.frames);
    assert ks != [] ==> (ks[|ks| - 1] <==> Top(m).recursive);
    StepKinds(m, EventOf(cs[0], current), state);
  }

  lemma NextIndexInside(input: seq<Token>, index: nat, c: Command)
    requires index < |input| && IsInput(input)
    ensures NextIndex(input, index, c) < |input|
  {
  }

  lemma TokensStep(input: seq<Token>, index: nat, cs: seq<Command>)
    requires index < |input| && cs != [] && IsInput(input)
    ensures NextIndex(input, index, cs[0]) < |input|
    ensures TokensAdded(input, index, cs) == Added(EventOf(cs[0], input[index]))
      + TokensAdded(input, NextIndex(input, index, cs[0]), cs[1..])
  {
    NextIndexInside(input, index, cs[0]);
    var rest := TokensAdded(input, index, cs[1..]);
    assert [] + rest == rest;
  }

  lemma YieldAdvances(input: seq<Token>, index: nat, m: Model, state: int, cs: seq<Command>)
    requires index < |input| && IsInput(input) && cs != [] && Legal(m, EventOf(cs[0], input[index]))
    ensures NextIndex(input, index, cs[0]) < |input|
    ensures Yield(Step(m, EventOf(cs[0], input[index]), state)) + TokensAdded(input, NextIndex(input, index, cs[0]), cs[1..])
      == Yield(m) + TokensAdded(input, index, cs)
  {
    hide *;
    TokensStep(input, index, cs);
    var e := EventOf(cs[0], input[index]);
    StepYield(m, e, state);
    var before, added := Yield(m), Added(e);
    var after := TokensAdded(input, NextIndex(input, index, cs[0]), cs[1..]);
    assert (before + added) + after == before + (added + after);
  }

  lemma WrittenStep(input: seq<Token>, index: nat, state: int, open: seq<Open>, cs: seq<Command>)
    requires index < |input| && IsInput(input) && cs != []
    ensures NextIndex(input, index, cs[0]) < |input|
    ensures AllWritten(input, index, state, open, cs) == Written(open, cs[0], input[index])
      + AllWritten(input, NextIndex(input, index, cs[0]), NextState(state, open, cs[0]), NextOpen(state, open, cs[0]), cs[1..])
  {
    hide Written, NextState, NextOpen, NextIndex;
    NextIndexInside(input, index, cs[0]);
  }

  lemma ProgressAdvances(input: seq<Token>, index: nat, m: Model, state: int, cs: seq<Command>)
    requires index < |input| && IsInput(input) && cs != [] && Legal(m, EventOf(cs[0], input[index]))
    ensures NextIndex(input, index, cs[0]) < |input|
    ensures var m' := Step(m, EventOf(cs[0], input[index]), state);
      Progress(m') + AllWritten(input, NextIndex(input, index, cs[0]), NextState(state, Opens(m.frames), cs[0]),
                                Opens(m'.frames), cs[1..])
        == Progress(m) + AllWritten(input, index, state, Opens(m.frames), cs)
  {
    hide *;
    var c, e, open := cs[0], EventOf(cs[0], input[index]), Opens(m.frames);
    WrittenStep(input, index, state, open, cs);
    StepPolish(m, e, state);
    StepOpens(m, c, input[index], state);
    var before, done := Progress(m), Completed(m, e);
    var after := AllWritten(input, NextIndex(input, index, c), NextState(state, open, c), NextOpen(state, open, c), cs[1..]);
    assert (before + done) + after == before + (done + after);
  }

  /** One command of a well-bracketed run, keeping what is complete so far plus what is to come. */
  method Advance(p: Parser, ghost cs: seq<Command>, c: Command)
    requires p.Valid() && cs != [] && c == cs[0] && IsInput(p.input)
    requires Bracketed(Kinds(p.model.frames), cs)
    modifies p
    ensures p.Valid() && Bracketed(Kinds(p.model.frames), cs[1..])
    ensures Yield(p.model) + TokensAdded(p.input, p.index, cs[1..])
      == old(Yield(p.model)) + TokensAdded(p.input, old(p.index), cs)
    ensures Progress(p.model) + AllWritten(p.input, p.index, p.state, Opens(p.model.frames), cs[1..])
      == old(Progress(p.model)) + AllWritten(p.input, old(p.index), old(p.state), old(Opens(p.model.frames)), cs)
  {
    BracketStep(p.model, cs, p.input[p.index], p.state);
    YieldAdvances(p.input, p.index, p.model, p.state, cs);
    ProgressAdvances(p.input, p.index, p.model, p.state, cs);
    hide Yield, TokensAdded, Progress, AllWritten, Opens, Kinds, Bracketed, Step, NextState;
    Perform(p, c);
  }

  /** Main result. After every well-bracketed run the finished trees are spelled out by the nodes,
      every child pointing back to the node that lists it, and their leaves read from left to right
      are exactly the tokens added, in order. Their shapes, with the state every context was invoked in,
      are those that the commands write down; no rule is open and the precedence stack is as before. */
  method Run(input: seq<Token>, cs: seq<Command>) returns (p: Parser, ghost trees: seq<Tree>)
    requires IsInput(input)
    requires Bracketed([], cs)
    ensures AllSpell(p.nodes, trees, None)
    ensures AllLeaves(trees) == TokensAdded(input, 0, cs)
    ensures AllPolish(trees) == AllWritten(input, 0, -1, [], cs)
    ensures Shapes(trees) == ReadAll([], AllWritten(input, 0, -1, [], cs))
    ensures p.ctx == None && p.precedenceStack == [0]
  {
    p := new Parser(input);
    ghost var rest := cs;
    assert Kinds(p.model.frames) == [];
    for i := 0 to |cs|
      invariant rest == cs[i..] && fresh(p) && p.Valid() && p.input == input
      invariant Bracketed(Kinds(p.model.frames), rest)
      invariant Yield(p.model) + TokensAdded(input, p.index, rest) == TokensAdded(input, 0, cs)
      invariant Progress(p.model) + AllWritten(input, p.index, p.state, Opens(p.model.frames), rest)
        == AllWritten(input, 0, -1, [], cs)
    {
      Advance(p, rest, cs[i]);
      rest := rest[1..];
    }
    trees := p.model.roots;
    assert p.model.frames == [] by {
      assert |Kinds(p.model.frames)| == 0;
    }
    assert AllLeaves(trees) + [] + [] == AllLeaves(trees);
    assert AllPolish(trees) + [] + [] == AllPolish(trees);
    AllPolishReads([], trees);
    assert [] + Shapes(trees) == Shapes(trees);
  }
}
