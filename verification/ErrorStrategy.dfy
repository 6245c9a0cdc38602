/** Error reporting and recovery of DefaultErrorStrategy, driven by a parser over a token stream.
    What the ATN predicts (expected tokens, recovery sets) is passed in. */
module ErrorStrategy {

  /** Token types; the EOF type stands for the end of the stream. */
  type TokenType = int

  const EOF: TokenType := -1

  datatype Option<+T> = None | Some(value: T)

  /** What sync() makes of an ATN state: a subrule or loop entry, a loop back edge, or neither. */
  datatype StateKind = SubruleStart | LoopBack | OtherState

  datatype Inline = Matched(index: nat) | Conjured | Mismatch

  /** What a run does, in order: errors told to the listeners and errors kept from them, reported matches
      and resets, and recoveries with the index they were entered at and the index they left. */
  datatype Event = Notified | Suppressed | Settled | Recovered(state: int, at: nat, after: nat)

  /** No match was reported and no reset made from event j on, up to event i. */
  ghost predicate Unsettled(log: seq<Event>, j: nat, i: nat)
  {
    forall k :: j <= k < i && k < |log| ==> !log[k].Settled?
  }

  /** Between two notifications a match was reported, or the parser was reset. */
  ghost predicate NotifiedOnce(log: seq<Event>)
  {
    forall i, j :: 0 <= i < j < |log| && log[i].Notified? && log[j].Notified? ==> !Unsettled(log, i, j)
  }

  /** Only errors that come while one already told is unsettled are kept from the listeners: before every
      suppressed report a notification stands with no match or reset in between. */
  ghost predicate SilentOnlyAfterNotice(log: seq<Event>)
  {
    forall i :: 0 <= i < |log| && log[i].Suppressed? ==> PendingNotice(log, i)
  }

  /** A notification stands before event i with no match or reset in between. */
  ghost predicate PendingNotice(log: seq<Event>, i: nat)
  {
    exists j :: 0 <= j < i && j < |log| && log[j].Notified? && Unsettled(log, j, i)
  }

  /** A notification not yet followed by a match is counted, and a recovery not yet followed by one is among those
      entered. */
  ghost predicate Summarized(log: seq<Event>, notified: nat, entered: set<(int, nat)>)
  {
    && (notified == 1 <==> PendingNotice(log, |log|))
    && (forall j :: 0 <= j < |log| && log[j].Recovered? && Unsettled(log, j, |log|) ==> (log[j].state, log[j].at) in entered)
  }

  /** Events i and j are recoveries from one ATN state at one index that is not the end of the file. */
  ghost predicate SameFailure(log: seq<Event>, i: nat, j: nat, input: seq<TokenType>)
    requires i < |log| && j < |log|
  {
    && log[i].Recovered? && log[j].Recovered?
    && log[i].state == log[j].state && log[i].at == log[j].at
    && log[j].at < |input| && input[log[j].at] != EOF
  }

  /** A second recovery from the same state at the same index, with no match in between, moves on. */
  ghost predicate RecoveryProgresses(log: seq<Event>, input: seq<TokenType>)
  {
    forall i, j :: 0 <= i < j < |log| && SameFailure(log, i, j, input) && Unsettled(log, i, j) ==>
      log[j].after > log[j].at
  }

  datatype Config = Config(index: nat, state: int, recovering: bool, lastIndex: int, lastStates: set<int>,
                           errors: nat, log: seq<Event>)

  const START := Config(0, -1, false, -1, {}, 0, [])

  /** An error is reported: told, or kept back while recovering. */
  ghost function Tell(k: Config): Config
  {
    if k.recovering then k.(log := k.log + [Suppressed])
    else k.(recovering := true, errors := k.errors + 1, log := k.log + [Notified])
  }

  /** A match is reported, or the parser reset: the error condition ends. */
  ghost function Settle(k: Config): Config
  {
    k.(recovering := false, lastIndex := -1, log := k.log + [Settled])
  }

  /** The input ends in one EOF. */
  ghost predicate IsInput(input: seq<TokenType>)
  {
    |input| > 0 && forall i :: 0 <= i < |input| ==> (input[i] == EOF <==> i == |input| - 1)
  }

  /** LA(k), k >= 1, with the cursor at index. */
  function Ahead(input: seq<TokenType>, index: nat, k: nat): TokenType
    requires k >= 1 && |input| > 0
  {
    if index + k - 1 < |input| then input[index + k - 1] else input[|input| - 1]
  }

  /** Where Parser::consume goes from token i. */
  function Past(input: seq<TokenType>, i: nat): (j: nat)
    requires i < |input| && input[|input| - 1] == EOF
    ensures i <= j < |input|
  {
    if input[i] == EOF then i else i + 1
  }

  /** The first token from i on that is EOF or in the set. */
  ghost function FirstIn(input: seq<TokenType>, i: nat, stops: set<TokenType>): (j: nat)
    requires i < |input| && input[|input| - 1] == EOF
    ensures i <= j < |input| && (input[j] == EOF || input[j] in stops)
    ensures forall k :: i <= k < j ==> input[k] != EOF && input[k] !in stops
    decreases |input| - i
  {
    if input[i] == EOF || input[i] in stops then i else FirstIn(input, i + 1, stops)
  }

  class Strategy {
    /** The parser's token types, ending in one EOF, and its cursor and ATN state. */
    const input: seq<TokenType>
    var index: nat
    var state: int

    var errorRecoveryMode: bool
    var lastErrorIndex: int
    var lastErrorStates: set<int>
    /** How many syntax errors the listeners have been told about. */
    var syntaxErrors: nat

    ghost var log: seq<Event>
    /** Notifications since the last reported match or reset. */
    ghost var notified: nat
    /** Where recover() has been entered since then: state and index. */
    ghost var entered: set<(int, nat)>

    ghost predicate Valid()
      reads this
    {
      && index < |input| && IsInput(input)
      && notified <= 1
      && (notified == 1 <==> errorRecoveryMode)
      && (forall e :: e in entered ==> e.1 <= index)
      && (forall e :: e in entered && e.1 == index ==> lastErrorIndex == index && e.0 in lastErrorStates)
      && Logged()
    }

    /** The history so far keeps both promises, and the ghost state summarizes its unsettled part. */
    ghost predicate Logged()
      reads this
    {
      && NotifiedOnce(log) && SilentOnlyAfterNotice(log) && RecoveryProgresses(log, input)
      && Summarized(log, notified, entered)
    }

    /** Everything that decides what happens next, and what has happened. */
    ghost function Snapshot(): Config
      reads this
    {
      Config(index, state, errorRecoveryMode, lastErrorIndex, lastErrorStates, syntaxErrors, log)
    }

    constructor (input: seq<TokenType>)
      requires IsInput(input)
      ensures Valid() && this.input == input && Snapshot() == START && notified == 0 && entered == {}
    {
      this.input := input;
      index, state, syntaxErrors, lastErrorStates := 0, -1, 0, {};
      errorRecoveryMode, lastErrorIndex := false, -1;
      notified, entered, log := 0, {}, [];
    }

    /** Right after a match: the error condition has ended. */
    ghost predicate Settling()
      reads this
    {
      !errorRecoveryMode && lastErrorIndex == -1 && notified == 0 && entered == {}
    }

    function LA(k: nat): TokenType
      requires k >= 1 && |input| > 0
      reads this
    {
      Ahead(input, index, k)
    }

    method SetState(s: int)
      requires Valid()
      modifies this`state
      ensures Valid() && state == s
    {
      state := s;
    }

    method EndErrorCondition()
      requires Valid()
      modifies this`errorRecoveryMode, this`lastErrorIndex, this`notified, this`entered, this`log
      ensures Valid() && !errorRecoveryMode && lastErrorIndex == -1 && notified == 0 && entered == {}
      ensures log == old(log) + [Settled]
    {
      errorRecoveryMode := false;
      lastErrorIndex := -1;
      SettledKeeps(log, input, notified, entered);
      notified, entered := 0, {};
      log := log + [Settled];
    }

    method ReportMatch()
      requires Valid()
      modifies this`errorRecoveryMode, this`lastErrorIndex, this`notified, this`entered, this`log
      ensures Valid() && !errorRecoveryMode && lastErrorIndex == -1 && notified == 0 && entered == {}
      ensures log == old(log) + [Settled]
    {
      EndErrorCondition();
    }

    /** Tells the listeners about an error. */
    method Notify()
      requires Logged() && notified == 0
      modifies this`syntaxErrors, this`notified, this`log
      ensures Logged() && syntaxErrors == old(syntaxErrors) + 1 && notified == 1
      ensures log == old(log) + [Notified]
    {
      syntaxErrors := syntaxErrors + 1;
      NotifiedKeeps(log, input, notified, entered);
      notified := 1;
      log := log + [Notified];
    }

    /** reportError, reportUnwantedToken and reportMissingToken: silent while recovering. */
    method Report()
      requires Valid()
      modifies this`errorRecoveryMode, this`syntaxErrors, this`notified, this`log
      ensures Valid() && errorRecoveryMode && notified == 1
      ensures syntaxErrors == if old(errorRecoveryMode) then old(syntaxErrors) else old(syntaxErrors) + 1
      ensures log == old(log) + [if old(errorRecoveryMode) then Suppressed else Notified]
    {
      if errorRecoveryMode {
        SuppressedKeeps(log, input, notified, entered);
        log := log + [Suppressed];
        return;
      }
      errorRecoveryMode := true;
      Notify();
    }

    /** Parser::consume: moves past the current token unless it is EOF. */
    method Consume()
      requires Valid()
      modifies this`index
      ensures Valid() && index == Past(input, old(index))
    {
      if input[index] != EOF {
        index := index + 1;
      }
    }

    method ConsumeUntil(follow: set<TokenType>)
      requires Valid()
      modifies this`index
      ensures Valid() && index == FirstIn(input, old(index), follow)
    {
      var ttype := LA(1);
      while ttype != EOF && ttype !in follow
        invariant Valid() && ttype == LA(1)
        invariant FirstIn(input, index, follow) == FirstIn(input, old(index), follow)
        decreases |input| - index
      {
        Consume();
        ttype := LA(1);
      }
    }

    /** Recovery skips to the recovery set. Entered again from the same state at the same index with
        no match in between, it first consumes one token, unless the stream is at its end. */
    method Recover(follow: set<TokenType>)
      requires Valid()
      modifies this
      ensures Valid() && old(index) <= index && state == old(state)
      ensures notified == old(notified) && syntaxErrors == old(syntaxErrors)
      ensures errorRecoveryMode == old(errorRecoveryMode)
      ensures entered == old(entered) + {(state, old(index))}
      ensures log == old(log) + [Recovered(state, old(index), index)]
      ensures (state, old(index)) in old(entered) && input[old(index)] != EOF ==> index > old(index)
      ensures var again := old(lastErrorIndex) == old(index) && state in old(lastErrorStates);
        var from := if again then Past(input, old(index)) else old(index);
        && index == FirstIn(input, from, follow)
        && lastErrorIndex == from && lastErrorStates == old(lastErrorStates) + {state}
    {
      hide NotifiedOnce, SilentOnlyAfterNotice, RecoveryProgresses, Summarized, Unsettled, FirstIn;
      ghost var at := index;
      if lastErrorIndex == index && state in lastErrorStates {
        Consume();
      }
      lastErrorIndex := index;
      lastErrorStates := lastErrorStates + {state};
      ConsumeUntil(follow);
      RecoveryKeeps(log, input, notified, entered, state, at, index);
      entered := entered + {(state, at)};
      log := log + [Recovered(state, at, index)];
    }

    /** Drops the current token if the one after it is expected. */
    method SingleTokenDeletion(expecting: set<TokenType>) returns (matched: Option<nat>)
      requires Valid()
      modifies this
      ensures Valid() && state == old(state)
      ensures matched.Some? <==> old(LA(2)) in expecting
      ensures old(index) <= index
      ensures matched.None? ==> unchanged(this)
      ensures matched.Some? ==> matched.value == index == Past(input, old(index)) && LA(1) == old(LA(2))
      ensures matched.Some? ==> Settling() && lastErrorStates == old(lastErrorStates)
      ensures matched.Some? ==> syntaxErrors == if old(errorRecoveryMode) then old(syntaxErrors) else old(syntaxErrors) + 1
      ensures matched.Some? ==> log == old(log) + [if old(errorRecoveryMode) then Suppressed else Notified, Settled]
    {
      var next := LA(2);
      if next in expecting {
        Report();
        Consume();
        ReportMatch();
        return Some(index);
      }
      return None;
    }

    /** recoverInline: delete a token, insert a missing one, or give up. */
    method RecoverInline(expecting: set<TokenType>, expectingAfter: set<TokenType>) returns (r: Inline)
      requires Valid()
      modifies this
      ensures Valid() && state == old(state) && old(index) <= index
      ensures r.Matched? <==> old(LA(2)) in expecting
      ensures r.Conjured? <==> old(LA(2)) !in expecting && old(LA(1)) in expectingAfter
      ensures r.Matched? ==> r.index == Past(input, old(index)) && index == Past(input, r.index) && Settling()
      ensures r.Conjured? ==> index == old(index) && errorRecoveryMode && lastErrorIndex == old(lastErrorIndex)
      ensures r.Conjured? ==> log == old(log) + [if old(errorRecoveryMode) then Suppressed else Notified]
      ensures r.Matched? ==> log == old(log) + [if old(errorRecoveryMode) then Suppressed else Notified, Settled]
      ensures lastErrorStates == old(lastErrorStates)
      ensures r.Mismatch? ==> unchanged(this)
      ensures !r.Mismatch? ==> syntaxErrors == if old(errorRecoveryMode) then old(syntaxErrors) else old(syntaxErrors) + 1
    {
      var deleted := SingleTokenDeletion(expecting);
      if deleted.Some? {
        Consume();
        return Matched(deleted.value);
      }
      if LA(1) in expectingAfter {
        Report();
        return Conjured;
      }
      return Mismatch;
    }

    /** match(): a token of the right type, or inline recovery. */
    method Match(ttype: TokenType, expecting: set<TokenType>, expectingAfter: set<TokenType>) returns (r: Inline)
      requires Valid()
      modifies this
      ensures Valid() && state == old(state) && old(index) <= index
      ensures old(LA(1)) == ttype ==> r == Matched(old(index)) && Settling() && log == old(log) + [Settled]
      ensures old(LA(1)) == ttype ==> syntaxErrors == old(syntaxErrors) && index == Past(input, old(index))
      ensures old(LA(1)) != ttype ==> (r.Matched? <==> old(LA(2)) in expecting)
      ensures old(LA(1)) != ttype ==> (r.Conjured? <==> old(LA(2)) !in expecting && old(LA(1)) in expectingAfter)
      ensures old(LA(1)) != ttype && r.Matched? ==>
        && r.index == Past(input, old(index)) && index == Past(input, r.index) && Settling()
        && log == old(log) + [if old(errorRecoveryMode) then Suppressed else Notified, Settled]
      ensures r.Conjured? ==>
        && index == old(index) && errorRecoveryMode && lastErrorIndex == old(lastErrorIndex)
        && log == old(log) + [if old(errorRecoveryMode) then Suppressed else Notified]
      ensures lastErrorStates == old(lastErrorStates)
      ensures r.Mismatch? ==> unchanged(this)
      ensures old(LA(1)) != ttype && !r.Mismatch? ==>
        syntaxErrors == if old(errorRecoveryMode) then old(syntaxErrors) else old(syntaxErrors) + 1
    {
      var t := LA(1);
      if t == ttype {
        ReportMatch();
        r := Matched(index);
        Consume();
      } else {
        r := RecoverInline(expecting, expectingAfter);
      }
    }

    /** sync(): before a subrule or loop. The result tells whether an exception is thrown. */
    method Sync(next: set<TokenType>, epsilon: bool, kind: StateKind, expecting: set<TokenType>, follow: set<TokenType>)
      returns (mismatch: bool)
      requires Valid()
      modifies this
      ensures Valid() && state == old(state) && old(index) <= index
      ensures old(errorRecoveryMode) || epsilon || old(LA(1)) in next ==>
        !mismatch && unchanged(this)
      ensures mismatch <==>
        (!old(errorRecoveryMode) && !epsilon && old(LA(1)) !in next && kind.SubruleStart? && old(LA(2)) !in expecting)
      ensures mismatch || kind.OtherState? ==> unchanged(this)
      ensures !old(errorRecoveryMode) && !epsilon && old(LA(1)) !in next && !mismatch && !kind.OtherState? ==>
        && syntaxErrors == old(syntaxErrors) + 1 && errorRecoveryMode == kind.LoopBack?
        && log == old(log) + (if kind.LoopBack? then [Notified] else [Notified, Settled])
        && lastErrorIndex == (if kind.LoopBack? then old(lastErrorIndex) else -1)
        && lastErrorStates == old(lastErrorStates)
        && index == if kind.LoopBack? then FirstIn(input, old(index), expecting + follow) else Past(input, old(index))
    {
      if errorRecoveryMode {
        return false;
      }
      var la := LA(1);
      if epsilon || la in next {
        return false;
      }
      match kind {
        case SubruleStart =>
          var d := SingleTokenDeletion(expecting);
          return d.None?;
        case LoopBack =>
          Report();
          ConsumeUntil(expecting + follow);
          return false;
        case OtherState =>
          return false;
      }
    }

    method Reset()
      requires Valid()
      modifies this
      ensures Valid() && index == 0 && Settling() && lastErrorStates == old(lastErrorStates) && state == old(state)
      ensures syntaxErrors == 0 && log == old(log) + [Settled]
    {
      EndErrorCondition();
      index, syntaxErrors := 0, 0;
    }
  }

  /** Appending an event changes nothing about the earlier ones. */
  lemma Extend(log: seq<Event>, e: Event)
    ensures var log' := log + [e];
      && (forall i, j :: 0 <= i <= j <= |log| ==> (Unsettled(log', i, j) <==> Unsettled(log, i, j)))
      && (forall i :: 0 <= i <= |log| ==> (Unsettled(log', i, |log'|) <==> Unsettled(log, i, |log|) && !e.Settled?))
  {
    var log' := log + [e];
    forall i, j | 0 <= i <= j <= |log|
      ensures Unsettled(log', i, j) <==> Unsettled(log, i, j)
    {
      assert forall k :: i <= k < j ==> log'[k] == log[k];
    }
    forall i | 0 <= i <= |log|
      ensures Unsettled(log', i, |log'|) <==> Unsettled(log, i, |log|) && !e.Settled?
    {
      assert log'[|log|] == e;
      assert forall k :: i <= k < |log| ==> log'[k] == log[k];
    }
  }

  /** What was promised of the earlier events stays promised. */
  lemma PendingKept(log: seq<Event>, e: Event)
    ensures forall i :: 0 <= i <= |log| ==> (PendingNotice(log + [e], i) <==> PendingNotice(log, i))
    ensures PendingNotice(log + [e], |log| + 1) <==> e.Notified? || (PendingNotice(log, |log|) && !e.Settled?)
  {
    var log' := log + [e];
    Extend(log, e);
    hide Unsettled;
    forall i | 0 <= i <= |log|
      ensures PendingNotice(log', i) <==> PendingNotice(log, i)
    {
      if j :| 0 <= j < i && log'[j].Notified? && Unsettled(log', j, i) {
        assert log[j].Notified? && Unsettled(log, j, i);
      }
      if j :| 0 <= j < i && log[j].Notified? && Unsettled(log, j, i) {
        assert log'[j].Notified? && Unsettled(log', j, i);
      }
    }
    if j :| 0 <= j < |log'| && log'[j].Notified? && Unsettled(log', j, |log'|) {
      assert j < |log| ==> log[j].Notified? && Unsettled(log, j, |log|);
    }
    if j :| 0 <= j < |log| && log[j].Notified? && Unsettled(log, j, |log|) && !e.Settled? {
      assert log'[j].Notified? && Unsettled(log', j, |log'|);
    }
    if e.Notified? {
      LastUnsettled(log, e);
      assert log'[|log|].Notified?;
    }
  }

  lemma LastUnsettled(log: seq<Event>, e: Event)
    requires !e.Settled?
    ensures Unsettled(log + [e], |log|, |log| + 1)
  {
  }

  lemma SuppressedKeeps(log: seq<Event>, input: seq<TokenType>, notified: nat, entered: set<(int, nat)>)
    requires NotifiedOnce(log) && SilentOnlyAfterNotice(log) && RecoveryProgresses(log, input)
    requires Summarized(log, notified, entered) && notified == 1
    ensures var log' := log + [Suppressed];
      && NotifiedOnce(log') && SilentOnlyAfterNotice(log') && RecoveryProgresses(log', input)
      && Summarized(log', notified, entered)
  {
    Extend(log, Suppressed);
    PendingKept(log, Suppressed);
    hide Unsettled, PendingNotice;
  }

  lemma RecoveryKeeps(log: seq<Event>, input: seq<TokenType>, notified: nat, entered: set<(int, nat)>,
                      state: int, at: nat, after: nat)
    requires NotifiedOnce(log) && SilentOnlyAfterNotice(log) && RecoveryProgresses(log, input)
    requires Summarized(log, notified, entered)
    requires (state, at) in entered && at < |input| && input[at] != EOF ==> after > at
    ensures var log' := log + [Recovered(state, at, after)];
      && NotifiedOnce(log') && SilentOnlyAfterNotice(log') && RecoveryProgresses(log', input)
      && Summarized(log', notified, entered + {(state, at)})
  {
    Extend(log, Recovered(state, at, after));
    PendingKept(log, Recovered(state, at, after));
    hide Unsettled, PendingNotice;
  }

  lemma NotifiedKeeps(log: seq<Event>, input: seq<TokenType>, notified: nat, entered: set<(int, nat)>)
    requires NotifiedOnce(log) && SilentOnlyAfterNotice(log) && RecoveryProgresses(log, input)
    requires Summarized(log, notified, entered) && notified == 0
    ensures var log' := log + [Notified];
      && NotifiedOnce(log') && SilentOnlyAfterNotice(log') && RecoveryProgresses(log', input)
      && Summarized(log', 1, entered)
  {
    Extend(log, Notified);
    PendingKept(log, Notified);
    assert forall j :: 0 <= j < |log| && log[j].Notified? ==> !Unsettled(log, j, |log|);
    hide Unsettled, PendingNotice;
  }

  lemma SettledKeeps(log: seq<Event>, input: seq<TokenType>, notified: nat, entered: set<(int, nat)>)
    requires NotifiedOnce(log) && SilentOnlyAfterNotice(log) && RecoveryProgresses(log, input)
    requires Summarized(log, notified, entered)
    ensures var log' := log + [Settled];
      && NotifiedOnce(log') && SilentOnlyAfterNotice(log') && RecoveryProgresses(log', input)
      && Summarized(log', 0, {})
  {
    Extend(log, Settled);
    PendingKept(log, Settled);
    hide Unsettled, PendingNotice;
  }

  // ---------------------------------------------------------------- whole runs

  datatype Command =
    | MatchToken(ttype: TokenType, expecting: set<TokenType>, expectingAfter: set<TokenType>)
    | SyncAt(next: set<TokenType>, epsilon: bool, kind: StateKind, expecting: set<TokenType>, follow: set<TokenType>)
    | ReportError
    | RecoverTo(follow: set<TokenType>)
    | MoveToState(s: int)
    | ResetParser

  /** What one command does to the strategy and the cursor. */
  ghost function Step(input: seq<TokenType>, k: Config, c: Command): (r: Config)
    requires IsInput(input) && k.index < |input|
    ensures r.index < |input|
  {
    match c
    case MatchToken(ttype, expecting, expectingAfter) =>
      if Ahead(input, k.index, 1) == ttype then Settle(k).(index := Past(input, k.index))
      else if Ahead(input, k.index, 2) in expecting then
        Settle(Tell(k)).(index := Past(input, Past(input, k.index)))
      else if Ahead(input, k.index, 1) in expectingAfter then Tell(k)
      else k
    case SyncAt(next, epsilon, kind, expecting, follow) =>
      if k.recovering || epsilon || Ahead(input, k.index, 1) in next || kind.OtherState? then k
      else if kind.LoopBack? then Tell(k).(index := FirstIn(input, k.index, expecting + follow))
      else if Ahead(input, k.index, 2) in expecting then Settle(Tell(k)).(index := Past(input, k.index))
      else k
    case ReportError => Tell(k)
    case RecoverTo(follow) =>
      var from := if k.lastIndex == k.index && k.state in k.lastStates then Past(input, k.index) else k.index;
      var to := FirstIn(input, from, follow);
      k.(index := to, lastIndex := from, lastStates := k.lastStates + {k.state},
         log := k.log + [Recovered(k.state, k.index, to)])
    case MoveToState(s) => k.(state := s)
    case ResetParser => Settle(k).(index := 0, errors := 0)
  }

  ghost function RunOf(input: seq<TokenType>, cs: seq<Command>): (r: Config)
    requires IsInput(input)
    ensures r.index < |input|
  {
    if cs == [] then START else Step(input, RunOf(input, cs[..|cs| - 1]), cs[|cs| - 1])
  }

  method Perform(s: Strategy, c: Command)
    requires s.Valid()
    modifies s
    ensures s.Valid() && s.Snapshot() == Step(s.input, old(s.Snapshot()), c)
  {
    match c {
      case MatchToken(ttype, expecting, expectingAfter) =>
        var _ := s.Match(ttype, expecting, expectingAfter);
      case SyncAt(next, epsilon, kind, expecting, follow) =>
        var _ := s.Sync(next, epsilon, kind, expecting, follow);
      case ReportError =>
        s.Report();
      case RecoverTo(follow) =>
        s.Recover(follow);
      case MoveToState(st) =>
        s.SetState(st);
      case ResetParser =>
        s.Reset();
    }
  }

  /** Main result. Every run, whatever the ATN predicts, goes as Step says. In it the listeners hear of
      every error, except that between two reported matches or resets they hear of the first one only;
      and repeated recovery makes progress. */
  method Run(input: seq<TokenType>, cs: seq<Command>) returns (s: Strategy)
    requires IsInput(input)
    ensures s.Snapshot() == RunOf(input, cs)
    ensures NotifiedOnce(s.log) && SilentOnlyAfterNotice(s.log) && RecoveryProgresses(s.log, input)
  {
    s := new Strategy(input);
    for i := 0 to |cs|
      invariant fresh(s) && s.Valid() && s.input == input
      invariant s.Snapshot() == RunOf(input, cs[..i])
    {
      assert cs[..i + 1][..i] == cs[..i];
      Perform(s, cs[i]);
    }
    assert cs[..|cs|] == cs;
  }
}
