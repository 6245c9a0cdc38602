/**
 * The lazy token stream that shows a parser one channel only
 * (deps/antlr4-runtime/BufferedTokenStream.cpp, deps/antlr4-runtime/CommonTokenStream.cpp).
 *
 * Tokens are pulled from the lexer on demand and kept; the cursor skips the tokens of other channels. The stream is
 * proved to agree with a cursor in the plain list of the tokens of that channel, ended by EOF. Indices are size_t, and
 * their wrap-around at 2^64 is modelled: looking back too far runs into it.
 */
module CommonTokenStream {
  import opened Basics
  const EOF: int := -1
  const SIZE: nat := 0x1_0000_0000_0000_0000

  datatype Token = Token(typ: int, channel: nat, text: string, index: nat)

  datatype Option<T> = None | Some(value: T)

  /** What a token source delivers: exactly one EOF, and it is last. */
  ghost predicate WellFormed(source: seq<Token>)
  {
    && 0 < |source| < SIZE / 2
    && forall i :: 0 <= i < |source| ==> (source[i].typ == EOF <==> i == |source| - 1)
  }

  /** The cursor may rest on token i: it is on the channel, or it is EOF. */
  ghost predicate Stop(source: seq<Token>, channel: nat, i: nat)
    requires i < |source|
  {
    i == |source| - 1 || source[i].channel == channel
  }

  /** The filtered list, up to token i: the indices of the tokens the parser gets to see. */
  ghost function Kept(source: seq<Token>, channel: nat, i: nat): seq<nat>
    requires i <= |source|
  {
    if i == 0 then []
    else Kept(source, channel, i - 1) + (if Stop(source, channel, i - 1) then [i - 1] else [])
  }

  ghost function Filtered(source: seq<Token>, channel: nat): seq<nat> {
    Kept(source, channel, |source|)
  }

  /** How many of them come before token i. */
  ghost function Rank(source: seq<Token>, channel: nat, i: nat): nat
    requires i <= |source|
  {
    |Kept(source, channel, i)|
  }

  /** The token as the stream hands it out: stamped with its position. */
  ghost function Stamped(source: seq<Token>, i: nat): Token
    requires i < |source|
  {
    source[i].(index := i)
  }

  lemma {:induction false} KeptGrows(source: seq<Token>, channel: nat, i: nat, j: nat)
    requires i <= j <= |source|
    ensures Kept(source, channel, i) <= Kept(source, channel, j)
    decreases j
  {
    if i < j {
      KeptGrows(source, channel, i, j - 1);
    }
  }

  /** A token the cursor may rest on is the filtered token of its rank. */
  lemma {:induction false} RankFinds(source: seq<Token>, channel: nat, i: nat)
    requires i < |source| && Stop(source, channel, i)
    ensures Rank(source, channel, i) < |Filtered(source, channel)|
    ensures Filtered(source, channel)[Rank(source, channel, i)] == i
  {
    KeptGrows(source, channel, i + 1, |source|);
    assert Kept(source, channel, i + 1)[Rank(source, channel, i)] == i;
  }

  /** And every filtered token is found that way. */
  lemma {:induction false} FilteredRank(source: seq<Token>, channel: nat, i: nat, r: nat)
    requires i <= |source| && r < Rank(source, channel, i)
    ensures Kept(source, channel, i)[r] < i
    ensures Stop(source, channel, Kept(source, channel, i)[r]) && Rank(source, channel, Kept(source, channel, i)[r]) == r
  {
    if r < Rank(source, channel, i - 1) {
      FilteredRank(source, channel, i - 1, r);
    }
  }

  /** EOF is the last filtered token. */
  lemma {:induction false} LastIsEof(source: seq<Token>, channel: nat)
    requires WellFormed(source)
    ensures Rank(source, channel, |source| - 1) == |Filtered(source, channel)| - 1
    ensures Filtered(source, channel)[|Filtered(source, channel)| - 1] == |source| - 1
  {
    RankFinds(source, channel, |source| - 1);
  }

  /** The filtered token of rank r. */
  ghost function Nth(source: seq<Token>, channel: nat, r: nat): Token
    requires r < |Filtered(source, channel)|
  {
    FilteredRank(source, channel, |source|, r);
    Stamped(source, Filtered(source, channel)[r])
  }

  /** The rank of the k-th remaining filtered token from rank r on, EOF past the end. */
  ghost function Ahead(source: seq<Token>, channel: nat, r: nat, k: nat): (last: nat)
    requires r < |Filtered(source, channel)| && k > 0
    ensures last < |Filtered(source, channel)|
  {
    Min(r + k - 1, |Filtered(source, channel)| - 1)
  }

  lemma {:induction false} RankBounded(source: seq<Token>, channel: nat, i: nat)
    requires i <= |source|
    ensures Rank(source, channel, i) <= i
  {
    if i > 0 {
      RankBounded(source, channel, i - 1);
    }
  }

  /** m steps round a circle of c places. */
  ghost function Around(m: nat, c: nat): (place: nat)
    requires c > 0
    ensures place < c
  {
    if m < c then m else Around(m - c, c)
  }

  lemma {:induction false} OneStepAround(m: nat, c: nat)
    requires c > 0
    ensures Around(m + 1, c) == if Around(m, c) == c - 1 then 0 else Around(m, c) + 1
  {
    if m >= c {
      OneStepAround(m - c, c);
    }
  }

  /** Where m + 1 steps back from the first filtered token lead, when the last buffered token is `last`. With a hidden
      first token the walk finds nothing, then starts over from EOF; else it goes round the tokens up to `last`. */
  ghost function Beyond(source: seq<Token>, channel: nat, last: nat, m: nat): (i: int)
    requires last < |source|
    ensures -1 <= i < |source| && (Stop(source, channel, 0) ==> i >= 0)
  {
    var f := Filtered(source, channel);
    if Stop(source, channel, 0) then
      KeptGrows(source, channel, last, |source|);
      var back := Around(m, Rank(source, channel, last) + 1);
      if back == 0 then last
      else FilteredRank(source, channel, |source|, Rank(source, channel, last) - back);
           f[Rank(source, channel, last) - back]
    else
      var back := Around(m, |f| + 1);
      if back == 0 then -1
      else FilteredRank(source, channel, |source|, |f| - back); f[|f| - back]
  }

  /** Where n steps back from rank r lead: in the filtered list while it lasts, and then around. */
  ghost predicate Walked(source: seq<Token>, channel: nat, last: nat, r: nat, n: nat, i: int)
    requires WellFormed(source) && r < |Filtered(source, channel)| && last < |source|
  {
    i == if n <= r then Filtered(source, channel)[r - n] else Beyond(source, channel, last, n - r - 1)
  }

  /** What previousTokenOnChannel answers for the size_t below index i. */
  ghost predicate Before(source: seq<Token>, channel: nat, last: nat, i: int, next: int)
    requires WellFormed(source) && -1 <= i < |source|
  {
    && -1 <= next < |source|
    && (i == 0 && Stop(source, channel, 0) ==> next == last)
    && (i == -1 ==> next == |source| - 1)
    && (i > 0 && next >= 0 ==> Stop(source, channel, next) && Rank(source, channel, next) + 1 == Rank(source, channel, i))
    && (i > 0 && next < 0 ==> Rank(source, channel, i) == 0)
  }

  lemma FirstCounts(source: seq<Token>, channel: nat, i: nat)
    requires i < |source| && Stop(source, channel, 0)
    ensures Rank(source, channel, i) == 0 <==> i == 0
  {
    if i > 0 {
      KeptGrows(source, channel, 1, i);
    }
  }

  /** From a token the walk goes to the filtered one before it. */
  lemma BackInList(source: seq<Token>, channel: nat, last: nat, i: nat, next: int)
    requires WellFormed(source) && i < |source| && Before(source, channel, last, i, next)
    ensures var x := Rank(source, channel, i);
      && x <= |Filtered(source, channel)|
      && (x > 0 ==> next == Filtered(source, channel)[x - 1])
      && (x == 0 && !Stop(source, channel, 0) && i > 0 ==> next == -1)
      && (x == 0 && Stop(source, channel, 0) ==> i == 0 && next == last)
  {
    KeptGrows(source, channel, i, |source|);
    if Stop(source, channel, 0) {
      FirstCounts(source, channel, i);
    }
    if i > 0 && next >= 0 {
      RankFinds(source, channel, next);
    }
  }

  /** One more step back. */
  lemma BackStep(source: seq<Token>, channel: nat, last: nat, r: nat, n: nat, i: int, next: int)
    requires WellFormed(source) && r < |Filtered(source, channel)| && -1 <= i < |source| && last < |source|
    requires Walked(source, channel, last, r, n, i) && Before(source, channel, last, i, next)
    ensures Walked(source, channel, last, r, n + 1, next)
  {
    var f := Filtered(source, channel);
    if n <= r {
      FilteredRank(source, channel, |source|, r - n);
      BackInList(source, channel, last, f[r - n], next);
    } else if Stop(source, channel, 0) {
      BackAround(source, channel, last, n - r - 1, i, next);
    } else {
      BackHidden(source, channel, last, n - r - 1, i, next);
    }
  }

  lemma StartWalk(source: seq<Token>, channel: nat, last: nat, i: nat)
    requires WellFormed(source) && i < |source| && last < |source| && Stop(source, channel, i)
    ensures Rank(source, channel, i) < |Filtered(source, channel)|
    ensures Walked(source, channel, last, Rank(source, channel, i), 0, i)
  {
    RankFinds(source, channel, i);
  }

  /** With a hidden first token it does not matter what is buffered. */
  lemma HiddenWalk(source: seq<Token>, channel: nat, last: nat, last': nat, r: nat, n: nat, i: int)
    requires WellFormed(source) && r < |Filtered(source, channel)| && last < |source| && last' < |source|
    requires !Stop(source, channel, 0) && Walked(source, channel, last, r, n, i)
    ensures Walked(source, channel, last', r, n, i)
  {
  }

  lemma BackAround(source: seq<Token>, channel: nat, last: nat, m: nat, i: int, next: int)
    requires WellFormed(source) && -1 <= i < |source| && last < |source| && Stop(source, channel, 0)
    requires i == Beyond(source, channel, last, m) && Before(source, channel, last, i, next)
    ensures next == Beyond(source, channel, last, m + 1)
  {
    KeptGrows(source, channel, last, |source|);
    var c := Rank(source, channel, last) + 1;
    var back := Around(m, c);
    OneStepAround(m, c);
    if back > 0 {
      FilteredRank(source, channel, |source|, c - 1 - back);
    }
    hide Around, Filtered, Rank;
    BackInList(source, channel, last, i, next);
  }

  lemma BackHidden(source: seq<Token>, channel: nat, last: nat, m: nat, i: int, next: int)
    requires WellFormed(source) && -1 <= i < |source| && last < |source| && !Stop(source, channel, 0)
    requires i == Beyond(source, channel, last, m) && Before(source, channel, last, i, next)
    ensures next == Beyond(source, channel, last, m + 1)
  {
    var c := |Filtered(source, channel)| + 1;
    var back := Around(m, c);
    OneStepAround(m, c);
    LastIsEof(source, channel);
    if back > 0 {
      FilteredRank(source, channel, |source|, c - 1 - back);
      BackInList(source, channel, last, i, next);
    }
  }

  class Stream {
    const source: seq<Token>
    const channel: nat
    var tokens: seq<Token>
    var p: nat
    var fetchedEof: bool
    var needSetup: bool

    ghost predicate Buffered()
      reads this
    {
      && WellFormed(source)
      && |tokens| <= |source|
      && (forall i :: 0 <= i < |tokens| ==> tokens[i] == Stamped(source, i))
      && (fetchedEof <==> |tokens| == |source|)
    }

    ghost predicate Valid()
      reads this
    {
      && Buffered()
      && (needSetup ==> tokens == [] && p == 0)
      && (!needSetup ==> p < |tokens| && Stop(source, channel, p))
    }

    /** The cursor's place in the filtered list. */
    ghost function At(): (r: nat)
      requires Valid()
      reads this
      ensures r < |Filtered(source, channel)|
    {
      LastIsEof(source, channel);
      RankFinds(source, channel, if needSetup then |source| - 1 else p);
      if needSetup then 0 else Rank(source, channel, p)
    }

    constructor (source: seq<Token>, channel: nat)
      requires WellFormed(source)
      ensures Valid() && At() == 0 && this.source == source && this.channel == channel && tokens == []
    {
      this.source, this.channel := source, channel;
      tokens, p, fetchedEof, needSetup := [], 0, false, true;
    }

    /** fetch(n): pulls up to n tokens, fewer if EOF comes first. */
    method Fetch(n: nat) returns (fetched: nat)
      requires Buffered()
      modifies this`tokens, this`fetchedEof
      ensures Buffered() && old(tokens) <= tokens
      ensures |tokens| == old(|tokens|) + fetched
      ensures fetched <= n && (fetched < n ==> |tokens| == |source|)
    {
      if fetchedEof {
        return 0;
      }
      fetched := 0;
      while fetched < n
        invariant fetched <= n && Buffered() && old(tokens) <= tokens
        invariant !fetchedEof && |tokens| == old(|tokens|) + fetched
      {
        var t := source[|tokens|].(index := |tokens|);
        tokens := tokens + [t];
        fetched := fetched + 1;
        if t.typ == EOF {
          fetchedEof := true;
          break;
        }
      }
    }

    /** sync(i): true exactly when token i exists, and then it is buffered. Only for the largest size_t it is always
        true, and nothing is fetched. */
    method Sync(i: nat) returns (there: bool)
      requires Buffered() && i < SIZE
      modifies this`tokens, this`fetchedEof
      ensures Buffered() && old(tokens) <= tokens
      ensures i < SIZE - 1 ==> (there <==> i < |source|)
      ensures i < SIZE - 1 ==> |tokens| == if i < |source| then Max(old(|tokens|), i + 1) else |source|
      ensures i == SIZE - 1 ==> there && tokens == old(tokens)
    {
      if (i + 1) % SIZE < |tokens| {
        return true;
      }
      var n := (i - |tokens| + 1) % SIZE;
      if n > 0 {
        var fetched := Fetch(n);
        return fetched >= n;
      }
      return true;
    }

    /** nextTokenOnChannel(i): the first resting place from i on, and for the largest size_t the last buffered token. */
    method NextTokenOnChannel(start: nat) returns (i: int)
      requires Buffered() && start < SIZE
      modifies this`tokens, this`fetchedEof
      ensures Buffered() && old(tokens) <= tokens
      ensures start < SIZE - 1 ==> 0 <= i < |tokens| && Stop(source, channel, i)
      ensures |source| <= start < SIZE - 1 ==> i == |source| - 1
      ensures start < |source| ==> start <= i && Rank(source, channel, i) == Rank(source, channel, start)
      ensures start == SIZE - 1 ==> tokens == old(tokens) && i == |tokens| - 1
      ensures start < SIZE - 1 ==> |tokens| == Max(old(|tokens|), i + 1)
    {
      var _ := Sync(start);
      if start >= |tokens| {
        return |tokens| - 1;
      }
      i := start;
      while tokens[i].channel != channel
        invariant |tokens| == Max(old(|tokens|), i + 1)
        invariant start <= i < |tokens| && Buffered() && old(tokens) <= tokens && start < |source|
        invariant Rank(source, channel, i) == Rank(source, channel, start)
        decreases |source| - i
      {
        if tokens[i].typ == EOF {
          return;
        }
        i := i + 1;
        var _ := Sync(i);
      }
    }

    /** previousTokenOnChannel(i): the last resting place up to i, -1 if there is none, and the last buffered token for
        an index past the end, as a size_t that wrapped around is. */
    method PreviousTokenOnChannel(start: nat) returns (i: int)
      requires Buffered() && start < SIZE && |tokens| > 0
      modifies this`tokens, this`fetchedEof
      ensures Buffered() && old(tokens) <= tokens && -1 <= i < |tokens|
      ensures start < old(|tokens|) ==> tokens == old(tokens)
      ensures start == SIZE - 1 ==> tokens == old(tokens) && i == |tokens| - 1
      ensures |source| <= start < SIZE - 1 ==> i == |source| - 1
      ensures start < |source| && i >= 0 ==>
        i <= start && Stop(source, channel, i) && Rank(source, channel, i) + 1 == Rank(source, channel, start + 1)
      ensures start < |source| && i < 0 ==> Rank(source, channel, start + 1) == 0
    {
      var _ := Sync(start);
      if start >= |tokens| {
        return |tokens| - 1;
      }
      i := start;
      while true
        invariant 0 <= i <= start < |tokens| && Buffered()
        invariant Rank(source, channel, i + 1) == Rank(source, channel, start + 1)
        decreases i
      {
        if tokens[i].typ == EOF || tokens[i].channel == channel {
          return;
        }
        if i == 0 {
          assert !Stop(source, channel, 0) && Kept(source, channel, 0) == [];
          assert Kept(source, channel, 1) == [];
          return -1;
        }
        i := i - 1;
      }
    }

    /** lazyInit() and setup(): the cursor goes to the first resting place. */
    method LazyInit()
      requires Valid()
      modifies this
      ensures Valid() && !needSetup && At() == old(At())
      ensures !old(needSetup) ==> tokens == old(tokens) && p == old(p)
      ensures |tokens| == Max(old(|tokens|), p + 1)
    {
      if needSetup {
        needSetup := false;
        var _ := Sync(0);
        p := NextTokenOnChannel(0);
      }
    }

    /** seek(index): to the first resting place from there on, EOF if there is none. Only the largest size_t leads to the
        last token buffered so far, be it hidden or not. */
    method Seek(index: nat)
      requires Valid() && index < SIZE
      modifies this
      ensures Buffered() && !needSetup && p < |tokens|
      ensures index < SIZE - 1 ==> Valid()
      ensures index < SIZE - 1 ==>
        At() == if index < |source| then Rank(source, channel, index) else |Filtered(source, channel)| - 1
      ensures index == SIZE - 1 ==> p == |tokens| - 1 && (Valid() <==> Stop(source, channel, p))
      ensures index == SIZE - 1 && !old(needSetup) ==> tokens == old(tokens)
      ensures index < SIZE - 1 && !old(needSetup) ==> |tokens| == Max(old(|tokens|), p + 1)
    {
      LazyInit();
      p := NextTokenOnChannel(index);
      LastIsEof(source, channel);
    }

    /** consume(): one step in the filtered list, refused at its end. */
    method Consume() returns (refused: bool)
      requires Valid()
      modifies this
      ensures Valid()
      ensures !needSetup
      ensures refused <==> old(At()) == |Filtered(source, channel)| - 1
      ensures At() == if refused then old(At()) else old(At()) + 1
      ensures |tokens| == Max(old(|tokens|), p + 1)
    {
      LastIsEof(source, channel);
      var skipEofCheck := false;
      if !needSetup {
        RankFinds(source, channel, p);
        if fetchedEof {
          skipEofCheck := p < |tokens| - 1;
        } else {
          skipEofCheck := p < |tokens|;
        }
      }
      if !skipEofCheck {
        var t := LT(1);
        RankFinds(source, channel, p);
        if t.Some? && t.value.typ == EOF {
          return true;
        }
      }
      RankFinds(source, channel, p);
      var more := Sync(p + 1);
      if more {
        p := NextTokenOnChannel(p + 1);
      }
      return false;
    }

    /** One turn of the loop of LT(): from the n-th remaining filtered token to the one after it, if there is one. */
    method Next(i: nat, ghost n: nat) returns (next: nat)
      requires Valid() && !needSetup && i < |tokens| && n > 0
      requires i == Filtered(source, channel)[Ahead(source, channel, At(), n)] && Stop(source, channel, i)
      modifies this`tokens, this`fetchedEof
      ensures Valid() && i <= next && old(tokens) <= tokens && |tokens| == Max(old(|tokens|), next + 1)
      ensures next == Filtered(source, channel)[Ahead(source, channel, At(), n + 1)] && Stop(source, channel, next)
    {
      LastIsEof(source, channel);
      RankFinds(source, channel, i);
      FilteredRank(source, channel, |source|, Ahead(source, channel, At(), n));
      next := i;
      var more := Sync(i + 1);
      if more {
        next := NextTokenOnChannel(i + 1);
        RankFinds(source, channel, next);
      }
    }

    /** LT(k), k >= 1: the k-th of the remaining filtered tokens, EOF past their end. LT(0) is none. */
    method LT(k: nat) returns (t: Option<Token>)
      requires Valid()
      modifies this
      ensures Valid() && At() == old(At()) && !needSetup
      ensures t.None? <==> k == 0
      ensures k > 0 ==> t == Some(Nth(source, channel, Ahead(source, channel, At(), k)))
      ensures k > 0 ==> |tokens| == Max(old(|tokens|), t.value.index + 1)
      ensures !old(needSetup) ==> p == old(p)
    {
      LazyInit();
      LastIsEof(source, channel);
      RankFinds(source, channel, p);
      if k == 0 {
        return None;
      }
      var i, n := p, 1;
      while n < k
        invariant 1 <= n <= k && i < |tokens| && Valid() && !needSetup && At() == old(At())
        invariant i == Filtered(source, channel)[Ahead(source, channel, At(), n)] && Stop(source, channel, i)
        invariant |tokens| == Max(old(|tokens|), i + 1) && (!old(needSetup) ==> p == old(p))
      {
        i := Next(i, n);
        n := n + 1;
      }
      return Some(tokens[i]);
    }

    /** previousTokenOnChannel(i - 1), whose argument wraps to a size_t. */
    method Previous(i: int, ghost last: nat) returns (next: int)
      requires Buffered() && -1 <= i < |tokens| && last < |tokens|
      requires Stop(source, channel, 0) ==> i >= 0 && last == |tokens| - 1
      modifies this`tokens, this`fetchedEof
      ensures Buffered() && old(tokens) <= tokens && -1 <= next < |tokens|
      ensures Stop(source, channel, 0) ==> tokens == old(tokens)
      ensures Before(source, channel, last, i, next)
    {
      next := PreviousTokenOnChannel((i - 1) % SIZE);
    }

    /** The loop of LB(): k steps back from the cursor. */
    method WalkBack(k: nat) returns (i: int)
      requires Valid() && !needSetup && k <= p
      modifies this`tokens, this`fetchedEof
      ensures Valid() && old(tokens) <= tokens && -1 <= i < |tokens|
      ensures Stop(source, channel, 0) ==> tokens == old(tokens)
      ensures Walked(source, channel, |tokens| - 1, At(), k, i)
    {
      RankFinds(source, channel, p);
      ghost var r, last := At(), |tokens| - 1;
      hide Walked, Filtered, Rank;
      StartWalk(source, channel, last, p);
      i := p;
      var n := 0;
      while n < k
        invariant n <= k && -1 <= i < |tokens| && Buffered() && old(tokens) <= tokens
        invariant Stop(source, channel, 0) ==> tokens == old(tokens) && i >= 0
        invariant Walked(source, channel, last, r, n, i)
      {
        var next := Previous(i, last);
        BackStep(source, channel, last, r, n, i, next);
        i, n := next, n + 1;
      }
      if !Stop(source, channel, 0) {
        HiddenWalk(source, channel, last, |tokens| - 1, r, n, i);
      }
    }

    /** LT(-k): the k-th of the filtered tokens before the cursor. None are handed out when k exceeds the cursor's index;
        otherwise, beyond the start of the list, the index wraps around and Beyond says which token is handed out. */
    method LB(k: nat) returns (t: Option<Token>)
      requires Valid() && k < SIZE
      modifies this
      ensures Valid() && At() == old(At()) && !needSetup
      ensures 0 < k <= At() ==> t == Some(Nth(source, channel, At() - k))
      ensures k == 0 || k > p ==> t.None?
      ensures At() < k <= p ==>
        var i := Beyond(source, channel, |tokens| - 1, k - At() - 1);
        t == if i < 0 then None else Some(Stamped(source, i))
    {
      LazyInit();
      RankBounded(source, channel, p);
      if k == 0 || k > p {
        return None;
      }
      var i := WalkBack(k);
      return if i < 0 then None else Some(tokens[i]);
    }
  }

  /** The rank of the first filtered token from index i on, EOF past the end. */
  ghost function RankFrom(source: seq<Token>, channel: nat, i: nat): (r: nat)
    requires WellFormed(source)
    ensures r < |Filtered(source, channel)|
  {
    LastIsEof(source, channel);
    KeptGrows(source, channel, Min(i, |source| - 1), |source| - 1);
    if i < |source| then Rank(source, channel, i) else |Filtered(source, channel)| - 1
  }

  datatype Command = Consume | Seek(index: nat) | LookAhead(k: nat) | LookBehind(k: nat)

  datatype Observation = Moved(refused: bool, index: nat) | Seen(token: Option<Token>)

  /** What the plain filtered list does: the rank of its cursor, and what is seen of it. */
  ghost function Step(source: seq<Token>, channel: nat, r: nat, c: Command): (next: (nat, Observation))
    requires WellFormed(source) && r < |Filtered(source, channel)| && Legal(r, c)
    ensures next.0 < |Filtered(source, channel)|
  {
    var f := Filtered(source, channel);
    match c
    case Consume =>
      if r == |f| - 1 then (r, Moved(true, f[r])) else (r + 1, Moved(false, f[r + 1]))
    case Seek(i) =>
      var to := RankFrom(source, channel, i);
      (to, Moved(false, f[to]))
    case LookAhead(k) =>
      (r, Seen(if k == 0 then None else Some(Nth(source, channel, Ahead(source, channel, r, k)))))
    case LookBehind(k) =>
      (r, Seen(if k == 0 then None else Some(Nth(source, channel, r - k))))
  }

  /** Looking back no further than the list goes (LB says what happens beyond). */
  ghost predicate Legal(r: nat, c: Command) {
    match c
    case Seek(i) => i < SIZE - 1
    case LookBehind(k) => k <= r && k < SIZE
    case _ => true
  }

  /** The cursor starts on the first token of the list, which always holds EOF. */
  ghost function Start(source: seq<Token>, channel: nat): (r: nat)
    requires WellFormed(source)
    ensures r == 0 < |Filtered(source, channel)|
  {
    LastIsEof(source, channel);
    0
  }

  ghost predicate LegalRun(source: seq<Token>, channel: nat, r: nat, cs: seq<Command>)
    requires WellFormed(source) && r < |Filtered(source, channel)|
    decreases |cs|
  {
    cs == [] || (Legal(r, cs[0]) && LegalRun(source, channel, Step(source, channel, r, cs[0]).0, cs[1..]))
  }

  ghost function RunOf(source: seq<Token>, channel: nat, r: nat, cs: seq<Command>): seq<Observation>
    requires WellFormed(source) && r < |Filtered(source, channel)| && LegalRun(source, channel, r, cs)
    decreases |cs|
  {
    if cs == [] then []
    else
      var next := Step(source, channel, r, cs[0]);
      [next.1] + RunOf(source, channel, next.0, cs[1..])
  }

  method Perform(s: Stream, c: Command) returns (o: Observation)
    requires s.Valid() && Legal(s.At(), c)
    modifies s
    ensures s.Valid() && (s.At(), o) == Step(s.source, s.channel, old(s.At()), c)
  {
    match c {
      case Consume =>
        var refused := s.Consume();
        o := Moved(refused, s.p);
        RankFinds(s.source, s.channel, s.p);
      case Seek(i) =>
        s.Seek(i);
        o := Moved(false, s.p);
        LastIsEof(s.source, s.channel);
        RankFinds(s.source, s.channel, s.p);
      case LookAhead(k) =>
        var t := s.LT(k);
        o := Seen(t);
      case LookBehind(k) =>
        var t := s.LB(k);
        o := Seen(t);
    }
  }

  /** Main result. Over every legal run the lazy stream shows exactly what a cursor in the filtered list shows. */
  method Run(source: seq<Token>, channel: nat, cs: seq<Command>) returns (os: seq<Observation>)
    requires WellFormed(source) && LegalRun(source, channel, Start(source, channel), cs)
    ensures os == RunOf(source, channel, Start(source, channel), cs)
  {
    var s := new Stream(source, channel);
    os := [];
    var i := 0;
    assert cs[0..] == cs;
    while i < |cs|
      invariant i <= |cs| && s.source == source && s.channel == channel && fresh(s) && s.Valid()
      invariant LegalRun(source, channel, s.At(), cs[i..])
      invariant os + RunOf(source, channel, s.At(), cs[i..]) == RunOf(source, channel, Start(source, channel), cs)
    {
      assert cs[i..][0] == cs[i] && cs[i..][1..] == cs[i + 1..];
      ghost var next := Step(source, channel, s.At(), cs[i]);
      ghost var rest := RunOf(source, channel, next.0, cs[i + 1..]);
      var o := Perform(s, cs[i]);
      assert os + ([o] + rest) == (os + [o]) + rest;
      os := os + [o];
      i := i + 1;
    }
    assert os + [] == os;
  }

  /** The second of two visible tokens, looked back from twice, is handed out itself. */
  lemma LookBackWraps(a: Token, b: Token, c: Token, d: Token)
    requires a.channel == c.channel == 0 && b.channel != 0
    ensures Rank([a, b, c, d], 0, 2) == 1 && Beyond([a, b, c, d], 0, 2, 0) == 2
  {
    var s := [a, b, c, d];
    assert Kept(s, 0, 1) == [0] == Kept(s, 0, 2);
  }
}
