/** The sliding token window of UnbufferedTokenStream, against a stream that keeps every token. */
module TokenWindow {
  import opened Basics

  datatype Option<+T> = None | Some(value: T)

  datatype Token = Token(isEof: bool, text: string, index: nat)

  datatype StreamError = IllegalState | IllegalArgument | IndexOutOfBounds | UnsupportedOperation

  datatype Result<+T> = Ok(value: T) | Err(error: StreamError)

  /** A token source delivers finitely many tokens and ends in exactly one EOF. */
  ghost predicate IsSource(source: seq<Token>)
  {
    |source| > 0 && forall i :: 0 <= i < |source| ==> (source[i].isEof <==> i == |source| - 1)
  }

  /** The source as the stream hands it out: every token carries its ordinal. */
  function Stamped(source: seq<Token>): (r: seq<Token>)
    ensures |r| == |source|
  {
    seq(|source|, i requires 0 <= i < |source| => source[i].(index := i))
  }

  /** LT(k), k >= 1, of a stream that keeps everything. */
  function Ahead(source: seq<Token>, cur: nat, k: nat): Token
    requires |source| > 0 && k >= 1
  {
    Stamped(source)[Min(cur + k - 1, |source| - 1)]
  }

  /** LT(-1) of a stream that keeps everything. */
  function Behind(source: seq<Token>, cur: nat): Option<Token>
    requires cur <= |source|
  {
    if cur == 0 then None else Some(Stamped(source)[cur - 1])
  }

  class UnbufferedTokenStream {
    const source: seq<Token>
    /** How many tokens the source has delivered. */
    var pos: nat
    var tokens: seq<Token>
    var p: nat
    var numMarkers: int
    var lastToken: Option<Token>
    var lastTokenBufferStart: Option<Token>
    var currentTokenIndex: nat

    /** Where the outermost open mark was taken. */
    ghost var outer: nat
    /** lastToken is the token before the cursor. */
    ghost var behindKnown: bool
    /** lastTokenBufferStart is the token before the window. */
    ghost var startKnown: bool

    function BufferStart(): int
      reads this
    {
      currentTokenIndex - p
    }

    /** The window is exactly a slice of the stamped source. */
    ghost predicate Window()
      reads this
    {
      && IsSource(source)
      && p <= currentTokenIndex && p <= |tokens|
      && pos == BufferStart() + |tokens| <= |source|
      && (|tokens| == 0 ==> pos < |source|)
      && tokens == Stamped(source)[BufferStart()..pos]
    }

    ghost predicate Valid()
      reads this
    {
      && Window()
      && p < |tokens|
      && (behindKnown ==> lastToken == Behind(source, currentTokenIndex))
      && (startKnown ==> lastTokenBufferStart == Behind(source, BufferStart()))
      && (numMarkers > 0 ==> BufferStart() <= outer)
    }

    constructor (source: seq<Token>)
      requires IsSource(source)
      ensures Valid() && this.source == source && fresh(this)
      ensures currentTokenIndex == 0 && numMarkers == 0 && behindKnown && startKnown && pos == 1
    {
      this.source := source;
      pos, tokens, p, numMarkers, currentTokenIndex := 0, [], 0, 0, 0;
      lastToken, lastTokenBufferStart := None, None;
      outer, behindKnown, startKnown := 0, true, true;
      new;
      var _ := Fill(1);
    }

    method Add(t: Token)
      modifies this`tokens
      requires p <= currentTokenIndex
      ensures tokens == old(tokens) + [t.(index := BufferStart() + |old(tokens)|)]
    {
      tokens := tokens + [t.(index := currentTokenIndex - p + |tokens|)];
    }

    /** Fetches n more tokens, stopping at EOF. */
    method Fill(n: nat) returns (added: nat)
      requires Window()
      modifies this`tokens, this`pos
      ensures Window()
      ensures pos == Min(old(pos) + n, |source|) && added == pos - old(pos)
    {
      var i := 0;
      while i < n
        invariant i <= n && Window() && pos == old(pos) + i
      {
        if |tokens| > 0 && tokens[|tokens| - 1].isEof {
          assert source[pos - 1].isEof;
          return i;
        }
        assert pos < |source| by {
          if |tokens| > 0 { assert tokens[|tokens| - 1] == Stamped(source)[pos - 1]; }
        }
        ghost var b := BufferStart();
        Add(source[pos]);
        pos := pos + 1;
        assert Stamped(source)[b..pos] == Stamped(source)[b..pos - 1] + [Stamped(source)[pos - 1]];
        i := i + 1;
      }
      return n;
    }

    /** Makes sure the want-th token from the cursor on is in the window, if there is one. */
    method Sync(want: int)
      requires Window()
      modifies this`tokens, this`pos
      ensures Window()
      ensures pos == Max(old(pos), Min(if currentTokenIndex + want > 0 then currentTokenIndex + want else 0, |source|))
    {
      var need := p + want - 1 - |tokens| + 1;
      if need > 0 {
        var _ := Fill(need);
      }
    }

    method LT(i: int) returns (r: Result<Option<Token>>)
      requires Valid()
      modifies this`tokens, this`pos
      ensures Valid()
      ensures pos == if i >= 1 then Max(old(pos), Min(currentTokenIndex + i, |source|)) else old(pos)
      ensures i == -1 ==> r == Ok(lastToken)
      ensures i == -1 && behindKnown ==> r == Ok(Behind(source, currentTokenIndex))
      ensures i >= 1 ==> r == Ok(Some(Ahead(source, currentTokenIndex, i)))
      ensures i == 0 || i < -1 ==>
        r == if p + i - 1 < 0 then Err(IndexOutOfBounds) else Ok(Some(Stamped(source)[currentTokenIndex + i - 1]))
    {
      if i == -1 {
        return Ok(lastToken);
      }
      Sync(i);
      var index := p + i - 1;
      if index < 0 {
        return Err(IndexOutOfBounds);
      }
      if index >= |tokens| {
        return Ok(Some(tokens[|tokens| - 1]));
      }
      return Ok(Some(tokens[index]));
    }

    method Consume() returns (r: Result<()>)
      requires Valid()
      modifies this
      ensures Valid() && numMarkers == old(numMarkers)
      ensures r.Ok? <==> !source[old(currentTokenIndex)].isEof
      ensures r.Err? ==> r.error == IllegalState && unchanged(this)
      ensures r.Ok? ==> currentTokenIndex == old(currentTokenIndex) + 1 && behindKnown
      ensures r.Ok? ==> pos == Max(old(pos), currentTokenIndex + 1)
      ensures r.Ok? && numMarkers == 0 && old(p) == |old(tokens)| - 1 ==> BufferStart() == currentTokenIndex && startKnown
      ensures r.Ok? && (numMarkers > 0 || old(p) < |old(tokens)| - 1) ==>
        BufferStart() == old(BufferStart()) && outer == old(outer) && startKnown == old(startKnown)
    {
      var t := LT(1);
      if t.value.value.isEof {
        return Err(IllegalState);
      }
      Advance();
      Sync(1);
      return Ok(());
    }

    /** Moves the cursor past a token that is not EOF; an unmarked window that has been read to its
        end is emptied. */
    method Advance()
      requires Valid() && !source[currentTokenIndex].isEof
      modifies this
      ensures Window() && numMarkers == old(numMarkers) && pos == old(pos)
      ensures currentTokenIndex == old(currentTokenIndex) + 1 <= pos
      ensures behindKnown && lastToken == Behind(source, currentTokenIndex)
      ensures startKnown ==> lastTokenBufferStart == Behind(source, BufferStart())
      ensures old(p) == |old(tokens)| - 1 && numMarkers == 0 ==> tokens == [] && p == 0 && startKnown
      ensures old(p) < |old(tokens)| - 1 || numMarkers != 0 ==> tokens == old(tokens) && p == old(p) + 1
      ensures tokens != [] ==> BufferStart() == old(BufferStart()) && outer == old(outer) && startKnown == old(startKnown)
    {
      assert tokens[p] == Stamped(source)[currentTokenIndex];
      lastToken := Some(tokens[p]);
      behindKnown := true;
      if p == |tokens| - 1 && numMarkers == 0 {
        assert source[pos - 1] == source[currentTokenIndex];
        tokens := [];
        p := 0;
        lastTokenBufferStart := lastToken;
        startKnown := true;
      } else {
        p := p + 1;
      }
      currentTokenIndex := currentTokenIndex + 1;
    }

    method Mark() returns (marker: int)
      requires Valid()
      modifies this`numMarkers, this`lastTokenBufferStart, this`outer, this`startKnown
      ensures Valid()
      ensures marker == -old(numMarkers) - 1 && numMarkers == old(numMarkers) + 1
      ensures outer == if old(numMarkers) == 0 then currentTokenIndex else old(outer)
      ensures old(numMarkers) == 0 && behindKnown && outer == BufferStart() ==> startKnown
      ensures old(numMarkers) > 0 ==> startKnown == old(startKnown)
      ensures lastTokenBufferStart == if old(numMarkers) == 0 then lastToken else old(lastTokenBufferStart)
    {
      if numMarkers == 0 {
        lastTokenBufferStart := lastToken;
        startKnown := behindKnown && p == 0;
        outer := currentTokenIndex;
      }
      marker := -numMarkers - 1;
      numMarkers := numMarkers + 1;
    }

    method Release(marker: int) returns (r: Result<()>)
      requires Valid()
      modifies this
      ensures Valid()
      ensures behindKnown == old(behindKnown) && currentTokenIndex == old(currentTokenIndex) && pos == old(pos)
      ensures r.Ok? <==> marker == -old(numMarkers)
      ensures r.Err? ==> r.error == IllegalState && unchanged(this)
      ensures r.Ok? ==> numMarkers == old(numMarkers) - 1 && lastToken == old(lastToken)
      ensures numMarkers > 0 ==> BufferStart() == old(BufferStart()) && outer == old(outer) && startKnown == old(startKnown)
      ensures r.Ok? ==> lastTokenBufferStart == if numMarkers == 0 then lastToken else old(lastTokenBufferStart)
      ensures r.Ok? && numMarkers == 0 ==> p == 0 && startKnown == behindKnown
    {
      if marker != -numMarkers {
        return Err(IllegalState);
      }
      numMarkers := numMarkers - 1;
      if numMarkers == 0 {
        if p > 0 {
          tokens := tokens[p..];
          p := 0;
        }
        lastTokenBufferStart := lastToken;
        startKnown := behindKnown;
      }
      return Ok(());
    }

    /** Where a seek lands: what is buffered, or one short of the target when it had to fetch. */
    ghost function Landing(index: nat): nat
      reads this
    {
      if index <= currentTokenIndex then index
      else Min(index, Max(Max(pos, 1), Min(index, |source|)) - 1)
    }

    /** How far a seek reads: up to the token before the target. */
    ghost function Fetched(index: nat): nat
      reads this
    {
      if index <= currentTokenIndex then pos else Max(pos, Min(index, |source|))
    }

    /** Fetches up to the target and clips it to what is then buffered. */
    method Reach(index: nat) returns (target: nat)
      requires Valid()
      modifies this`tokens, this`pos
      ensures Valid() && pos == old(Fetched(index))
      ensures target == old(Landing(index)) < pos
    {
      target := index;
      if index > currentTokenIndex {
        Sync(index - currentTokenIndex);
        target := Min(index, currentTokenIndex - p + |tokens| - 1);
      }
    }

    method Seek(index: nat) returns (r: Result<()>)
      requires Valid()
      modifies this
      ensures Valid() && numMarkers == old(numMarkers) && outer == old(outer) && pos == old(Fetched(index))
      ensures BufferStart() == old(BufferStart()) && startKnown == old(startKnown)
      ensures lastTokenBufferStart == old(lastTokenBufferStart)
      ensures r.Ok? <==> old(BufferStart()) <= index
      ensures r.Ok? ==> currentTokenIndex == old(Landing(index))
      ensures r.Ok? ==> (currentTokenIndex == Min(index, |source| - 1) <==> index < old(pos) || index >= |source|)
      ensures r.Err? ==> r.error == IllegalArgument && unchanged(this)
      ensures behindKnown ==
        if currentTokenIndex == old(currentTokenIndex) && (r.Err? || index == currentTokenIndex) then old(behindKnown)
        else p > 0 || startKnown
    {
      if index == currentTokenIndex {
        return Ok(());
      }
      LandingExact(currentTokenIndex, pos, |source|, index);
      var target := Reach(index);
      var bufferStartIndex := currentTokenIndex - p;
      if bufferStartIndex > target {
        return Err(IllegalArgument);
      }
      var i := target - bufferStartIndex;
      if i >= |tokens| {
        return Err(UnsupportedOperation);
      }
      MoveTo(i);
      return Ok(());
    }

    /** Puts the cursor at offset i of the window. */
    method MoveTo(i: nat)
      requires Valid() && i < |tokens|
      modifies this`p, this`currentTokenIndex, this`lastToken, this`behindKnown
      ensures Valid() && p == i && currentTokenIndex == old(BufferStart()) + i
      ensures behindKnown == (p > 0 || startKnown)
    {
      currentTokenIndex := currentTokenIndex - p + i;
      p := i;
      if p == 0 {
        lastToken := lastTokenBufferStart;
        behindKnown := startKnown;
      } else {
        lastToken := Some(tokens[p - 1]);
        behindKnown := true;
      }
    }
  }

  /** Seeking lands where it was asked to exactly when the target was buffered, or lies past EOF. */
  lemma LandingExact(cur: nat, pos: nat, end: nat, index: nat)
    requires cur < pos <= end
    ensures var landing := if index <= cur then index else Min(index, Max(Max(pos, 1), Min(index, end)) - 1);
      landing == Min(index, end - 1) <==> index < pos || index >= end
  {
  }

  /** On a fresh stream a seek to token 2 lands on token 1. */
  method SeekFallsShort(source: seq<Token>) returns (at: nat)
    requires IsSource(source) && |source| > 2
    ensures at == 1
  {
    var s := new UnbufferedTokenStream(source);
    var _ := s.Seek(2);
    at := s.currentTokenIndex;
  }

  // ---------------------------------------------------------------- whole runs

  datatype Command = Consume | LookAhead(k: nat) | LookBehind | Mark | Release | Seek(index: nat)

  datatype Observation =
    | Moved(ok: bool, at: nat)
    | Seen(token: Option<Token>)
    | Marker(value: int)

  /** A stream that keeps every token: a cursor, the open marks, and the furthest index reached. */
  datatype Reference = Reference(cur: nat, marks: seq<nat>, far: nat)

  /** The protocol: lookahead is positive, releases match marks, and seeks stay between the
      outermost open mark and the furthest index reached. */
  ghost predicate Legal(ref: Reference, c: Command)
  {
    match c
    case LookAhead(k) => k >= 1
    case Release => ref.marks != []
    case Seek(i) => ref.marks != [] && ref.marks[0] <= i <= ref.far
    case _ => true
  }

  function Step(source: seq<Token>, ref: Reference, c: Command): (Reference, Observation)
    requires ref.cur < |source|
    requires c.LookAhead? ==> c.k >= 1
    requires c.Release? ==> ref.marks != []
  {
    match c
    case Consume =>
      if source[ref.cur].isEof then (ref, Moved(false, ref.cur))
      else (ref.(cur := ref.cur + 1, far := Max(ref.far, ref.cur + 1)), Moved(true, ref.cur + 1))
    case LookAhead(k) => (ref, Seen(Some(Ahead(source, ref.cur, k))))
    case LookBehind => (ref, Seen(Behind(source, ref.cur)))
    case Mark => (ref.(marks := ref.marks + [ref.cur]), Marker(-|ref.marks| - 1))
    case Release => (ref.(marks := ref.marks[..|ref.marks| - 1]), Moved(true, ref.cur))
    case Seek(i) => (ref.(cur := i), Moved(true, i))
  }

  ghost predicate Inside(source: seq<Token>, ref: Reference)
  {
    ref.cur <= ref.far < |source| && (ref.marks != [] ==> ref.marks[0] <= ref.cur)
  }

  lemma StepInside(source: seq<Token>, ref: Reference, c: Command)
    requires IsSource(source) && Inside(source, ref) && Legal(ref, c)
    ensures Inside(source, Step(source, ref, c).0)
  {
  }

  /** The run stays within the protocol. */
  ghost predicate LegalRun(source: seq<Token>, ref: Reference, cs: seq<Command>)
    requires IsSource(source) && Inside(source, ref)
    decreases |cs|
  {
    cs == [] ||
    (Legal(ref, cs[0]) &&
     (StepInside(source, ref, cs[0]); LegalRun(source, Step(source, ref, cs[0]).0, cs[1..])))
  }

  /** What the reference stream shows over a whole run. */
  ghost function RunOf(source: seq<Token>, ref: Reference, cs: seq<Command>): seq<Observation>
    requires IsSource(source) && Inside(source, ref) && LegalRun(source, ref, cs)
    decreases |cs|
  {
    if cs == [] then []
    else
      StepInside(source, ref, cs[0]);
      var (ref', o) := Step(source, ref, cs[0]);
      [o] + RunOf(source, ref', cs[1..])
  }

  /** One command of a run, with what was seen before it. */
  lemma RunOfNext(source: seq<Token>, ref: Reference, cs: seq<Command>, i: nat, os: seq<Observation>)
    requires IsSource(source) && Inside(source, ref) && i < |cs| && LegalRun(source, ref, cs[i..])
    ensures Legal(ref, cs[i])
    ensures var (next, o) := Step(source, ref, cs[i]);
      && Inside(source, next) && LegalRun(source, next, cs[i + 1..])
      && os + RunOf(source, ref, cs[i..]) == (os + [o]) + RunOf(source, next, cs[i + 1..])
  {
    assert cs[i..][0] == cs[i] && cs[i..][1..] == cs[i + 1..];
    StepInside(source, ref, cs[i]);
    var (next, o) := Step(source, ref, cs[i]);
    var rest := RunOf(source, next, cs[i + 1..]);
    assert os + ([o] + rest) == (os + [o]) + rest;
  }

  /** The stream is where the reference is, and knows what a legal seek will need. */
  ghost predicate Tracks(s: UnbufferedTokenStream, ref: Reference)
    reads s
  {
    && s.Valid() && Inside(s.source, ref)
    && s.currentTokenIndex == ref.cur && s.numMarkers == |ref.marks| && ref.far < s.pos
    && s.behindKnown
    && (ref.marks != [] ==> s.outer == ref.marks[0] && (s.outer == s.BufferStart() ==> s.startKnown))
  }

  method PerformConsume(s: UnbufferedTokenStream, ghost ref: Reference) returns (o: Observation)
    requires Tracks(s, ref)
    modifies s
    ensures Tracks(s, Step(s.source, ref, Consume).0) && o == Step(s.source, ref, Consume).1
  {
    var r := s.Consume();
    o := Moved(r.Ok?, s.currentTokenIndex);
  }

  method PerformLook(s: UnbufferedTokenStream, i: int, ghost ref: Reference) returns (o: Observation)
    requires Tracks(s, ref) && (i == -1 || i >= 1)
    modifies s
    ensures Tracks(s, ref)
    ensures o == Seen(if i == -1 then Behind(s.source, ref.cur) else Some(Ahead(s.source, ref.cur, i)))
  {
    var r := s.LT(i);
    o := Seen(r.value);
  }

  method PerformMark(s: UnbufferedTokenStream, ghost ref: Reference) returns (o: Observation)
    requires Tracks(s, ref)
    modifies s
    ensures Tracks(s, Step(s.source, ref, Mark).0) && o == Step(s.source, ref, Mark).1
  {
    var m := s.Mark();
    o := Marker(m);
  }

  method PerformRelease(s: UnbufferedTokenStream, ghost ref: Reference) returns (o: Observation)
    requires Tracks(s, ref) && ref.marks != []
    modifies s
    ensures Tracks(s, Step(s.source, ref, Release).0) && o == Step(s.source, ref, Release).1
  {
    var r := s.Release(-s.numMarkers);
    o := Moved(r.Ok?, s.currentTokenIndex);
  }

  method PerformSeek(s: UnbufferedTokenStream, index: nat, ghost ref: Reference) returns (o: Observation)
    requires Tracks(s, ref) && Legal(ref, Seek(index))
    modifies s
    ensures Tracks(s, Step(s.source, ref, Seek(index)).0) && o == Step(s.source, ref, Seek(index)).1
  {
    var r := s.Seek(index);
    o := Moved(r.Ok?, s.currentTokenIndex);
  }

  method Perform(s: UnbufferedTokenStream, c: Command, ghost ref: Reference) returns (o: Observation)
    requires Tracks(s, ref) && Legal(ref, c)
    modifies s
    ensures Tracks(s, Step(s.source, ref, c).0)
    ensures o == Step(s.source, ref, c).1
  {
    hide Tracks;
    match c {
      case Consume => o := PerformConsume(s, ref);
      case LookAhead(k) => o := PerformLook(s, k, ref);
      case LookBehind => o := PerformLook(s, -1, ref);
      case Mark => o := PerformMark(s, ref);
      case Release => o := PerformRelease(s, ref);
      case Seek(i) => o := PerformSeek(s, i, ref);
    }
  }

  /** Main result. Over every legal run the windowed stream shows exactly what a stream that keeps
      every token shows. Tokens are values here: LT(-1) right after an unmarked flush shows the token
      that was flushed, where the code's pointer no longer points to a live one. */
  method Run(source: seq<Token>, cs: seq<Command>) returns (os: seq<Observation>)
    requires IsSource(source) && LegalRun(source, Reference(0, [], 0), cs)
    ensures os == RunOf(source, Reference(0, [], 0), cs)
  {
    var s := new UnbufferedTokenStream(source);
    ghost var ref := Reference(0, [], 0);
    os := [];
    var i := 0;
    assert cs[0..] == cs && os + RunOf(source, ref, cs) == RunOf(source, ref, cs) && Tracks(s, ref);
    hide Tracks, LegalRun, Step;
    while i < |cs|
      invariant i <= |cs| && s.source == source && fresh(s)
      invariant Tracks(s, ref) && Inside(source, ref) && LegalRun(source, ref, cs[i..])
      invariant os + RunOf(source, ref, cs[i..]) == RunOf(source, Reference(0, [], 0), cs)
    {
      RunOfNext(source, ref, cs, i, os);
      var o := Perform(s, cs[i], ref);
      ref := Step(source, ref, cs[i]).0;
      os := os + [o];
      i := i + 1;
    }
    assert os + [] == os;
  }
}
