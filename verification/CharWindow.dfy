/** The sliding character window of UnbufferedCharStream against the fully loaded ANTLRInputStream. */
module CharWindow {
  import opened Basics

  const EOF: nat := 0xFFFF_FFFF_FFFF_FFFF
  /** The unit after which fill() stops asking for more. */
  const SENTINEL: nat := 0xFFFF

  datatype StreamError = IllegalState | IllegalArgument | IndexOutOfBounds | UnsupportedOperation

  datatype Result<+T> = Ok(value: T) | Err(error: StreamError)

  /** What the wide input stream delivers: its characters, then eof forever. */
  function Unit(input: seq<nat>, eof: nat, i: nat): nat
  {
    if i < |input| then input[i] else eof
  }

  /** The units a..b of it. */
  function Units(input: seq<nat>, eof: nat, a: nat, b: int): (u: seq<nat>)
    requires a - 1 <= b
    ensures |u| == b - a + 1 && forall j :: 0 <= j < |u| ==> u[j] == Unit(input, eof, a + j)
    decreases b - a + 1
  {
    if b < a then [] else Units(input, eof, a, b - 1) + [Unit(input, eof, b)]
  }

  /** An input never contains the value its platform uses for eof (0xFFFF or 0xFFFFFFFF). */
  predicate IsInput(input: seq<nat>, eof: nat)
  {
    eof !in input && EOF !in input
  }

  class UnbufferedCharStream {
    const input: seq<nat>
    const eof: nat
    var data: seq<nat>
    var p: nat
    /** The signed view of the source's unsigned counter. */
    var numMarkers: int
    var lastChar: nat
    var lastCharBufferStart: nat
    var currentCharIndex: nat

    /** Where the outermost open mark was taken. */
    ghost var outer: nat
    /** lastChar is the character before the cursor, when there is one. */
    ghost var behindKnown: bool
    /** lastCharBufferStart is the character before the window, when there is one. */
    ghost var startKnown: bool

    function BufferStart(): int
      reads this
    {
      currentCharIndex - p
    }

    /** How many units the input has delivered. */
    function Pos(): int
      reads this
    {
      BufferStart() + |data|
    }

    ghost predicate Window()
      reads this
    {
      && IsInput(input, eof)
      && p <= currentCharIndex && p <= |data|
      && (forall j :: 0 <= j < |data| ==> data[j] == Unit(input, eof, BufferStart() + j))
      && (forall j :: 0 <= j < |data| - 1 ==> data[j] != SENTINEL)
    }

    ghost predicate Valid()
      reads this
    {
      && Window()
      && (behindKnown && currentCharIndex > 0 ==> lastChar == Unit(input, eof, currentCharIndex - 1))
      && (startKnown && BufferStart() > 0 ==> lastCharBufferStart == Unit(input, eof, BufferStart() - 1))
      && (numMarkers > 0 ==> BufferStart() <= outer)
    }

    constructor (input: seq<nat>, eof: nat)
      requires IsInput(input, eof)
      ensures Valid() && this.input == input && this.eof == eof
      ensures currentCharIndex == 0 && numMarkers == 0 && behindKnown && startKnown && p == 0 && Pos() == 1
      ensures lastChar == lastCharBufferStart == 0
    {
      this.input, this.eof := input, eof;
      data, p, numMarkers, currentCharIndex := [], 0, 0, 0;
      lastChar, lastCharBufferStart := 0, 0;
      outer, behindKnown, startKnown := 0, true, true;
      new;
      var _ := Fill(1);
    }

    /** Nothing more is read after a sentinel, while it is in the window. */
    ghost predicate Stopped()
      reads this
    {
      |data| > 0 && data[|data| - 1] == SENTINEL
    }

    /** Reads n more units, stopping after a sentinel. */
    method Fill(n: nat) returns (added: nat)
      requires Window()
      modifies this`data
      ensures Window()
      ensures added <= n && Pos() == old(Pos()) + added && old(data) <= data
      ensures added < n ==> Stopped()
    {
      var i := 0;
      while i < n
        invariant i <= n && Window() && Pos() == old(Pos()) + i && old(data) <= data
      {
        if |data| > 0 && data[|data| - 1] == SENTINEL {
          return i;
        }
        data := data + [Unit(input, eof, currentCharIndex - p + |data|)];
        i := i + 1;
      }
      return n;
    }

    /** Makes sure the want-th character from the cursor on is in the window. */
    method Sync(want: nat)
      requires Window()
      modifies this`data
      ensures Window() && old(data) <= data
      ensures Pos() <= Max(old(Pos()), currentCharIndex + want)
      ensures Pos() < currentCharIndex + want ==> Stopped()
    {
      if p + want <= |data| {
        return;
      }
      var _ := Fill(p + want - |data|);
    }

    method LA(i: int) returns (r: Result<nat>)
      requires Valid()
      modifies this`data
      ensures Valid() && old(data) <= data
      ensures i <= 0 ==> data == old(data)
      ensures i == -1 ==> r == Ok(lastChar)
      ensures i > 0 ==> Pos() <= Max(old(Pos()), currentCharIndex + i)
      ensures i > 0 ==> r == Ok(
        if currentCharIndex + i - 1 < Pos() && currentCharIndex + i - 1 < |input|
        then input[currentCharIndex + i - 1] else EOF)
      ensures i > 0 && Pos() < currentCharIndex + i ==> Stopped()
      ensures i == 0 || i < -1 ==>
        r == (if p + i - 1 < 0 then Err(IndexOutOfBounds)
              else Ok(if currentCharIndex + i - 1 < |input| then input[currentCharIndex + i - 1] else EOF))
    {
      if i == -1 {
        return Ok(lastChar);
      }
      var index := p + i - 1;
      if index < 0 {
        return Err(IndexOutOfBounds);
      }
      if i > 0 {
        Sync(i);
      }
      if index >= |data| {
        return Ok(EOF);
      }
      if data[index] == eof {
        return Ok(EOF);
      }
      return Ok(data[index]);
    }

    method Consume() returns (r: Result<()>)
      requires Valid()
      modifies this
      ensures Valid() && numMarkers == old(numMarkers) && old(Pos()) <= Pos()
      ensures r.Ok? <==> old(currentCharIndex) < |input| && (old(currentCharIndex) < old(Pos()) || !old(Stopped()))
      ensures r.Err? ==> r.error == IllegalState && unchanged(this`p, this`currentCharIndex, this`lastChar)
      ensures r.Err? ==> unchanged(this`lastCharBufferStart, this`outer, this`behindKnown, this`startKnown)
      ensures Pos() <= Max(old(Pos()), currentCharIndex + 1)
      ensures r.Ok? ==> currentCharIndex == old(currentCharIndex) + 1 <= |input| && behindKnown
      ensures numMarkers > 0 ==> BufferStart() == old(BufferStart()) && outer == old(outer) && startKnown == old(startKnown)
      ensures r.Ok? && old(p) < |old(data)| - 1 ==> BufferStart() == old(BufferStart())
      ensures r.Ok? && numMarkers == 0 && old(p) >= |old(data)| - 1 ==> BufferStart() == currentCharIndex && startKnown
      ensures currentCharIndex < Pos() || Stopped()
      ensures SENTINEL !in input ==> (r.Ok? <==> old(currentCharIndex) < |input|)
      ensures SENTINEL !in input && old(currentCharIndex) <= |input| ==> currentCharIndex < Pos()
    {
      var c := LA(1);
      if c.value == EOF {
        NoSentinel();
        return Err(IllegalState);
      }
      Advance();
      Sync(1);
      NoSentinel();
      return Ok(());
    }

    /** Without U+FFFF in the input, only a 16-bit eof stops the reading, one past the end. */
    lemma NoSentinel()
      requires Window()
      ensures SENTINEL !in input && Stopped() ==> Pos() > |input| && eof == SENTINEL
    {
    }

    /** Moves the cursor past a character; an unmarked window that has been read to its end is emptied. */
    method Advance()
      requires Valid() && currentCharIndex < Pos() && currentCharIndex < |input|
      modifies this
      ensures Window() && numMarkers == old(numMarkers) && Pos() == old(Pos())
      ensures currentCharIndex == old(currentCharIndex) + 1
      ensures behindKnown && lastChar == Unit(input, eof, currentCharIndex - 1)
      ensures startKnown && BufferStart() > 0 ==> lastCharBufferStart == Unit(input, eof, BufferStart() - 1)
      ensures old(p) == |old(data)| - 1 && numMarkers == 0 ==> data == [] && p == 0 && startKnown
      ensures old(p) < |old(data)| - 1 || numMarkers != 0 ==> data == old(data) && p == old(p) + 1
      ensures data != [] ==> BufferStart() == old(BufferStart()) && outer == old(outer) && startKnown == old(startKnown)
    {
      lastChar := data[p];
      behindKnown := true;
      if p == |data| - 1 && numMarkers == 0 {
        data := [];
        p := 0;
        lastCharBufferStart := lastChar;
        startKnown := true;
      } else {
        p := p + 1;
      }
      currentCharIndex := currentCharIndex + 1;
    }

    method Mark() returns (marker: int)
      requires Valid()
      modifies this`numMarkers, this`lastCharBufferStart, this`outer, this`startKnown
      ensures Valid()
      ensures marker == -old(numMarkers) - 1 && numMarkers == old(numMarkers) + 1
      ensures outer == if old(numMarkers) == 0 then currentCharIndex else old(outer)
      ensures old(numMarkers) == 0 && behindKnown && outer == BufferStart() ==> startKnown
      ensures old(numMarkers) > 0 ==> startKnown == old(startKnown)
      ensures lastCharBufferStart == if old(numMarkers) == 0 then lastChar else old(lastCharBufferStart)
    {
      if numMarkers == 0 {
        lastCharBufferStart := lastChar;
        startKnown := behindKnown && p == 0;
        outer := currentCharIndex;
      }
      marker := -numMarkers - 1;
      numMarkers := numMarkers + 1;
    }

    method Release(marker: int) returns (r: Result<()>)
      requires Valid()
      modifies this
      ensures Valid()
      ensures behindKnown == old(behindKnown) && currentCharIndex == old(currentCharIndex) && Pos() == old(Pos())
      ensures r.Ok? <==> marker == -old(numMarkers)
      ensures r.Err? ==> r.error == IllegalState && unchanged(this)
      ensures r.Ok? ==> numMarkers == old(numMarkers) - 1 && lastChar == old(lastChar)
      ensures numMarkers > 0 ==> BufferStart() == old(BufferStart()) && outer == old(outer) && startKnown == old(startKnown)
      ensures r.Ok? ==> lastCharBufferStart == if numMarkers == 0 && old(p) > 0 then lastChar else old(lastCharBufferStart)
      ensures r.Ok? && numMarkers == 0 ==> p == 0
    {
      if marker != -numMarkers {
        return Err(IllegalState);
      }
      numMarkers := numMarkers - 1;
      if numMarkers == 0 && p > 0 {
        data := data[p..];
        p := 0;
        lastCharBufferStart := lastChar;
        startKnown := behindKnown;
      }
      return Ok(());
    }

    method Seek(index: nat) returns (r: Result<()>)
      requires Valid()
      modifies this
      ensures Valid() && numMarkers == old(numMarkers) && outer == old(outer) && old(Pos()) <= Pos()
      ensures BufferStart() == old(BufferStart()) && startKnown == old(startKnown)
      ensures lastCharBufferStart == old(lastCharBufferStart) && old(data) <= data
      ensures Pos() <= Max(old(Pos()), index) && (index <= old(currentCharIndex) ==> data == old(data))
      ensures old(currentCharIndex) < index && Pos() < index ==> Stopped()
      ensures var target := if index <= old(currentCharIndex) then index else Min(index, Pos() - 1);
        && r == (if index == old(currentCharIndex) || BufferStart() <= target < Pos() then Ok(())
                 else if target < BufferStart() then Err(IllegalArgument)
                 else Err(UnsupportedOperation))
        && (r.Ok? ==> currentCharIndex == target)
      ensures r.Err? || index == old(currentCharIndex) ==> unchanged(this`p, this`currentCharIndex, this`lastChar)
      ensures behindKnown ==
        if currentCharIndex == old(currentCharIndex) && (r.Err? || index == currentCharIndex) then old(behindKnown)
        else p > 0 || startKnown
    {
      if index == currentCharIndex {
        return Ok(());
      }
      var target: int := index;
      if index > currentCharIndex {
        Sync(index - currentCharIndex);
        target := Min(index, currentCharIndex - p + |data| - 1);
      }
      var i := target - (currentCharIndex - p);
      if i < 0 {
        return Err(IllegalArgument);
      } else if i >= |data| {
        return Err(UnsupportedOperation);
      }
      MoveTo(i);
      return Ok(());
    }

    /** Puts the cursor at offset i of the window. */
    method MoveTo(i: nat)
      requires Valid() && i < |data|
      modifies this`p, this`currentCharIndex, this`lastChar, this`behindKnown
      ensures Valid() && p == i && currentCharIndex == old(BufferStart()) + i
      ensures behindKnown == (p > 0 || startKnown)
    {
      currentCharIndex := currentCharIndex - p + i;
      p := i;
      if p == 0 {
        lastChar := lastCharBufferStart;
        behindKnown := startKnown;
      } else {
        lastChar := data[p - 1];
        behindKnown := true;
      }
    }

    /** The code points of an interval; encoding them as UTF-8 is left to the caller. */
    method GetText(a: int, b: int) returns (r: Result<seq<nat>>)
      requires Valid()
      ensures a < 0 || b < a - 1 ==> r == Err(IllegalArgument)
      ensures 0 <= a <= b + 1 ==>
        r == (if b >= Pos() && Stopped() then Err(IllegalArgument)
              else if a < BufferStart() || b >= Pos() then Err(UnsupportedOperation)
              else Ok(Units(input, eof, a, b)))
    {
      if a < 0 || b < a - 1 {
        return Err(IllegalArgument);
      }
      var bufferStartIndex := currentCharIndex - p;
      var length := if b >= a then b - a + 1 else 0;
      if |data| > 0 && data[|data| - 1] == SENTINEL {
        if a + length > bufferStartIndex + |data| {
          return Err(IllegalArgument);
        }
      }
      if a < bufferStartIndex || b >= bufferStartIndex + |data| {
        return Err(UnsupportedOperation);
      }
      var i := a - bufferStartIndex;
      var text := data[i..Min(i + length, |data|)];
      assert text == Units(input, eof, a, b);
      return Ok(text);
    }
  }

  /** The reference: the whole input in memory and a cursor. */
  class ANTLRInputStream {
    const data: seq<nat>
    var p: nat

    constructor (data: seq<nat>)
      ensures this.data == data && p == 0
    {
      this.data, p := data, 0;
    }

    method Consume() returns (r: Result<()>)
      modifies this
      ensures r == if old(p) < |data| then Ok(()) else Err(IllegalState)
      ensures p == if old(p) < |data| then old(p) + 1 else old(p)
    {
      if p >= |data| {
        return Err(IllegalState);
      }
      p := p + 1;
      return Ok(());
    }

    method LA(i: int) returns (r: nat)
      ensures i > 0 ==> r == if p + i - 1 < |data| then data[p + i - 1] else EOF
      ensures i == 0 ==> r == 0
      ensures i < 0 ==> r == if 0 <= p + i < |data| then data[p + i] else EOF
    {
      if i == 0 {
        return 0;
      }
      var offset := i;
      if i < 0 {
        offset := i + 1;
        if p + offset - 1 < 0 {
          return EOF;
        }
      }
      if p + offset - 1 >= |data| {
        return EOF;
      }
      return data[p + offset - 1];
    }

    method Seek(index: nat)
      modifies this
      ensures p == if index <= old(p) then index else Max(old(p), Min(index, |data|))
    {
      if index <= p {
        p := index;
        return;
      }
      var target := Min(index, |data|);
      while p < target
        invariant old(p) <= p <= Max(old(p), target)
      {
        var _ := Consume();
      }
    }

    method GetText(a: int, b: int) returns (r: seq<nat>)
      ensures a < 0 || b < 0 || a >= |data| ==> r == []
      ensures 0 <= a < |data| && a - 1 <= b ==> r == data[a..Min(b + 1, |data|)]
      ensures 0 <= a < |data| && 0 <= b < a - 1 ==> r == data[a..]
    {
      if a < 0 || b < 0 {
        return [];
      }
      var stop := b;
      if stop >= |data| {
        stop := |data| - 1;
      }
      var count := stop - a + 1;
      if a >= |data| {
        return [];
      }
      if count < 0 {
        // The unsigned count wraps to a huge one: everything from a on.
        return data[a..];
      }
      return data[a..Min(a + count, |data|)];
    }
  }

  // ---------------------------------------------------------------- whole runs

  datatype Command =
    | Consume | LookAhead(k: nat) | LookBehind | Mark | Release | Seek(index: nat) | Text(a: nat, b: int)

  datatype Observation = Moved(ok: bool, at: nat) | Seen(c: nat) | Shown(text: seq<nat>)

  /** The reference's cursor, the open marks, and the furthest index reached. */
  datatype Reference = Reference(cur: nat, marks: seq<nat>, far: nat)

  /** The protocol of IntStream: positive lookahead, LA(-1) once something was consumed, releases
      matching marks, seeks and texts between the outermost open mark and the furthest index. */
  ghost predicate Legal(ref: Reference, c: Command)
  {
    match c
    case LookAhead(k) => k >= 1
    case LookBehind => ref.cur > 0
    case Release => ref.marks != []
    case Seek(i) => ref.marks != [] && ref.marks[0] <= i <= ref.far
    case Text(a, b) => ref.marks != [] && ref.marks[0] <= a <= b + 1 <= ref.far
    case _ => true
  }

  ghost predicate Inside(input: seq<nat>, ref: Reference)
  {
    ref.cur <= ref.far <= |input| && (ref.marks != [] ==> ref.marks[0] <= ref.cur)
  }

  function Step(input: seq<nat>, ref: Reference, c: Command): Reference
    requires c.Release? ==> ref.marks != []
  {
    match c
    case Consume =>
      if ref.cur < |input| then ref.(cur := ref.cur + 1, far := Max(ref.far, ref.cur + 1)) else ref
    case Mark => ref.(marks := ref.marks + [ref.cur])
    case Release => ref.(marks := ref.marks[..|ref.marks| - 1])
    case Seek(i) => ref.(cur := i)
    case _ => ref
  }

  /** What the fully loaded stream shows for a legal command. */
  ghost function Shows(input: seq<nat>, ref: Reference, c: Command): Observation
    requires Inside(input, ref) && Legal(ref, c)
  {
    match c
    case Consume => Moved(ref.cur < |input|, Step(input, ref, c).cur)
    case LookAhead(k) => Seen(if ref.cur + k - 1 < |input| then input[ref.cur + k - 1] else EOF)
    case LookBehind => Seen(input[ref.cur - 1])
    case Text(a, b) => Shown(input[a..b + 1])
    case _ => Moved(true, Step(input, ref, c).cur)
  }

  lemma StepInside(input: seq<nat>, ref: Reference, c: Command)
    requires Inside(input, ref) && Legal(ref, c)
    ensures Inside(input, Step(input, ref, c))
  {
  }

  ghost predicate LegalRun(input: seq<nat>, ref: Reference, cs: seq<Command>)
    requires Inside(input, ref)
    decreases |cs|
  {
    cs == [] ||
    (Legal(ref, cs[0]) &&
     (StepInside(input, ref, cs[0]); LegalRun(input, Step(input, ref, cs[0]), cs[1..])))
  }

  /** What the input shows over a whole run. */
  ghost function RunOf(input: seq<nat>, ref: Reference, cs: seq<Command>): seq<Observation>
    requires Inside(input, ref) && LegalRun(input, ref, cs)
    decreases |cs|
  {
    if cs == [] then []
    else
      StepInside(input, ref, cs[0]);
      [Shows(input, ref, cs[0])] + RunOf(input, Step(input, ref, cs[0]), cs[1..])
  }

  /** One command of a run, with what was seen before it. */
  lemma RunOfNext(input: seq<nat>, ref: Reference, cs: seq<Command>, i: nat, os: seq<Observation>)
    requires Inside(input, ref) && i < |cs| && LegalRun(input, ref, cs[i..])
    ensures Legal(ref, cs[i])
    ensures var next := Step(input, ref, cs[i]);
      && Inside(input, next) && LegalRun(input, next, cs[i + 1..])
      && os + RunOf(input, ref, cs[i..]) == (os + [Shows(input, ref, cs[i])]) + RunOf(input, next, cs[i + 1..])
  {
    assert cs[i..][0] == cs[i] && cs[i..][1..] == cs[i + 1..];
    StepInside(input, ref, cs[i]);
    var o, rest := Shows(input, ref, cs[i]), RunOf(input, Step(input, ref, cs[i]), cs[i + 1..]);
    assert os + ([o] + rest) == (os + [o]) + rest;
  }

  /** The windowed stream is where the reference is, and knows what a legal command will need. */
  ghost predicate Tracks(s: UnbufferedCharStream, ref: Reference)
    reads s
  {
    && s.Valid() && Inside(s.input, ref) && SENTINEL !in s.input
    && s.currentCharIndex == ref.cur && s.numMarkers == |ref.marks| && ref.far < s.Pos()
    && s.behindKnown
    && (ref.marks != [] ==> s.outer == ref.marks[0] && (s.outer == s.BufferStart() ==> s.startKnown))
  }

  method WindowedConsume(s: UnbufferedCharStream, ghost ref: Reference) returns (o: Observation)
    requires Tracks(s, ref)
    modifies s
    ensures Tracks(s, Step(s.input, ref, Consume)) && o == Shows(s.input, ref, Consume)
  {
    var r := s.Consume();
    o := Moved(r.Ok?, s.currentCharIndex);
  }

  method WindowedLookAhead(s: UnbufferedCharStream, k: nat, ghost ref: Reference) returns (o: Observation)
    requires Tracks(s, ref) && k >= 1
    modifies s
    ensures Tracks(s, ref) && o == Shows(s.input, ref, LookAhead(k))
  {
    var r := s.LA(k);
    s.NoSentinel();
    o := Seen(r.value);
  }

  method WindowedLookBehind(s: UnbufferedCharStream, ghost ref: Reference) returns (o: Observation)
    requires Tracks(s, ref) && ref.cur > 0
    modifies s
    ensures Tracks(s, ref) && o == Shows(s.input, ref, LookBehind)
  {
    var r := s.LA(-1);
    o := Seen(r.value);
  }

  method WindowedMark(s: UnbufferedCharStream, ghost ref: Reference) returns (o: Observation)
    requires Tracks(s, ref)
    modifies s
    ensures Tracks(s, Step(s.input, ref, Mark)) && o == Shows(s.input, ref, Mark)
  {
    var _ := s.Mark();
    o := Moved(true, s.currentCharIndex);
  }

  method WindowedRelease(s: UnbufferedCharStream, ghost ref: Reference) returns (o: Observation)
    requires Tracks(s, ref) && ref.marks != []
    modifies s
    ensures Tracks(s, Step(s.input, ref, Release)) && o == Shows(s.input, ref, Release)
  {
    var r := s.Release(-s.numMarkers);
    o := Moved(r.Ok?, s.currentCharIndex);
  }

  method WindowedSeek(s: UnbufferedCharStream, index: nat, ghost ref: Reference) returns (o: Observation)
    requires Tracks(s, ref) && Legal(ref, Seek(index))
    modifies s
    ensures Tracks(s, Step(s.input, ref, Seek(index))) && o == Shows(s.input, ref, Seek(index))
  {
    var r := s.Seek(index);
    o := Moved(r.Ok?, s.currentCharIndex);
  }

  method WindowedText(s: UnbufferedCharStream, a: nat, b: int, ghost ref: Reference) returns (o: Observation)
    requires Tracks(s, ref) && Legal(ref, Text(a, b))
    ensures o == Shows(s.input, ref, Text(a, b))
  {
    var r := s.GetText(a, b);
    o := Shown(r.value);
    assert Units(s.input, s.eof, a, b) == s.input[a..b + 1];
  }

  method PerformWindowed(s: UnbufferedCharStream, c: Command, ghost ref: Reference) returns (o: Observation)
    requires Tracks(s, ref) && Legal(ref, c)
    modifies s
    ensures Tracks(s, Step(s.input, ref, c))
    ensures o == Shows(s.input, ref, c)
  {
    assert Inside(s.input, ref);
    hide Tracks;
    match c {
      case Consume => o := WindowedConsume(s, ref);
      case LookAhead(k) => o := WindowedLookAhead(s, k, ref);
      case LookBehind => o := WindowedLookBehind(s, ref);
      case Mark => o := WindowedMark(s, ref);
      case Release => o := WindowedRelease(s, ref);
      case Seek(i) => o := WindowedSeek(s, i, ref);
      case Text(a, b) => o := WindowedText(s, a, b, ref);
    }
  }

  method PerformLoaded(s: ANTLRInputStream, c: Command, ghost ref: Reference) returns (o: Observation)
    requires s.p == ref.cur && Inside(s.data, ref) && Legal(ref, c)
    modifies s
    ensures s.p == Step(s.data, ref, c).cur
    ensures o == Shows(s.data, ref, c)
  {
    match c {
      case Consume =>
        var r := s.Consume();
        o := Moved(r.Ok?, s.p);
      case LookAhead(k) =>
        var r := s.LA(k);
        o := Seen(r);
      case LookBehind =>
        var r := s.LA(-1);
        o := Seen(r);
      case Mark =>
        o := Moved(true, s.p);
      case Release =>
        o := Moved(true, s.p);
      case Seek(i) =>
        s.Seek(i);
        o := Moved(true, s.p);
      case Text(a, b) =>
        var r := s.GetText(a, b);
        o := Shown(r);
    }
  }

  /** Main result. On every input without U+FFFF and over every legal run, the windowed stream and
      the fully loaded one show what the input shows. */
  method Run(input: seq<nat>, eof: nat, cs: seq<Command>)
    returns (windowed: seq<Observation>, loaded: seq<Observation>)
    requires IsInput(input, eof) && SENTINEL !in input
    requires LegalRun(input, Reference(0, [], 0), cs)
    ensures windowed == loaded == RunOf(input, Reference(0, [], 0), cs)
  {
    var w := new UnbufferedCharStream(input, eof);
    var l := new ANTLRInputStream(input);
    ghost var ref := Reference(0, [], 0);
    windowed, loaded := [], [];
    var i := 0;
    assert cs[0..] == cs && windowed + RunOf(input, ref, cs) == RunOf(input, ref, cs) && Tracks(w, ref);
    hide Tracks, LegalRun, Step, Shows;
    while i < |cs|
      invariant i <= |cs| && w.input == input && l.data == input && fresh(w) && fresh(l)
      invariant Tracks(w, ref) && Inside(input, ref) && l.p == ref.cur && LegalRun(input, ref, cs[i..])
      invariant windowed == loaded
      invariant windowed + RunOf(input, ref, cs[i..]) == RunOf(input, Reference(0, [], 0), cs)
    {
      RunOfNext(input, ref, cs, i, windowed);
      var a := PerformWindowed(w, cs[i], ref);
      var b := PerformLoaded(l, cs[i], ref);
      windowed, loaded := windowed + [a], loaded + [b];
      ref := Step(input, ref, cs[i]);
      i := i + 1;
    }
    assert windowed + [] == windowed;
  }

  /** Where the agreement ends. A U+FFFF that is not the last character hides the rest of the input
      from lookahead, although the fully loaded stream still shows it. */
  method BlindAfterSentinel(input: seq<nat>, eof: nat, q: nat) returns (windowed: nat, loaded: nat)
    requires IsInput(input, eof) && q < |input| - 1 && input[q] == SENTINEL
    ensures windowed == EOF && loaded == input[q + 1] != EOF
  {
    var w := new UnbufferedCharStream(input, eof);
    var l := new ANTLRInputStream(input);
    var r := w.LA(q + 2);
    windowed := r.value;
    loaded := l.LA(q + 2);
    assert (if |w.data| > q then w.data[q] else SENTINEL) == SENTINEL;
  }

  /** A U+FFFF that is only the last character makes the end of the input unreachable again after
      seeking back inside a marked region. */
  method StuckBeforeEnd(input: seq<nat>, eof: nat) returns (windowed: nat, loaded: nat)
    requires IsInput(input, eof) && |input| > 0 && input[|input| - 1] == SENTINEL
    requires SENTINEL !in input[..|input| - 1]
    ensures windowed == |input| - 1 && loaded == |input|
  {
    var n := |input|;
    var w := new UnbufferedCharStream(input, eof);
    var l := new ANTLRInputStream(input);
    var _ := w.Mark();
    for i := 0 to n
      invariant w.Valid() && w.input == input && w.eof == eof && fresh(w) && w.numMarkers == 1
      invariant w.currentCharIndex == i && w.BufferStart() == 0 && (i < n ==> i < w.Pos())
      invariant l.p == i && l.data == input && fresh(l)
      invariant i == n ==> w.Pos() == n
    {
      var _ := w.Consume();
      var _ := l.Consume();
      SentinelLast(w, n);
    }
    var _ := w.Seek(0);
    var _ := w.Seek(n);
    l.Seek(0);
    l.Seek(n);
    SentinelLast(w, n);
    windowed, loaded := w.currentCharIndex, l.p;
  }

  lemma SentinelLast(w: UnbufferedCharStream, n: nat)
    requires w.Window() && w.BufferStart() == 0 && n == |w.input| > 0
    requires w.input[n - 1] == SENTINEL && SENTINEL !in w.input[..n - 1]
    ensures w.Pos() <= n
    ensures w.Stopped() ==> w.Pos() == n
  {
    assert (if |w.data| >= n then w.data[n - 1] else SENTINEL) == SENTINEL;
    var k := |w.data| - 1;
    if 0 <= k < n - 1 {
      assert w.input[..n - 1][k] == w.data[k];
    }
  }
}
