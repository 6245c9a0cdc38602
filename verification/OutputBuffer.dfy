/** fmt's chunked output buffers: one append loop over four ways of making room. */
module OutputBuffer {
  import opened Basics

  const BUFFER_SIZE: nat := 256

  /** Which grow function a buffer was built with. */
  datatype Policy =
    | Iterator          // flushes 256-character chunks to an output iterator
    | LimitedIterator   // the same, delivering at most limit characters
    | LimitedPointer    // writes straight into memory for limit characters, then discards
    | Counting          // discards everything

  class Buffer {
    const policy: Policy
    const limit: nat
    /** The memory behind LimitedPointer; unused by the other policies. */
    const memory: array<char>
    const data: array<char>
    /** ptr_ still points into memory rather than to data. */
    var direct: bool
    var size: nat
    var capacity: nat
    var count: nat
    /** Characters handed to the output iterator, or how far into memory out_ has moved. */
    var sink: seq<char>
    var moved: nat

    /** Everything appended so far. */
    ghost var total: seq<char>
    /** The memory as it was found. */
    ghost const before: seq<char>
    /** out() has been called on a LimitedPointer: its position is final. */
    ghost var closed: bool

    /** How many characters of memory have been written. */
    function Written(): nat
      reads this
    {
      if direct then size else moved
    }

    ghost predicate Valid()
      reads this, memory, data
    {
      && data != memory && data.Length == BUFFER_SIZE && |before| == memory.Length
      && size <= capacity
      && (direct ==> policy == LimitedPointer && capacity == limit <= memory.Length && !closed)
      && (!direct ==> capacity == BUFFER_SIZE)
      && (policy == LimitedPointer ==>
            && limit <= memory.Length && moved <= limit && Written() <= |total|
            && memory[..Written()] == total[..Written()]
            && memory[Written()..] == before[Written()..]
            && (direct ==> count == 0 && moved == 0 && size == |total|)
            && (!direct ==> |total| == count + size && (!closed ==> moved == limit <= count)
                            && (closed ==> moved == Min(limit, |total|) && size == 0)))
      && (policy != LimitedPointer ==> memory[..] == before && !closed)
      && (policy == Iterator ==> sink + data[..size] == total)
      && (policy == LimitedIterator ==>
            && |total| == count + size && data[..size] == total[count..] && sink == total[..Min(limit, count)])
      && (policy == Counting ==> |total| == count + size)
    }

    constructor (policy: Policy, limit: nat, memory: array<char>)
      requires policy == LimitedPointer ==> limit <= memory.Length
      ensures Valid() && this.policy == policy && this.limit == limit && this.memory == memory
      ensures total == [] && before == memory[..] && !closed && fresh(data)
    {
      this.policy, this.limit, this.memory := policy, limit, memory;
      data := new char[BUFFER_SIZE];
      direct := policy == LimitedPointer;
      size, count, sink, moved := 0, 0, [], 0;
      capacity := if policy == LimitedPointer then limit else BUFFER_SIZE;
      total, before, closed := [], memory[..], false;
    }

    /** fixed_buffer_traits::limit, or buffer_traits::limit for the plain iterator. */
    method Limit(n: nat) returns (r: nat)
      modifies this`count
      ensures policy == Iterator ==> r == n && count == old(count)
      ensures policy != Iterator ==> r == Min(n, if limit > old(count) then limit - old(count) else 0)
      ensures policy != Iterator ==> count == old(count) + n
    {
      if policy == Iterator {
        return n;
      }
      var rest := if limit > count then limit - count else 0;
      count := count + n;
      return Min(n, rest);
    }

    /** Empties an iterator buffer into its sink. */
    method FlushIterator()
      requires Valid() && (policy == Iterator || policy == LimitedIterator)
      modifies this`size, this`count, this`sink
      ensures Valid() && size == 0
      ensures policy == Iterator ==> sink == total
      ensures policy == LimitedIterator ==> count == |total|
    {
      var n := size;
      size := 0;
      ghost var was := sink;
      var k := Limit(n);
      for i := 0 to k
        invariant sink == was + data[..i] && size == 0
        invariant count == if policy == Iterator then old(count) else old(count) + n
      {
        sink := sink + [data[i]];
      }
      if policy == LimitedIterator {
        CutAppended(total, old(count), k, limit);
      }
    }

    /** Moves out_ past what was written directly; later characters go to a scratch area. */
    method FlushPointer()
      requires Valid() && policy == LimitedPointer && !closed
      modifies this`size, this`capacity, this`count, this`moved, this`direct, this`closed
      ensures Valid() && size == 0 && !direct && capacity == BUFFER_SIZE && count == |total|
      ensures moved == Min(limit, |total|)
      ensures closed == (|total| < limit)
    {
      var n := Limit(size);
      closed := |total| < limit;
      if direct {
        moved := moved + n;
        direct := false;
        capacity := BUFFER_SIZE;
      }
      size := 0;
    }

    /** Makes room for at least one more character. */
    method Grow()
      requires Valid() && !closed
      modifies this`size, this`capacity, this`count, this`sink, this`moved, this`direct, this`closed
      ensures Valid() && !closed && size < capacity
      ensures old(size) < old(capacity) ==>
        size == old(size) && capacity == old(capacity) && direct == old(direct)
    {
      match policy {
        case Iterator => if size == BUFFER_SIZE { FlushIterator(); }
        case LimitedIterator => if size == BUFFER_SIZE { FlushIterator(); }
        case LimitedPointer => if size == capacity { FlushPointer(); }
        case Counting => if size == BUFFER_SIZE { count := count + size; size := 0; }
      }
    }

    /** ptr_[size_] = c, size_ + 1. */
    method Put(c: char)
      requires Valid() && !closed && size < capacity
      modifies this`size, this`total, memory, data
      ensures Valid() && size == old(size) + 1 && total == old(total) + [c]
    {
      ghost var w := Written();
      if direct {
        assert memory[w..][1..] == memory[w + 1..] == before[w + 1..];
        memory[size] := c;
        assert memory[w + 1..] == before[w + 1..];
      } else {
        data[size] := c;
      }
      size := size + 1;
      total := total + [c];
      assert direct ==> memory[..size] == memory[..size - 1] + [c];
      assert !direct ==> data[..size] == data[..size - 1] + [c];
    }

    method PushBack(c: char)
      requires Valid() && !closed
      modifies this, memory, data
      ensures Valid() && !closed && total == old(total) + [c]
    {
      if size + 1 > capacity {
        Grow();
      }
      Put(c);
    }

    /** Copies a chunk that fits. */
    method Copy(s: seq<char>)
      requires Valid() && !closed && |s| <= capacity - size
      modifies this`size, this`total, memory, data
      ensures Valid() && total == old(total) + s
    {
      hide Valid;
      for i := 0 to |s|
        invariant Valid() && |s| - i <= capacity - size
        invariant total == old(total) + s[..i]
      {
        Put(s[i]);
        assert s[..i + 1] == s[..i] + [s[i]];
      }
      assert s[..|s|] == s;
    }

    /** One turn of the append loop: copies as much as fits after making room, at least one. */
    method AppendChunk(s: seq<char>) returns (n: nat)
      requires Valid() && !closed && s != []
      modifies this, memory, data
      ensures Valid() && !closed
      ensures 1 <= n <= |s| && total == old(total) + s[..n]
    {
      n := |s|;
      if capacity - size < n {
        Grow();
        n := Min(n, capacity - size);
      }
      Copy(s[..n]);
    }

    /** Appends a whole range, chunk by chunk. */
    method Append(s: seq<char>)
      requires Valid() && !closed
      modifies this, memory, data
      ensures Valid() && !closed && total == old(total) + s
    {
      var rest := s;
      while rest != []
        invariant Valid() && !closed
        invariant total + rest == old(total) + s
        decreases |rest|
      {
        ghost var t := total;
        var n := AppendChunk(rest);
        assert t + rest == t + rest[..n] + rest[n..];
        rest := rest[n..];
      }
      assert total + [] == total;
    }

    /** How many characters the caller may rely on having been produced. */
    method Count() returns (n: nat)
      requires Valid()
      ensures policy != Iterator ==> n == |total|
      ensures policy == Iterator ==> n == size
    {
      n := (if policy == Iterator then 0 else count) + size;
    }

    /** Finishes the output: everything appended, cut at the limit, and not one character more. */
    method Out()
      requires Valid() && !closed && policy != Counting
      modifies this
      ensures Valid() && total == old(total)
      ensures policy == Iterator ==> sink == total
      ensures policy == LimitedIterator ==> sink == total[..Min(limit, |total|)]
      ensures policy == LimitedPointer ==>
        && moved == Min(limit, |total|)
        && memory[..moved] == total[..moved] && memory[moved..] == before[moved..]
      ensures policy != LimitedPointer ==> memory[..] == before
    {
      if policy == LimitedPointer {
        FlushPointer();
      } else {
        FlushIterator();
      }
    }
  }

  /** What is within the limit, when k more characters fit of those after position c. */
  lemma CutAppended(total: seq<char>, c: nat, k: nat, limit: nat)
    requires c <= |total| && k == Min(|total| - c, if limit > c then limit - c else 0)
    ensures total[..Min(limit, c)] + total[c..][..k] == total[..Min(limit, |total|)]
  {
  }

  // ---------------------------------------------------------------- whole runs

  datatype Write = Push(c: char) | Text(s: seq<char>)

  function Concat(ws: seq<Write>): seq<char>
  {
    if ws == [] then []
    else Concat(ws[..|ws| - 1]) + match ws[|ws| - 1] case Push(c) => [c] case Text(s) => s
  }

  /** Main result. Any sequence of writes through any limit produces the concatenation, cut at the
      limit; memory past the cut is untouched; counts are the true total. */
  method Produce(policy: Policy, limit: nat, memory: array<char>, ws: seq<Write>)
    returns (written: seq<char>, count: nat)
    requires policy == LimitedPointer ==> limit <= memory.Length
    modifies memory
    ensures policy == Iterator ==> written == Concat(ws)
    ensures policy == LimitedIterator || policy == LimitedPointer ==>
      written == Concat(ws)[..Min(limit, |Concat(ws)|)]
    ensures policy == LimitedPointer ==>
      written <= memory[..] && memory[|written|..] == old(memory[..])[|written|..]
    ensures policy != LimitedPointer ==> memory[..] == old(memory[..])
    ensures policy != Iterator ==> count == |Concat(ws)|
  {
    var b := new Buffer(policy, limit, memory);
    for i := 0 to |ws|
      invariant b.Valid() && !b.closed && fresh(b) && fresh(b.data)
      invariant b.policy == policy && b.limit == limit && b.memory == memory && b.before == old(memory[..])
      invariant b.total == Concat(ws[..i])
    {
      assert ws[..i + 1][..i] == ws[..i];
      match ws[i] {
        case Push(c) => b.PushBack(c);
        case Text(s) => b.Append(s);
      }
    }
    assert ws[..|ws|] == ws;
    count := b.Count();
    if policy == Counting {
      return [], count;
    }
    b.Out();
    written := if policy == LimitedPointer then memory[..b.moved] else b.sink;
  }
}
