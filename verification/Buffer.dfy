/** A byte queue over one array. */
module Buffer {
  // Free space in front for prepending, the readable bytes, and free space behind for appending.
  // Pointers into the array are indices here.

  import opened Wrappers

  const PREPEND := 8

  // ---------- indices ----------

  /** The size of the array and the two indices into it. */
  datatype Shape = Shape(capacity: nat, read: nat, write: nat)

  predicate Ordered(s: Shape) {
    s.read <= s.write <= s.capacity && PREPEND <= s.capacity
  }

  function Size(s: Shape): (n: nat)
    requires Ordered(s)
  {
    s.write - s.read
  }

  /** makeSpace: grow when even sliding would not leave room, otherwise slide to the front. */
  function MadeSpace(s: Shape, n: nat): (r: Shape)
    requires Ordered(s)
  {
    if s.capacity - s.write + s.read < n + PREPEND then Shape(s.write + n, s.read, s.write)
    else Shape(s.capacity, PREPEND, PREPEND + Size(s))
  }

  function Ensured(s: Shape, n: nat): (r: Shape)
    requires Ordered(s)
  {
    if s.capacity - s.write < n then MadeSpace(s, n) else s
  }

  function Retrieved(s: Shape, n: nat): (r: Shape)
    requires Ordered(s)
  {
    if n < Size(s) then s.(read := s.read + n) else Shape(s.capacity, PREPEND, PREPEND)
  }

  function Shrunk(s: Shape, reserve: nat): (r: Shape)
    requires Ordered(s)
  {
    Shape(PREPEND + Size(s) + reserve, PREPEND, PREPEND + Size(s))
  }

  /** When the space check fails but sliding is enough, the data sits strictly behind the place it
      slides to, so a forward copy is safe; afterwards there is room, and sizes are kept. */
  lemma SlideIsSafe(s: Shape, n: nat)
    requires Ordered(s) && s.capacity - s.write < n && !(s.capacity - s.write + s.read < n + PREPEND)
    ensures s.read > PREPEND
    ensures var r := MadeSpace(s, n);
            Ordered(r) && Size(r) == Size(s) && r.capacity == s.capacity && r.capacity - r.write >= n
  {
  }

  lemma EnsuredHasRoom(s: Shape, n: nat)
    requires Ordered(s)
    ensures var r := Ensured(s, n); Ordered(r) && Size(r) == Size(s) && r.capacity - r.write >= n && r.capacity >= s.capacity
  {
  }

  // ---------- the buffer object ----------

  class Buffer {
    var data: array<char>
    var readIndex: nat
    var writeIndex: nat

    ghost predicate Valid()
      reads this
    {
      Ordered(Shape(data.Length, readIndex, writeIndex))
    }

    ghost function Indices(): Shape
      reads this
    {
      Shape(data.Length, readIndex, writeIndex)
    }

    /** The readable bytes. */
    ghost function Readable(): (s: seq<char>)
      requires Valid()
      reads this, data
      ensures |s| == Size(Indices())
    {
      data[readIndex..writeIndex]
    }

    constructor (initialSize: nat)
      ensures Valid() && fresh(data) && Readable() == [] && Indices() == Shape(PREPEND + initialSize, PREPEND, PREPEND)
    {
      data := new char[PREPEND + initialSize](_ => '\0');
      readIndex, writeIndex := PREPEND, PREPEND;
    }

    method RetrieveAll()
      requires Valid()
      modifies this`readIndex, this`writeIndex
      ensures Valid() && Readable() == [] && Indices() == Shape(data.Length, PREPEND, PREPEND)
    {
      readIndex, writeIndex := PREPEND, PREPEND;
    }

    method Retrieve(len: nat)
      requires Valid()
      modifies this`readIndex, this`writeIndex
      ensures Valid() && Indices() == Retrieved(old(Indices()), len)
      ensures Readable() == if len < |old(Readable())| then old(Readable())[len..] else []
    {
      if len < writeIndex - readIndex {
        readIndex := readIndex + len;
      } else {
        RetrieveAll();
      }
    }

    /** Positions outside the readable range are ignored. */
    method RetrieveUntil(end: nat)
      requires Valid()
      modifies this`readIndex, this`writeIndex
      ensures Valid()
      ensures if old(readIndex) <= end <= old(writeIndex) then Readable() == old(Readable())[end - old(readIndex)..]
              else Readable() == old(Readable()) && Indices() == old(Indices())
    {
      if readIndex <= end <= writeIndex { Retrieve(end - readIndex); }
    }

    method RetrieveAsString(len: nat) returns (result: seq<char>)
      requires Valid()
      modifies this`readIndex, this`writeIndex
      ensures Valid() && Indices() == Retrieved(old(Indices()), |result|)
      ensures |result| == if len > |old(Readable())| then |old(Readable())| else len
      ensures old(Readable()) == result + Readable()
    {
      var n := if len > writeIndex - readIndex then writeIndex - readIndex else len;
      result := data[readIndex..readIndex + n];
      Retrieve(n);
    }

    method RetrieveAllAsString() returns (result: seq<char>)
      requires Valid()
      modifies this`readIndex, this`writeIndex
      ensures Valid() && result == old(Readable()) && Readable() == []
    {
      result := RetrieveAsString(writeIndex - readIndex);
    }

    /** vector::resize to a larger size. */
    method Grow(size: nat)
      requires Valid() && size > data.Length
      modifies this`data
      ensures fresh(data) && data.Length == size && data[..old(data.Length)] == old(data[..])
    {
      var old_ := data;
      var bigger := new char[size](_ => '\0');
      forall i | 0 <= i < old_.Length { bigger[i] := old_[i]; }
      data := bigger;
    }

    /** The forward copy of the sliding branch, one byte at a time. */
    method Slide()
      requires Valid() && readIndex > PREPEND
      modifies data, this`readIndex, this`writeIndex
      ensures Valid() && Readable() == old(Readable())
      ensures Indices() == Shape(data.Length, PREPEND, PREPEND + Size(old(Indices())))
    {
      var readable := writeIndex - readIndex;
      ghost var contents := Readable();
      for i := 0 to readable
        invariant readIndex == old(readIndex) && writeIndex == old(writeIndex)
        invariant forall k | 0 <= k < i :: data[PREPEND + k] == contents[k]
        invariant forall k | readIndex + i <= k < writeIndex :: data[k] == contents[k - readIndex]
      {
        data[PREPEND + i] := data[readIndex + i];
      }
      readIndex := PREPEND;
      writeIndex := readIndex + readable;
    }

    method MakeSpace(len: nat)
      requires Valid() && data.Length - writeIndex < len
      modifies this, data
      ensures Valid() && (data == old(data) || fresh(data))
      ensures Readable() == old(Readable()) && Indices() == MadeSpace(old(Indices()), len)
    {
      if data.Length - writeIndex + readIndex < len + PREPEND {
        ghost var was := data[..];
        Grow(writeIndex + len);
        assert data[..|was|][readIndex..writeIndex] == data[readIndex..writeIndex];
      } else {
        SlideIsSafe(Indices(), len);
        Slide();
      }
    }

    method EnsureWritableBytes(len: nat)
      requires Valid()
      modifies this, data
      ensures Valid() && (data == old(data) || fresh(data))
      ensures Readable() == old(Readable()) && Indices() == Ensured(old(Indices()), len)
    {
      if data.Length - writeIndex < len { MakeSpace(len); }
    }

    /** Bytes written behind the write index by the caller become readable, if they fit. */
    method HasWritten(len: nat)
      requires Valid()
      modifies this`writeIndex
      ensures Valid()
      ensures len <= data.Length - old(writeIndex) ==>
                Readable() == old(Readable()) + data[old(writeIndex)..old(writeIndex) + len] && writeIndex == old(writeIndex) + len
      ensures len > data.Length - old(writeIndex) ==> Indices() == old(Indices())
    {
      if len <= data.Length - writeIndex { writeIndex := writeIndex + len; }
    }

    method CopyIn(bytes: seq<char>, at: nat)
      requires at + |bytes| <= data.Length
      modifies data
      ensures data[..] == old(data[..at]) + bytes + old(data[at + |bytes|..])
    {
      forall i | 0 <= i < |bytes| { data[at + i] := bytes[i]; }
    }

    method Append(bytes: seq<char>)
      requires Valid()
      modifies this, data
      ensures Valid() && (data == old(data) || fresh(data))
      ensures Readable() == old(Readable()) + bytes
      ensures Indices() == Ensured(old(Indices()), |bytes|).(write := Ensured(old(Indices()), |bytes|).write + |bytes|)
    {
      EnsureWritableBytes(|bytes|);
      EnsuredHasRoom(old(Indices()), |bytes|);
      ghost var before := data[..];
      CopyIn(bytes, writeIndex);
      ghost var after := data[..];
      assert after[readIndex..writeIndex] == before[readIndex..writeIndex];
      assert after[writeIndex..writeIndex + |bytes|] == bytes;
      HasWritten(|bytes|);
    }

    /** Fails, changing nothing, when there is not enough room in front. */
    method Prepend(bytes: seq<char>) returns (ok: bool)
      requires Valid()
      modifies this`readIndex, data
      ensures Valid() && ok == (|bytes| <= old(readIndex))
      ensures if ok then Readable() == bytes + old(Readable()) && readIndex == old(readIndex) - |bytes|
              else Readable() == old(Readable()) && readIndex == old(readIndex)
    {
      if |bytes| > readIndex { return false; }
      ghost var before, end := data[..], readIndex;
      readIndex := readIndex - |bytes|;
      CopyIn(bytes, readIndex);
      ghost var after := data[..];
      assert after[readIndex..end] == bytes;
      assert after[end..writeIndex] == before[end..writeIndex];
      assert after[readIndex..writeIndex] == after[readIndex..end] + after[end..writeIndex];
      return true;
    }

    method Shrink(reserve: nat)
      requires Valid()
      modifies this
      ensures Valid() && fresh(data) && Readable() == old(Readable()) && Indices() == Shrunk(old(Indices()), reserve)
    {
      var readable := writeIndex - readIndex;
      ghost var bytes := Readable();
      var buf := new char[PREPEND + readable + reserve](_ => '\0');
      forall i | 0 <= i < readable { buf[PREPEND + i] := data[readIndex + i]; }
      assert buf[PREPEND..PREPEND + readable] == bytes;
      data := buf;
      writeIndex := PREPEND + readable;
      readIndex := PREPEND;
      assert Readable() == bytes;
    }

    /** The first CR LF at or after a readable position. */
    method FindCRLF(start: nat) returns (r: Option<nat>)
      requires Valid()
      ensures r.Some? ==> readIndex <= start <= r.value && r.value + 1 < writeIndex
                          && data[r.value] == '\r' && data[r.value + 1] == '\n'
      ensures forall p | start <= p && p + 1 < writeIndex && readIndex <= start && (r.Some? ==> p < r.value) ::
                !(data[p] == '\r' && data[p + 1] == '\n')
    {
      if start < readIndex || start >= writeIndex { return None; }
      var p := start;
      while p + 1 < writeIndex
        invariant start <= p
        invariant forall q | start <= q < p && q + 1 < writeIndex :: !(data[q] == '\r' && data[q + 1] == '\n')
      {
        if data[p] == '\r' && data[p + 1] == '\n' { return Some(p); }
        p := p + 1;
      }
      return None;
    }
  }

  // ---------- runs ----------

  datatype Op = Append(bytes: seq<char>) | Prepend(bytes: seq<char>) | Retrieve(len: nat) | Ensure(len: nat) | Shrink(reserve: nat)

  /** The indices after an operation. */
  function Step(s: Shape, op: Op): (r: Shape)
    requires Ordered(s)
    ensures Ordered(r)
  {
    match op
    case Append(bytes) =>
      var e := Ensured(s, |bytes|);
      e.(write := e.write + |bytes|)
    case Prepend(bytes) => if |bytes| > s.read then s else s.(read := s.read - |bytes|)
    case Retrieve(n) => Retrieved(s, n)
    case Ensure(n) => Ensured(s, n)
    case Shrink(n) => Shrunk(s, n)
  }

  function Run(s: Shape, ops: seq<Op>): (r: Shape)
    requires Ordered(s)
    ensures Ordered(r)
  {
    if ops == [] then s else Step(Run(s, ops[..|ops| - 1]), ops[|ops| - 1])
  }

  /** What an operation means on a plain byte sequence, if it is carried out. */
  function Applied(bytes: seq<char>, op: Op, done: bool): (r: seq<char>) {
    if !done then bytes
    else match op
      case Append(more) => bytes + more
      case Prepend(more) => more + bytes
      case Retrieve(n) => if n < |bytes| then bytes[n..] else []
      case _ => bytes
  }

  function Meaning(bytes: seq<char>, ops: seq<Op>, done: seq<bool>): (r: seq<char>)
    requires |done| == |ops|
  {
    if ops == [] then bytes
    else
      var n := |ops| - 1;
      Applied(Meaning(bytes, ops[..n], done[..n]), ops[n], done[n])
  }

  /** Only a prepend larger than the space in front is refused. */
  predicate Fits(s: Shape, op: Op) {
    op.Prepend? ==> |op.bytes| <= s.read
  }

  /** The indices move as the sizes say, for every operation. */
  lemma SizesAgree(s: Shape, op: Op, bytes: seq<char>)
    requires Ordered(s) && |bytes| == Size(s)
    ensures Size(Step(s, op)) == |Applied(bytes, op, Fits(s, op))|
    ensures op.Append? ==> |Applied(bytes, op, true)| == |bytes| + |op.bytes|
    ensures op.Prepend? ==> (Fits(s, op) <==> |op.bytes| <= s.read) && |Applied(bytes, op, true)| == |bytes| + |op.bytes|
    ensures op.Retrieve? ==> |Applied(bytes, op, true)| == if op.len < |bytes| then |bytes| - op.len else 0
  {
  }

  /** How the array is used: eight bytes stay free in front after everything was read, after sliding and
      after shrinking; it grows only when the free bytes, less those eight, are too few, and then by no more
      than is needed; shrinking leaves what is asked for behind. */
  lemma SpaceOutcome(s: Shape, n: nat)
    requires Ordered(s)
    ensures n >= Size(s) ==> Retrieved(s, n) == Shape(s.capacity, 8, 8)
    ensures n < Size(s) ==> Retrieved(s, n) == Shape(s.capacity, s.read + n, s.write)
    ensures Ensured(s, n).capacity > s.capacity <==> s.write + n > s.capacity && Size(s) + n + 8 > s.capacity
    ensures Ensured(s, n).capacity > s.capacity ==> Ensured(s, n) == Shape(s.write + n, s.read, s.write)
    ensures Ensured(s, n) != s && Ensured(s, n).capacity == s.capacity ==> s.write + n > s.capacity && Ensured(s, n).read == 8
    ensures Shrunk(s, n) == Shape(8 + Size(s) + n, 8, 8 + Size(s))
  {
  }

  method Perform(b: Buffer, op: Op) returns (done: bool)
    requires b.Valid()
    modifies b, b.data
    ensures b.Valid() && (b.data == old(b.data) || fresh(b.data))
    ensures b.Indices() == Step(old(b.Indices()), op) && done == Fits(old(b.Indices()), op)
    ensures b.Readable() == Applied(old(b.Readable()), op, done)
  {
    done := true;
    match op
    case Append(more) => b.Append(more);
    case Prepend(more) => done := b.Prepend(more);
    case Retrieve(n) => b.Retrieve(n);
    case Ensure(n) => b.EnsureWritableBytes(n);
    case Shrink(n) => b.Shrink(n);
  }

  /** A real buffer driven through a list of operations holds what a plain byte sequence would, with its
      indices in order inside the array. */
  method Drive(b: Buffer, ops: seq<Op>) returns (done: seq<bool>)
    requires b.Valid()
    modifies b, b.data
    ensures b.Valid() && (b.data == old(b.data) || fresh(b.data))
    ensures |done| == |ops| && b.Readable() == Meaning(old(b.Readable()), ops, done)
    ensures b.Indices() == Run(old(b.Indices()), ops)
    ensures forall i | 0 <= i < |ops| :: done[i] == Fits(Run(old(b.Indices()), ops[..i]), ops[i])
  {
    hide Step, Applied, Fits;
    ghost var start, bytes := b.Indices(), b.Readable();
    done := [];
    for i := 0 to |ops|
      invariant b.Valid() && (b.data == old(b.data) || fresh(b.data))
      invariant |done| == i && b.Readable() == Meaning(bytes, ops[..i], done)
      invariant b.Indices() == Run(start, ops[..i])
      invariant forall k | 0 <= k < i :: done[k] == Fits(Run(start, ops[..k]), ops[k])
    {
      var ok := Perform(b, ops[i]);
      RunSnoc(start, bytes, ops, i, done, ok);
      done := done + [ok];
    }
    assert ops[..|ops|] == ops;
  }

  lemma RunSnoc(start: Shape, bytes: seq<char>, ops: seq<Op>, i: nat, done: seq<bool>, ok: bool)
    requires Ordered(start) && i < |ops| && |done| == i
    ensures Run(start, ops[..i + 1]) == Step(Run(start, ops[..i]), ops[i])
    ensures Meaning(bytes, ops[..i + 1], done + [ok]) == Applied(Meaning(bytes, ops[..i], done), ops[i], ok)
  {
    hide Step, Applied;
    assert ops[..i + 1][..i] == ops[..i] && (done + [ok])[..i] == done;
  }

  // ---------- capacity ----------

  predicate Plain(ops: seq<Op>) {
    forall i | 0 <= i < |ops| :: ops[i].Append? || ops[i].Prepend? || ops[i].Retrieve?
  }

  function Greater(a: nat, b: nat): (c: nat)
    ensures c >= a && c >= b
  {
    if a < b then b else a
  }

  /** The largest readable size reached. */
  function Peak(s: Shape, ops: seq<Op>): (n: nat)
    requires Ordered(s)
    ensures n >= Size(Run(s, ops))
  {
    if ops == [] then Size(s) else Greater(Peak(s, ops[..|ops| - 1]), Size(Run(s, ops)))
  }

  /** Growth is bounded by the data: over any run of appends, prepends and retrieves the array is
      never larger than it was made or than twice the peak size and seven bytes. */
  lemma {:induction false} CapacityBound(initialSize: nat, ops: seq<Op>)
    requires Plain(ops)
    ensures var s := Shape(8 + initialSize, 8, 8);
            Run(s, ops).capacity <= Greater(8 + initialSize, 2 * Peak(s, ops) + 7)
  {
    if ops != [] {
      var s := Shape(PREPEND + initialSize, PREPEND, PREPEND);
      var front, op := ops[..|ops| - 1], ops[|ops| - 1];
      CapacityBound(initialSize, front);
      assert op.Append? || op.Prepend? || op.Retrieve?;
      GrowthStep(Run(s, front), op);
      hide Step;
    }
  }

  lemma GrowthStep(s: Shape, op: Op)
    requires Ordered(s) && (op.Append? || op.Prepend? || op.Retrieve?)
    ensures var r := Step(s, op); r.capacity > s.capacity ==> r.capacity <= 2 * Size(r) + 7
  {
  }
}
