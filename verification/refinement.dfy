/** The circular buffer implements the bounded first-in, first-out queue: each write is
    a put of its first `count` elements, each read a take of the oldest `count`, across
    the physical end of the store as well as within it. */
module Refinement {
  import opened Ring
  import opened BoundedQueue

  /** Logical element `j`, written before `w` and not overwritten by the next `count`
      elements, sits in a slot at least `count` steps ahead of where writing resumes. */
  lemma SlotAhead(w: nat, j: nat, cap: nat, count: nat)
    requires cap > 0
    requires j < w && w - j + count <= cap
    ensures Offset(w, j % cap, cap) >= count
  {
    var q, m := j / cap, j % cap;
    assert m - w == (j - w) + (-q) * cap;
    assert j - w == -1 * cap + (cap - (w - j));
    ModUnique(j - w, -1, cap - (w - j), cap);
    var q2 := (j - w) / cap;
    assert m - w == (q2 - q) * cap + (cap - (w - j));
    ModUnique(m - w, q2 - q, cap - (w - j), cap);
  }

  /** What a successful write does to the slots, seen through the contents: the new
      elements follow the old ones. */
  lemma AppendedContents<T>(b: Buffer<T>, nb: Buffer<T>, data: seq<T>, count: nat)
    requires b.Valid() && 0 < count <= b.Free() && count <= |data|
    requires Appended(b, nb, data, count)
    ensures nb.Contents() == b.Contents() + data[..count]
  {
    var cap := b.Capacity();
    var before, after := b.Contents(), nb.Contents();
    var expected := before + data[..count];
    forall k | 0 <= k < |after|
      ensures after[k] == expected[k]
    {
      if k < |before| {
        var i := (b.readHead + k) % cap;
        SlotAhead(b.writeHead, b.readHead + k, cap, count);
        assert nb.storage[i] == b.storage[i];
      } else {
        var j := k - |before|;
        assert b.readHead + k == b.writeHead + j;
      }
    }
  }

  /** A write is a put: it is accepted exactly when the queue has room for its `count`
      elements, and then appends them; otherwise the queue is unchanged. */
  lemma WriteRefinesPut<T>(b: Buffer<T>, data: seq<T>, count: int)
    requires b.Valid()
    requires count <= |data|
    ensures var r := Write(b, data, count);
      && (r.status == NoErr <==> 0 < count && CanPut(b.Contents(), b.Capacity(), data[..count]))
      && r.buffer.Contents() == (if r.status == NoErr then b.Contents() + data[..count] else b.Contents())
  {
    var r := Write(b, data, count);
    if r.status == NoErr {
      AppendedContents(b, r.buffer, data, count);
    }
  }

  /** A read is a take: it is accepted exactly when the queue holds `count` elements,
      and then hands back the oldest `count` and leaves the rest queued. */
  lemma ReadRefinesTake<T>(b: Buffer<T>, dest: seq<T>, count: int)
    requires b.Valid()
    requires count <= |dest|
    ensures var r := Read(b, dest, count);
      && (r.status == NoErr <==> CanTake(b.Contents(), count))
      && (r.status == NoErr ==> r.dest[..count] == b.Contents()[..count])
      && r.buffer.Contents() == (if r.status == NoErr then b.Contents()[count..] else b.Contents())
  {
    var r := Read(b, dest, count);
    if r.status == NoErr {
      var before, after := b.Contents(), r.buffer.Contents();
      assert |after| == |before[count..]|;
    }
  }

  /** Writing a nonempty sequence that fits into an empty buffer and reading the same
      number of elements back returns the sequence unchanged, wherever the heads stand. */
  lemma RoundTrip<T>(b: Buffer<T>, data: seq<T>, dest: seq<T>)
    requires b.Valid() && ApproximateCount(b) == 0
    requires 0 < |data| <= b.Capacity()
    requires |dest| == |data|
    ensures var w := WriteAll(b, data);
            var r := Read(w.buffer, dest, |data|);
            w.status == NoErr && r.status == NoErr && r.dest == data && ApproximateCount(r.buffer) == 0
  {
    var w := WriteAll(b, data);
    WriteRefinesPut(b, data, |data|);
    assert data[..|data|] == data;
    ReadRefinesTake(w.buffer, dest, |data|);
    var r := Read(w.buffer, dest, |data|);
    assert r.dest == r.dest[..|data|];
  }

  /** The buffer after a run of calls, and what each successful read returned, in call order. */
  datatype Session<T> = Session(buffer: Buffer<T>, taken: seq<seq<T>>)

  /** One call on the buffer: a put is `write(from: [DataType])`, a take is
      `read(into:count:)` with `count` the size of the destination. */
  function BufferStep<T>(b: Buffer<T>, op: Op<T>): (s: Session<T>)
    requires b.Valid()
    ensures s.buffer.Valid() && s.buffer.Capacity() == b.Capacity()
  {
    match op
    case Put(data) =>
      Session(WriteAll(b, data).buffer, [])
    case Take(into) =>
      var r := Read(b, into, |into|);
      Session(r.buffer, if r.status == NoErr then [r.dest] else [])
  }

  function RunBuffer<T>(b: Buffer<T>, ops: seq<Op<T>>): (s: Session<T>)
    requires b.Valid()
    ensures s.buffer.Valid() && s.buffer.Capacity() == b.Capacity()
    decreases |ops|
  {
    if ops == [] then
      Session(b, [])
    else
      var first := BufferStep(b, ops[0]);
      var rest := RunBuffer(first.buffer, ops[1..]);
      Session(rest.buffer, first.taken + rest.taken)
  }

  lemma StepRefines<T>(b: Buffer<T>, op: Op<T>)
    requires b.Valid()
    ensures var s := BufferStep(b, op);
            var t := Step(b.Contents(), b.Capacity(), op);
            s.buffer.Contents() == t.items && s.taken == t.taken
  {
    match op
    case Put(data) =>
      WriteRefinesPut(b, data, |data|);
      assert data[..|data|] == data;
    case Take(into) =>
      ReadRefinesTake(b, into, |into|);
      assert into[..|into|] == into;
      var r := Read(b, into, |into|);
      assert r.dest[..|into|] == r.dest;
  }

  /** Over any run of calls, the buffer's contents and every read's result are those of
      the bounded queue given the same calls. */
  lemma {:induction false} RunRefinesQueue<T>(b: Buffer<T>, ops: seq<Op<T>>)
    requires b.Valid()
    ensures var s := RunBuffer(b, ops);
            var t := Run(b.Contents(), b.Capacity(), ops);
            s.buffer.Contents() == t.items && s.taken == t.taken
    decreases |ops|
  {
    if ops != [] {
      StepRefines(b, ops[0]);
      RunRefinesQueue(BufferStep(b, ops[0]).buffer, ops[1..]);
    }
  }

  /** First in, first out from construction on: after any run of calls on a new buffer,
      the reads' results followed by what is still buffered are exactly the accepted
      writes' data in order, and the buffer holds between 0 and `capacity` elements. */
  lemma Fifo<T>(value: T, capacity: int, ops: seq<Op<T>>)
    requires capacity > 0
    ensures var s := RunBuffer(New(value, capacity), ops);
            && Flatten(s.taken) + s.buffer.Contents() == Flatten(Accepted([], capacity, ops))
            && 0 <= ApproximateCount(s.buffer) <= capacity
  {
    var b := New(value, capacity);
    RunRefinesQueue(b, ops);
    Conservation(b.Contents(), capacity, ops);
  }

  /** A write of four elements into an empty four-slot buffer whose write head sits at
      logical index 3 puts the first element in the last slot and the other three,
      wrapped, in slots 0 to 2. */
  lemma WrapLayout<T>(b: Buffer<T>, data: seq<T>)
    requires b.Valid() && b.Capacity() == 4 && b.writeHead == 3 && ApproximateCount(b) == 0
    requires |data| == 4
    ensures WriteAll(b, data).buffer.storage == [data[1], data[2], data[3], data[0]]
  {
  }

  /** With four slots: write three, read three, then write four, which runs across the
      physical end of the store (slot 3, then slots 0 to 2), and read them back in order. */
  lemma WrapAround<T>(fill: T, a: T, b: T, c: T, d: T, e: T, f: T, g: T)
    ensures var b0 := New(fill, 4);
            var w1 := WriteAll(b0, [a, b, c]);
            var r1 := Read(w1.buffer, [fill, fill, fill], 3);
            var w2 := WriteAll(r1.buffer, [d, e, f, g]);
            var r2 := Read(w2.buffer, [fill, fill, fill, fill], 4);
            && w1.status == NoErr && r1.status == NoErr && r1.dest == [a, b, c]
            && w2.status == NoErr && w2.buffer.storage == [e, f, g, d]
            && r2.status == NoErr && r2.dest == [d, e, f, g]
  {
    var b0 := New(fill, 4);
    var w1 := WriteAll(b0, [a, b, c]);
    RoundTrip(b0, [a, b, c], [fill, fill, fill]);
    var r1 := Read(w1.buffer, [fill, fill, fill], 3);
    assert r1.buffer.writeHead == 3;
    RoundTrip(r1.buffer, [d, e, f, g], [fill, fill, fill, fill]);
    WrapLayout(r1.buffer, [d, e, f, g]);
  }
}
