/** A functional model of the single-producer/single-consumer circular buffer.

    The buffer is a fixed backing store of `capacity` slots and two counters that only
    grow: `writeHead` counts every element ever written, `readHead` every element ever
    consumed. Logical element `i` of the stream lives in physical slot `i % capacity`.
    The atomics of the Swift class are plain fields here and each call runs to completion
    before the next one starts; the counters are unbounded naturals.
 */
module Ring {

  /** The status codes the operations return: `noErr` (0) on success, -1 on rejection. */
  datatype Status = NoErr | Rejected {
    function Code(): int {
      if NoErr? then 0 else -1
    }
  }

  function Min(a: int, b: int): int {
    if a <= b then a else b
  }

  /** How far slot `i` lies ahead of slot `start`, walking forwards around a ring of `cap` slots. */
  function Offset(start: nat, i: nat, cap: nat): nat
    requires cap > 0
  {
    (i - start) % cap
  }

  datatype Buffer<T> = Buffer(storage: seq<T>, writeHead: nat, readHead: nat) {

    function Capacity(): nat {
      |storage|
    }

    /** The representation invariant: at least one slot, and between 0 and `capacity`
        elements written but not yet consumed. */
    predicate Valid() {
      && |storage| > 0
      && readHead <= writeHead <= readHead + |storage|
    }

    /** Free space as the writer computes it. */
    function Free(): int {
      |storage| - (writeHead - readHead)
    }

    /** The abstract value: the elements written but not yet consumed, oldest first. */
    function Contents(): (q: seq<T>)
      requires Valid()
      ensures |q| == writeHead - readHead
    {
      seq(writeHead - readHead, k requires 0 <= k < writeHead - readHead =>
        storage[(readHead + k) % |storage|])
    }
  }

  /** `init(repeating:capacity:)`: a capacity of zero or less is a fatal precondition
      failure in the Swift class, so it is a precondition here. */
  function New<T>(value: T, capacity: int): (b: Buffer<T>)
    requires capacity > 0
    ensures b.Valid() && b.Capacity() == capacity
    ensures forall i :: 0 <= i < capacity ==> b.storage[i] == value
    ensures b.writeHead == 0 && b.readHead == 0
    ensures ApproximateCount(b) == 0 && b.Contents() == []
  {
    Buffer(seq(capacity, _ => value), 0, 0)
  }

  /** `approximateCount`: with the loads taken together it is the exact number of
      buffered elements. */
  function ApproximateCount<T>(b: Buffer<T>): (n: int)
    ensures b.Valid() ==> 0 <= n <= b.Capacity() && n == |b.Contents()|
    ensures b.Valid() ==> (n == 0 <==> b.Contents() == [])
    ensures b.Valid() ==> n + b.Free() == b.Capacity()
  {
    b.writeHead - b.readHead
  }

  /** Euclidean division is unique: `x` splits into `q * cap + r` with `0 <= r < cap` in one way only. */
  lemma ModUnique(x: int, q: int, r: int, cap: int)
    requires cap > 0 && 0 <= r < cap && x == q * cap + r
    ensures x % cap == r && x / cap == q
  {
    var q', r' := x / cap, x % cap;
    assert x == q' * cap + r';
    assert (q - q') * cap == r' - r;
    MulAwayFromZero(q - q', cap);
  }

  lemma MulAwayFromZero(d: int, cap: int)
    requires cap > 0
    ensures d >= 1 ==> d * cap >= cap
    ensures d <= -1 ==> d * cap <= -cap
  {
  }

  lemma ModShift(w: nat, k: nat, cap: nat)
    requires cap > 0
    ensures (w % cap + k) % cap == (w + k) % cap
  {
    var q, m := w / cap, w % cap;
    var q2, r2 := (m + k) / cap, (m + k) % cap;
    assert w + k == (q + q2) * cap + r2;
    ModUnique(w + k, q + q2, r2, cap);
  }

  /** The write side's copy: `data` goes into `storage` from slot `start`, as a head
      segment up to the end of the store and, if anything is left, a tail segment
      from slot 0. */
  function CopyIn<T>(storage: seq<T>, start: nat, data: seq<T>): (s: seq<T>)
    requires start < |storage|
    requires |data| <= |storage|
    ensures |s| == |storage|
    ensures forall k :: 0 <= k < |data| ==> s[(start + k) % |storage|] == data[k]
    ensures forall i :: 0 <= i < |storage| && Offset(start, i, |storage|) >= |data| ==> s[i] == storage[i]
  {
    var headLen := Min(|data|, |storage| - start);
    var afterHead := storage[..start] + data[..headLen] + storage[start + headLen..];
    var remaining := |data| - headLen;
    var s := if remaining > 0 then data[headLen..] + afterHead[remaining..] else afterHead;
    CopyInSlots(storage, start, data, s);
    s
  }

  lemma CopyInSlots<T>(storage: seq<T>, start: nat, data: seq<T>, s: seq<T>)
    requires start < |storage|
    requires |data| <= |storage|
    requires var headLen := Min(|data|, |storage| - start);
             var afterHead := storage[..start] + data[..headLen] + storage[start + headLen..];
             var remaining := |data| - headLen;
             s == if remaining > 0 then data[headLen..] + afterHead[remaining..] else afterHead
    ensures |s| == |storage|
    ensures forall k :: 0 <= k < |data| ==> s[(start + k) % |storage|] == data[k]
    ensures forall i :: 0 <= i < |storage| && Offset(start, i, |storage|) >= |data| ==> s[i] == storage[i]
  {
    var cap := |storage|;
    var headLen := Min(|data|, cap - start);
    var remaining := |data| - headLen;
    forall k | 0 <= k < |data|
      ensures s[(start + k) % cap] == data[k]
    {
      if k < headLen {
        ModUnique(start + k, 0, start + k, cap);
      } else {
        ModUnique(start + k, 1, k - headLen, cap);
      }
    }
    forall i | 0 <= i < cap && Offset(start, i, cap) >= |data|
      ensures s[i] == storage[i]
    {
      if i >= start {
        ModUnique(i - start, 0, i - start, cap);
      } else {
        ModUnique(i - start, -1, i - start + cap, cap);
      }
    }
  }

  /** The read side's copy: `count` elements of `storage` from slot `start`, as a head
      segment up to the end of the store and, if anything is left, a tail segment
      from slot 0. */
  function CopyOut<T>(storage: seq<T>, start: nat, count: nat): (d: seq<T>)
    requires start < |storage|
    requires count <= |storage|
    ensures |d| == count
    ensures forall k :: 0 <= k < count ==> d[k] == storage[(start + k) % |storage|]
  {
    var headLen := Min(count, |storage| - start);
    var remaining := count - headLen;
    var d := storage[start..start + headLen] + storage[..remaining];
    CopyOutSlots(storage, start, count, d);
    d
  }

  lemma CopyOutSlots<T>(storage: seq<T>, start: nat, count: nat, d: seq<T>)
    requires start < |storage|
    requires count <= |storage|
    requires var headLen := Min(count, |storage| - start);
             d == storage[start..start + headLen] + storage[..count - headLen]
    ensures |d| == count
    ensures forall k :: 0 <= k < count ==> d[k] == storage[(start + k) % |storage|]
  {
    var cap := |storage|;
    var headLen := Min(count, cap - start);
    forall k | 0 <= k < count
      ensures d[k] == storage[(start + k) % cap]
    {
      if k < headLen {
        ModUnique(start + k, 0, start + k, cap);
      } else {
        ModUnique(start + k, 1, k - headLen, cap);
      }
    }
  }

  datatype WriteOutcome<T> = WriteOutcome(status: Status, buffer: Buffer<T>)

  /** `nb` is `b` after an accepted write of `data[..count]`: the write head has moved
      on by `count`, the read head has stayed, element `k` sits in slot
      `(writeHead + k) % capacity`, and every slot at least `count` steps past the
      write head is as it was. */
  ghost predicate Appended<T>(b: Buffer<T>, nb: Buffer<T>, data: seq<T>, count: nat)
    requires b.Valid() && count <= |data|
  {
    && nb.Valid() && nb.Capacity() == b.Capacity()
    && nb.writeHead == b.writeHead + count && nb.readHead == b.readHead
    && (forall k :: 0 <= k < count ==> nb.storage[(b.writeHead + k) % b.Capacity()] == data[k])
    && (forall i :: 0 <= i < b.Capacity() && Offset(b.writeHead, i, b.Capacity()) >= count ==>
          nb.storage[i] == b.storage[i])
  }

  /** `write(from:count:)`. `data` stands for the source pointer and must hold at least
      `count` elements when the call reaches the copy. */
  function Write<T>(b: Buffer<T>, data: seq<T>, count: int): (r: WriteOutcome<T>)
    requires b.Valid()
    requires count <= |data|
    ensures r.buffer.Valid() && r.buffer.Capacity() == b.Capacity()
    ensures r.status == NoErr <==> 0 < count <= b.Free()
    ensures r.status.Code() == (if 0 < count <= b.Free() then 0 else -1)
    ensures r.status == Rejected ==> r.buffer == b
    ensures r.status == NoErr ==>
      && r.buffer.writeHead == b.writeHead + count
      && r.buffer.readHead == b.readHead
    ensures r.status == NoErr ==> forall k :: 0 <= k < count ==>
      r.buffer.storage[(b.writeHead + k) % b.Capacity()] == data[k]
    ensures r.status == NoErr ==> forall i :: 0 <= i < b.Capacity() && Offset(b.writeHead, i, b.Capacity()) >= count ==>
      r.buffer.storage[i] == b.storage[i]
    ensures r.status == NoErr ==> Appended(b, r.buffer, data, count)
  {
    if count <= 0 then
      WriteOutcome(Rejected, b)
    else if b.Free() < count then
      WriteOutcome(Rejected, b)
    else
      var s := CopyIn(b.storage, b.writeHead % b.Capacity(), data[..count]);
      CopyInAtHead(b, data, count, s);
      WriteOutcome(NoErr, b.(storage := s, writeHead := b.writeHead + count))
  }

  /** The copy made at the reduced write head `writeHead % capacity`, seen from the
      unreduced counter: element `k` lands in slot `(writeHead + k) % capacity`, and the
      slots left alone are those at least `count` steps past the write head. */
  lemma CopyInAtHead<T>(b: Buffer<T>, data: seq<T>, count: nat, s: seq<T>)
    requires b.Valid() && count <= |data| && count <= b.Capacity()
    requires s == CopyIn(b.storage, b.writeHead % b.Capacity(), data[..count])
    ensures forall k :: 0 <= k < count ==> s[(b.writeHead + k) % b.Capacity()] == data[k]
    ensures forall i :: 0 <= i < b.Capacity() && Offset(b.writeHead, i, b.Capacity()) >= count ==>
      s[i] == b.storage[i]
  {
    var cap := b.Capacity();
    forall k | 0 <= k < count
      ensures s[(b.writeHead + k) % cap] == data[k]
    {
      ModShift(b.writeHead, k, cap);
    }
    forall i | 0 <= i < cap
      ensures Offset(b.writeHead, i, cap) == Offset(b.writeHead % cap, i, cap)
    {
      OffsetShift(b.writeHead, i, cap);
    }
  }

  lemma OffsetShift(w: nat, i: nat, cap: nat)
    requires cap > 0
    ensures Offset(w, i, cap) == Offset(w % cap, i, cap)
  {
    var q, m := w / cap, w % cap;
    var q3, r3 := (i - w) / cap, (i - w) % cap;
    assert i - m == (q3 + q) * cap + r3;
    ModUnique(i - m, q3 + q, r3, cap);
  }

  /** An accepted write is the two-segment copy at the write head, then the head's advance. */
  lemma WriteSucceeds<T>(b: Buffer<T>, data: seq<T>, count: int)
    requires b.Valid() && count <= |data|
    requires 0 < count <= b.Free()
    ensures Write(b, data, count) ==
      WriteOutcome(NoErr, Buffer(CopyIn(b.storage, b.writeHead % b.Capacity(), data[..count]), b.writeHead + count, b.readHead))
  {
  }

  /** `write(from: [DataType])`: the whole array, so an empty array is rejected. */
  function WriteAll<T>(b: Buffer<T>, data: seq<T>): (r: WriteOutcome<T>)
    requires b.Valid()
    ensures r.buffer.Valid() && r.buffer.Capacity() == b.Capacity()
    ensures data == [] ==> r.status == Rejected
    ensures r.status == NoErr <==> 0 < |data| <= b.Free()
    ensures r.status.Code() == (if 0 < |data| <= b.Free() then 0 else -1)
    ensures r.status == Rejected ==> r.buffer == b
    ensures r.status == NoErr ==>
      && r.buffer.writeHead == b.writeHead + |data|
      && r.buffer.readHead == b.readHead
    ensures r.status == NoErr ==> forall k :: 0 <= k < |data| ==>
      r.buffer.storage[(b.writeHead + k) % b.Capacity()] == data[k]
    ensures r.status == NoErr ==> forall i :: 0 <= i < b.Capacity() && Offset(b.writeHead, i, b.Capacity()) >= |data| ==>
      r.buffer.storage[i] == b.storage[i]
  {
    Write(b, data, |data|)
  }

  datatype ReadOutcome<T> = ReadOutcome(status: Status, buffer: Buffer<T>, dest: seq<T>)

  /** `read(into:count:)`. `dest` stands for the destination pointer and must have room
      for at least `count` elements; slots of it past `count` are left alone. */
  function Read<T>(b: Buffer<T>, dest: seq<T>, count: int): (r: ReadOutcome<T>)
    requires b.Valid()
    requires count <= |dest|
    ensures r.buffer.Valid() && r.buffer.storage == b.storage
    ensures r.status == NoErr <==> 0 < count <= b.writeHead - b.readHead
    ensures r.status.Code() == (if 0 < count <= b.writeHead - b.readHead then 0 else -1)
    ensures r.status == Rejected ==> r.buffer == b && r.dest == dest
    ensures r.status == NoErr ==>
      && r.buffer.readHead == b.readHead + count
      && r.buffer.writeHead == b.writeHead
    ensures |r.dest| == |dest|
    ensures r.status == NoErr ==> forall k :: 0 <= k < count ==>
      r.dest[k] == b.storage[(b.readHead + k) % b.Capacity()]
    ensures forall k :: 0 <= k < |dest| && k >= count ==> r.dest[k] == dest[k]
  {
    if count <= 0 then
      ReadOutcome(Rejected, b, dest)
    else if b.writeHead - b.readHead < count then
      ReadOutcome(Rejected, b, dest)
    else
      var d := CopyOut(b.storage, b.readHead % b.Capacity(), count);
      CopyOutAtHead(b.storage, b.readHead, count, d);
      ReadOutcome(NoErr, b.(readHead := b.readHead + count), d + dest[count..])
  }

  /** The copy made from the reduced head `r % capacity`, seen from the unreduced
      counter `r`: element `k` comes from slot `(r + k) % capacity`. */
  lemma CopyOutAtHead<T>(storage: seq<T>, r: nat, count: nat, d: seq<T>)
    requires 0 < |storage| && count <= |storage|
    requires d == CopyOut(storage, r % |storage|, count)
    ensures forall k :: 0 <= k < count ==> d[k] == storage[(r + k) % |storage|]
  {
    forall k | 0 <= k < count
      ensures d[k] == storage[(r + k) % |storage|]
    {
      ModShift(r, k, |storage|);
    }
  }

  /** An accepted read is the two-segment copy at the read head, then the head's advance. */
  lemma ReadSucceeds<T>(b: Buffer<T>, dest: seq<T>, count: int)
    requires b.Valid() && count <= |dest|
    requires 0 < count <= b.writeHead - b.readHead
    ensures Read(b, dest, count) ==
      ReadOutcome(NoErr, b.(readHead := b.readHead + count), CopyOut(b.storage, b.readHead % b.Capacity(), count) + dest[count..])
  {
  }
}
