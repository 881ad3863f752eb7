/** The imperative shape of the buffer: a class owning a backing array of `capacity`
    slots and the two counters, with each copy done in place, slot by slot, as a head
    run from `head % capacity` towards the end of the array and, when that is not
    enough, a tail run from slot 0. The ghost `contents` is the queue the buffer stands
    for; every method keeps it equal to the contents of the functional model. */
module Circular {
  import opened Ring
  import Refinement

  /** The in-place write leaves the store as the functional two-segment copy would:
      the first `count - headLen` slots hold the tail run, the `headLen` slots from
      `start` hold the head run, and every other slot is as it was. */
  lemma HeadThenTailIn<T>(original: seq<T>, start: nat, data: seq<T>, count: nat, final: seq<T>)
    requires start < |original| && count <= |data| && count <= |original|
    requires |final| == |original|
    requires var headLen := Min(count, |original| - start);
             forall j :: 0 <= j < |final| ==>
               final[j] == if j < count - headLen then data[headLen + j]
                           else if start <= j < start + headLen then data[j - start]
                           else original[j]
    ensures final == CopyIn(original, start, data[..count])
  {
    var headLen := Min(count, |original| - start);
    var expected := CopyIn(original, start, data[..count]);
    forall j | 0 <= j < count - headLen
      ensures final[j] == expected[j]
    {
      assert expected[j] == data[..count][headLen..][j];
    }
  }

  /** The in-place read fills the destination as the functional two-segment copy would. */
  lemma HeadThenTailOut<T>(storage: seq<T>, start: nat, count: nat, original: seq<T>, final: seq<T>)
    requires start < |storage| && count <= |storage| && count <= |original|
    requires |final| == |original|
    requires var headLen := Min(count, |storage| - start);
             forall j :: 0 <= j < |final| ==>
               final[j] == if j < headLen then storage[start + j] else if j < count then storage[j - headLen] else original[j]
    ensures final == CopyOut(storage, start, count) + original[count..]
  {
  }

  class CircularBuffer<T> {
    const capacity: nat
    const buffers: array<T>
    var writeHead: nat
    var readHead: nat
    ghost var contents: seq<T>

    /** The functional model's view of this object. */
    function State(): Buffer<T>
      reads this, buffers
    {
      Buffer(buffers[..], writeHead, readHead)
    }

    ghost predicate Valid()
      reads this, buffers
    {
      && buffers.Length == capacity
      && State().Valid()
      && contents == State().Contents()
    }

    /** `init(repeating:capacity:)`. */
    constructor Init(value: T, capacity: int)
      requires capacity > 0
      ensures Valid() && fresh(buffers)
      ensures State() == New(value, capacity) && contents == []
    {
      this.capacity := capacity;
      buffers := new T[capacity](_ => value);
      writeHead := 0;
      readHead := 0;
      contents := [];
      new;
      assert buffers[..] == New(value, capacity).storage;
    }

    /** `approximateCount`, with the two loads taken together. */
    function ApproximateCount(): (n: int)
      reads this, buffers
      ensures Valid() ==> 0 <= n <= capacity && n == |contents|
    {
      writeHead - readHead
    }

    /** The write side's in-place copy: the head run from `startIndex` towards the end
        of the array, then the tail run from slot 0. */
    method CopyIntoStore(data: seq<T>, count: nat, startIndex: nat)
      requires buffers.Length == capacity
      requires startIndex < capacity && count <= capacity && count <= |data|
      modifies buffers
      ensures buffers[..] == CopyIn(old(buffers[..]), startIndex, data[..count])
    {
      var headLen := Min(count, capacity - startIndex);
      ghost var original := buffers[..];
      var k := 0;
      while k < headLen
        invariant 0 <= k <= headLen
        invariant forall j :: 0 <= j < capacity ==>
          buffers[j] == if startIndex <= j < startIndex + k then data[j - startIndex] else original[j]
      {
        buffers[startIndex + k] := data[k];
        k := k + 1;
      }
      var remaining := count - headLen;
      k := 0;
      while k < remaining
        invariant 0 <= k <= remaining <= startIndex
        invariant forall j :: 0 <= j < capacity ==>
          buffers[j] == if j < k then data[headLen + j]
                        else if startIndex <= j < startIndex + headLen then data[j - startIndex]
                        else original[j]
      {
        buffers[k] := data[headLen + k];
        k := k + 1;
      }
      HeadThenTailIn(original, startIndex, data, count, buffers[..]);
    }

    /** `write(from:count:)`, the source pointer standing as a sequence of at least
        `count` elements. */
    method Write(data: seq<T>, count: int) returns (status: Status)
      requires Valid()
      requires count <= |data|
      modifies this, buffers
      ensures Valid()
      ensures WriteOutcome(status, State()) == Ring.Write(old(State()), data, count)
      ensures contents == if status == NoErr then old(contents) + data[..count] else old(contents)
    {
      if count <= 0 {
        return Rejected;
      }
      var w := writeHead;
      var r := readHead;
      var available := capacity - (w - r);
      if available < count {
        return Rejected;
      }
      ghost var before := State();
      CopyIntoStore(data, count, w % capacity);
      writeHead := w + count;
      status := NoErr;
      WriteSucceeds(before, data, count);
      Refinement.WriteRefinesPut(before, data, count);
      contents := contents + data[..count];
    }

    /** `write(from: [DataType])`: the whole sequence, so an empty one is rejected. */
    method WriteAll(data: seq<T>) returns (status: Status)
      requires Valid()
      modifies this, buffers
      ensures Valid()
      ensures WriteOutcome(status, State()) == Ring.WriteAll(old(State()), data)
      ensures contents == if status == NoErr then old(contents) + data else old(contents)
    {
      status := Write(data, |data|);
      assert data[..|data|] == data;
    }

    /** The read side's in-place copy: the head run from `startIndex` towards the end
        of the array, then the tail run from slot 0, into the front of `dest`. */
    method CopyFromStore(dest: array<T>, count: nat, startIndex: nat)
      requires buffers.Length == capacity && dest != buffers
      requires startIndex < capacity && count <= capacity && count <= dest.Length
      modifies dest
      ensures dest[..] == CopyOut(buffers[..], startIndex, count) + old(dest[..])[count..]
    {
      var headLen := Min(count, capacity - startIndex);
      ghost var original := dest[..];
      var k := 0;
      while k < headLen
        invariant 0 <= k <= headLen
        invariant forall j :: 0 <= j < dest.Length ==> dest[j] == if j < k then buffers[startIndex + j] else original[j]
      {
        dest[k] := buffers[startIndex + k];
        k := k + 1;
      }
      var remaining := count - headLen;
      k := 0;
      while k < remaining
        invariant 0 <= k <= remaining <= startIndex
        invariant forall j :: 0 <= j < dest.Length ==>
          dest[j] == if j < headLen then buffers[startIndex + j] else if j < headLen + k then buffers[j - headLen] else original[j]
      {
        dest[headLen + k] := buffers[k];
        k := k + 1;
      }
      HeadThenTailOut(buffers[..], startIndex, count, original, dest[..]);
    }

    /** `read(into:count:)`, the destination pointer standing as an array with room for
        at least `count` elements; it is never the buffer's own, private, store. */
    method Read(dest: array<T>, count: int) returns (status: Status)
      requires Valid()
      requires count <= dest.Length
      requires dest != buffers
      modifies this, dest
      ensures Valid()
      ensures ReadOutcome(status, State(), dest[..]) == Ring.Read(old(State()), old(dest[..]), count)
      ensures status == NoErr ==> dest[..count] == old(contents)[..count]
      ensures contents == if status == NoErr then old(contents)[count..] else old(contents)
    {
      if count <= 0 {
        return Rejected;
      }
      var w := writeHead;
      var r := readHead;
      var available := w - r;
      if available < count {
        return Rejected;
      }
      ghost var before := State();
      ghost var original := dest[..];
      CopyFromStore(dest, count, r % capacity);
      readHead := r + count;
      status := NoErr;
      assert buffers[..] == before.storage;
      assert State() == before.(readHead := r + count);
      ReadSucceeds(before, original, count);
      assert ReadOutcome(status, State(), dest[..]) == Ring.Read(before, original, count);
      Refinement.ReadRefinesTake(before, original, count);
      contents := contents[count..];
    }
  }
}
