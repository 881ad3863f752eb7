# CircularBuffer in Dafny

A model of `CircularBuffer<DataType>`, a fixed-capacity ring buffer. It is meant for one
producer thread and one consumer thread. The buffer has three parts:

- a backing array of `capacity` slots, pre-filled with a caller-supplied value;
- a `writeHead` counter: how many elements have ever been written;
- a `readHead` counter: how many elements have ever been read.

Logical element `i` of the stream lives in slot `i % capacity`. A write or read of `count`
elements copies in at most two runs. The head run goes from the head's slot towards the
end of the array. If elements are left over, a tail run continues from slot 0. Every call
either does all of its work or nothing. It reports `noErr` (0) or -1.

The project has four modules:

- `Ring` (`ring.dfy`) is the functional model. It defines the `Buffer` datatype, the
  representation invariant `Valid`, the abstract contents (the elements written but not
  yet read, oldest first) and the operations. Those are construction, `ApproximateCount`,
  the two-segment copies `CopyIn` and `CopyOut`, `Write` (`write(from:count:)`),
  `WriteAll` (`write(from: [DataType])`) and `Read` (`read(into:count:)`).
- `BoundedQueue` (`bounded_queue.dfy`) is a separate reference definition: a FIFO queue
  with at most `capacity` elements, run over a sequence of put and take calls. Its lemma
  `Conservation` says that nothing is lost, invented or reordered.
- `Refinement` (`refinement.dfy`) proves that the buffer implements that queue. A write
  is a put and a read is a take, including when a copy wraps past the end of the array.
  The lemmas `RunRefinesQueue` and `Fifo` extend this over any sequence of calls.
- `Circular` (`circular_buffer.dfy`) is the imperative form. It is a class with an
  `array<T>`, two `nat` heads and a ghost `contents`. The copies are done in place, one
  slot at a time, by two loops. Each method is proved to give exactly the result of the
  functional operation and to keep `contents` equal to the queue.

Source pointers are modelled as sequences. Destination pointers are sequences in `Ring`
and arrays in `Circular`. The caller must supply at least `count` elements, which is
what an `UnsafePointer` with `count` elements promises. The status code is the datatype
`Status`: `NoErr` is code 0 and `Rejected` is code -1.

## Model

| member | source | states |
|---|---|---|
| Ring.New | Sources/CircularBuffer/CircularBuffer.swift:26-30 | needs `capacity > 0`; the store has `capacity` slots, all holding the fill value; both heads are 0; the count is 0 and the contents are empty |
| Ring.ApproximateCount | Sources/CircularBuffer/CircularBuffer.swift:22-24 | for a valid buffer the result is between 0 and `capacity`; it is the number of buffered elements; it is 0 exactly when nothing is buffered; it plus the free space equals `capacity` |
| Ring.CopyIn | Sources/CircularBuffer/CircularBuffer.swift:54-66 | the head-and-tail copy puts `data[k]` in slot `(start + k) % capacity` for every `k`, keeps the length, and leaves every slot at least `|data|` steps past `start` unchanged |
| Ring.CopyOut | Sources/CircularBuffer/CircularBuffer.swift:85-96 | the head-and-tail copy returns `count` elements, element `k` coming from slot `(start + k) % capacity` |
| Ring.CopyInAtHead | Sources/CircularBuffer/CircularBuffer.swift:54-66 | the copy started at slot `writeHead % capacity` puts element `k` in slot `(writeHead + k) % capacity` of the unreduced counter, and leaves alone exactly the slots at least `count` steps past the write head |
| Ring.CopyOutAtHead | Sources/CircularBuffer/CircularBuffer.swift:85-96 | the copy started at slot `readHead % capacity` takes element `k` from slot `(readHead + k) % capacity` of the unreduced counter |
| Ring.Write | Sources/CircularBuffer/CircularBuffer.swift:41-70 | succeeds exactly when `0 < count <= capacity - (writeHead - readHead)`, and the status code is 0 then and -1 otherwise; on rejection the buffer is unchanged; on success `data[k]` is in slot `(writeHead + k) % capacity`, no other slot changes, `writeHead` grows by `count`, `readHead` stays; the invariant is kept either way |
| Ring.WriteAll | Sources/CircularBuffer/CircularBuffer.swift:32-39 | an empty array is rejected; it succeeds exactly when the array is nonempty and all of it fits (code 0, else -1); on rejection the buffer is unchanged; on success array element `k` is in slot `(writeHead + k) % capacity`, no other slot changes, `writeHead` grows by the array's length and `readHead` stays; the invariant is kept either way |
| Ring.Read | Sources/CircularBuffer/CircularBuffer.swift:72-100 | succeeds exactly when `0 < count <= writeHead - readHead`, and the status code is 0 then and -1 otherwise; on rejection buffer and destination are unchanged; on success destination element `k` is slot `(readHead + k) % capacity` for `k < count`, later destination elements are untouched, storage and `writeHead` are unchanged and `readHead` grows by `count` |
| Refinement.WriteRefinesPut | Sources/CircularBuffer/CircularBuffer.swift:46-69 | a write is accepted exactly when its `count` elements fit in the queue; it then appends `data[..count]` to the contents, and otherwise leaves the contents unchanged |
| Refinement.ReadRefinesTake | Sources/CircularBuffer/CircularBuffer.swift:77-99 | a read is accepted exactly when `count` elements are buffered; it then returns the oldest `count` in order and leaves the rest buffered, and otherwise changes nothing |
| Refinement.RoundTrip | Sources/CircularBuffer/CircularBuffer.swift:41-100 | writing a nonempty sequence that fits into an empty buffer, then reading that many elements, returns the same sequence and leaves the buffer empty, wherever the heads stand |
| Refinement.RunRefinesQueue | Sources/CircularBuffer/CircularBuffer.swift:41-100 | over any sequence of writes and reads, the buffer's contents and every read's result match the bounded FIFO queue given the same calls |
| Refinement.Fifo | Sources/CircularBuffer/CircularBuffer.swift:46-99 | after any sequence of calls on a new buffer, all read results followed by the buffered elements equal the accepted writes' data in order, and the count stays between 0 and `capacity` |
| Refinement.WrapLayout | Sources/CircularBuffer/CircularBuffer.swift:54-66 | with four slots and the write head at 3, a four-element write puts its first element in slot 3 and wraps the other three into slots 0 to 2 |
| Refinement.WrapAround | Sources/CircularBuffer/CircularBuffer.swift:41-100 | with four slots: write three, read three, write four (this write wraps), read four; every call succeeds and each read returns its write's elements in order |
| BoundedQueue.Conservation | Sources/CircularBuffer/CircularBuffer.swift:41-100 | in the reference queue, everything taken followed by what remains is the starting contents followed by every accepted put, in order |
| Circular.CircularBuffer.Init | Sources/CircularBuffer/CircularBuffer.swift:26-30 | needs `capacity > 0`; the new object's state is `Ring.New(value, capacity)`: `capacity` slots all holding `value`, both heads 0; the ghost contents are empty and the object's invariant holds |
| Circular.CircularBuffer.CopyIntoStore | Sources/CircularBuffer/CircularBuffer.swift:54-66 | the in-place head loop and tail loop leave the array equal to `CopyIn` applied to the old array |
| Circular.CircularBuffer.CopyFromStore | Sources/CircularBuffer/CircularBuffer.swift:85-96 | the in-place head loop and tail loop leave the destination equal to `CopyOut` of the store, followed by the destination's untouched remainder |
| Circular.CircularBuffer.Write | Sources/CircularBuffer/CircularBuffer.swift:41-70 | the in-place write returns the status of `Ring.Write` and leaves the state `Ring.Write` gives; the ghost contents gain exactly `data[..count]` on success and are unchanged on rejection |
| Circular.CircularBuffer.WriteAll | Sources/CircularBuffer/CircularBuffer.swift:32-39 | the array overload behaves as `Ring.WriteAll` and appends the whole array to the contents on success |
| Circular.CircularBuffer.Read | Sources/CircularBuffer/CircularBuffer.swift:72-100 | the in-place read behaves as `Ring.Read` on both the buffer and the destination array; on success the destination starts with the oldest `count` elements and the contents lose exactly those |
| Circular.CircularBuffer.ApproximateCount | Sources/CircularBuffer/CircularBuffer.swift:22-24 | for a valid object the result is between 0 and `capacity` and equals the length of the ghost contents |

## Left out

- Atomics and memory ordering are not modelled: `ManagedAtomic` and the relaxed,
  acquiring and releasing loads and stores. The heads are plain fields, and each call runs
  to completion before the next one starts. Two-thread interleaving cannot be expressed in
  this sequential model.
- Ring.ApproximateCount: models the count as the exact difference `writeHead - readHead`.
  It omits the race between the two relaxed loads of `CircularBuffer.swift`, which is a
  concurrency effect.
- The 64-bit limit of the heads is not modelled. In `CircularBuffer.swift` the heads are
  `UInt64` and `w + UInt64(count)` (lines 68 and 98) traps on overflow, so a head never
  wraps; it stops the program instead. The model's heads are unbounded naturals, so it
  drops that trap and assumes no head ever reaches 2^64.
- Unsafe-pointer mechanics are not modelled (`withUnsafeBufferPointer`, `baseAddress`,
  `advanced(by:)`, `update(from:count:)`). Pointers are sequences or arrays of known
  length. The `nil` `baseAddress` guards are allocation artefacts and are not modelled,
  except that an empty array passed to `write(from: [DataType])` is rejected either way.
- The `Error` enum is not modelled. It is declared but no operation ever returns it.
  Failure is reported only as -1, modelled as `Rejected`.
- Construction with `capacity <= 0` is a precondition of `Ring.New` and of the class
  constructor `Init`, because the Swift class stops the program in that case.
- `Package.swift` is a build manifest with no logic and is not modelled.
