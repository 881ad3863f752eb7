/** The abstract behaviour the circular buffer promises its two callers: a first-in,
    first-out queue of at most `capacity` elements, kept oldest first. A put either
    appends all of its elements or, when they do not fit or there are none, nothing;
    a take either removes the oldest `n` elements or, when there are fewer or `n` is
    not positive, nothing. */
module BoundedQueue {

  /** One call by a client: a put of `data`, or a take of `|into|` elements into `into`. */
  datatype Op<T> = Put(data: seq<T>) | Take(into: seq<T>)

  /** The queue after a run of calls, and what each successful take returned, in call order. */
  datatype Trace<T> = Trace(items: seq<T>, taken: seq<seq<T>>)

  predicate CanPut<T>(items: seq<T>, capacity: nat, data: seq<T>) {
    0 < |data| && |items| + |data| <= capacity
  }

  predicate CanTake<T>(items: seq<T>, n: int) {
    0 < n <= |items|
  }

  /** The queue after one call, and what that call handed back (nothing, or one chunk). */
  function Step<T>(items: seq<T>, capacity: nat, op: Op<T>): (r: Trace<T>)
    ensures |r.taken| <= 1
    ensures |items| <= capacity ==> |r.items| <= capacity
  {
    match op
    case Put(data) =>
      if CanPut(items, capacity, data) then Trace(items + data, []) else Trace(items, [])
    case Take(into) =>
      if CanTake(items, |into|) then Trace(items[|into|..], [items[..|into|]]) else Trace(items, [])
  }

  function Run<T>(items: seq<T>, capacity: nat, ops: seq<Op<T>>): (t: Trace<T>)
    ensures |items| <= capacity ==> |t.items| <= capacity
    ensures |t.taken| <= |ops|
    decreases |ops|
  {
    if ops == [] then
      Trace(items, [])
    else
      var first := Step(items, capacity, ops[0]);
      var rest := Run(first.items, capacity, ops[1..]);
      Trace(rest.items, first.taken + rest.taken)
  }

  /** The data of `op` if it is a put the queue accepts, as a list of at most one chunk. */
  function Admitted<T>(items: seq<T>, capacity: nat, op: Op<T>): seq<seq<T>> {
    if op.Put? && CanPut(items, capacity, op.data) then [op.data] else []
  }

  /** The data of the puts that were accepted, in call order. */
  function Accepted<T>(items: seq<T>, capacity: nat, ops: seq<Op<T>>): seq<seq<T>>
    decreases |ops|
  {
    if ops == [] then
      []
    else
      var first := Step(items, capacity, ops[0]);
      Admitted(items, capacity, ops[0]) + Accepted(first.items, capacity, ops[1..])
  }

  function Flatten<T>(chunks: seq<seq<T>>): seq<T>
    decreases |chunks|
  {
    if chunks == [] then [] else chunks[0] + Flatten(chunks[1..])
  }

  lemma {:induction false} FlattenAppend<T>(a: seq<seq<T>>, b: seq<seq<T>>)
    ensures Flatten(a + b) == Flatten(a) + Flatten(b)
    decreases |a|
  {
    if a == [] {
      assert a + b == b;
    } else {
      assert (a + b)[1..] == a[1..] + b;
      FlattenAppend(a[1..], b);
    }
  }

  /** One call loses nothing and invents nothing. */
  lemma StepConservation<T>(items: seq<T>, capacity: nat, op: Op<T>)
    ensures var r := Step(items, capacity, op);
            Flatten(r.taken) + r.items == items + Flatten(Admitted(items, capacity, op))
  {
    match op
    case Put(data) =>
      if CanPut(items, capacity, data) {
        assert Flatten([data]) == data + Flatten([]);
      }
    case Take(into) =>
      if CanTake(items, |into|) {
        assert Flatten([items[..|into|]]) == items[..|into|] + Flatten([]);
        assert items[..|into|] + items[|into|..] == items;
      }
  }

  /** The regrouping step of `Conservation`, stated over plain sequences so that its
      proof does not see the definitions of `Run`, `Accepted` and `Flatten`. */
  lemma Regroup<T>(a: seq<T>, b: seq<T>, c: seq<T>, d: seq<T>, start: seq<T>, mid: seq<T>, end: seq<T>)
    requires b + end == mid + d
    requires a + mid == start + c
    ensures (a + b) + end == start + (c + d)
  {
    calc {
      (a + b) + end;
      a + (b + end);
      a + (mid + d);
      (a + mid) + d;
      (start + c) + d;
    }
  }

  /** First in, first out: everything ever taken, followed by what is still queued, is
      exactly what was queued at the start followed by every accepted put, in order. */
  lemma {:induction false} Conservation<T>(items: seq<T>, capacity: nat, ops: seq<Op<T>>)
    ensures var t := Run(items, capacity, ops);
            Flatten(t.taken) + t.items == items + Flatten(Accepted(items, capacity, ops))
    decreases |ops|
  {
    if ops != [] {
      var first := Step(items, capacity, ops[0]);
      var rest := Run(first.items, capacity, ops[1..]);
      var mine := Admitted(items, capacity, ops[0]);
      var later := Accepted(first.items, capacity, ops[1..]);
      Conservation(first.items, capacity, ops[1..]);
      FlattenAppend(first.taken, rest.taken);
      FlattenAppend(mine, later);
      StepConservation(items, capacity, ops[0]);
      var t := Run(items, capacity, ops);
      assert t == Trace(rest.items, first.taken + rest.taken);
      assert Accepted(items, capacity, ops) == mine + later;
      var A, B, C, D := Flatten(first.taken), Flatten(rest.taken), Flatten(mine), Flatten(later);
      assert Flatten(t.taken) == A + B;
      assert B + rest.items == first.items + D;
      assert A + first.items == items + C;
      Regroup(A, B, C, D, items, first.items, rest.items);
    }
  }
}
