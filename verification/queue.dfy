/** The FIFO Queue of `src/Queue.js`: live keys `head..tail`, both indices
    collapsing to 0 when the queue empties. */
module Queues {
  import opened Boundary
  import opened SlotStore
  import opened Sequences

  datatype Queue<T> = Queue(head: int, tail: int, total: int, data: map<int, T>)

  /** The representation invariant: an empty queue has both indices at 0 and
      no slot; a non-empty one has live keys exactly `head..tail`, starting
      at 1 or above, and `total` counts them. */
  ghost predicate Valid<T>(q: Queue<T>)
  {
    WindowValid(q.total, q.head, q.tail, q.data)
  }

  /** The abstract queue, oldest first: `data[head], ..., data[tail]`. */
  ghost function Elements<T>(q: Queue<T>): seq<T>
    requires Valid(q)
  {
    Window(q.total, q.head, q.tail, q.data)
  }

  /** `new Queue()`. */
  function New<T>(): (q: Queue<T>)
    ensures Valid(q) && Elements(q) == []
  {
    Queue(0, 0, 0, map[])
  }

  function IsEmpty<T>(q: Queue<T>): (b: bool)
    ensures Valid(q) ==> (b <==> Elements(q) == [])
  {
    q.total == 0
  }

  function Size<T>(q: Queue<T>): (n: int)
    ensures Valid(q) ==> n == |Elements(q)|
  {
    q.total
  }

  /** Rejects `null` and `undefined` before touching any field; otherwise
      stores at `tail + 1`, moving `head` to 1 if it was 0. */
  function Enqueue<T>(q: Queue<T>, element: JsValue<T>): (r: Result<Queue<T>>)
    ensures element.IsNullish() ==> r == Err(EnqueueRejected(element))
    ensures element.Defined? ==> r.Ok? && r.value.total == q.total + 1
    ensures Valid(q) && r.Ok? ==> Valid(r.value) && Elements(r.value) == Elements(q) + [element.value]
  {
    if element.IsNullish() then Err(EnqueueRejected(element))
    else
      var tail := q.tail + 1;
      var head := q.head + if q.head == 0 then 1 else 0;
      var r := Queue(head, tail, q.total + 1, q.data[tail := element.value]);
      assert Valid(q) ==> Valid(r) && Elements(r) == Elements(q) + [element.value] by {
        if Valid(q) {
          WindowAppend(q.total, q.head, q.tail, q.data, element.value);
        }
      }
      Ok(r)
  }

  /** Removes and returns the oldest element; `None` and no change when
      empty; the indices collapse to 0 when the last element leaves. */
  function Dequeue<T>(q: Queue<T>): (r: Removed<T, Queue<T>>)
    ensures Valid(q) ==> Valid(r.after)
    ensures Valid(q) && Elements(q) == [] ==> r == Removed(None, q)
    ensures Valid(q) && Elements(q) != [] ==> r.value == Some(Elements(q)[0]) && Elements(r.after) == Elements(q)[1..]
    ensures Valid(q) && |Elements(q)| == 1 ==> r.after == New()
  {
    if q.total > 0 then
      var element := Get(q.data, q.head);
      var data := q.data - {q.head};
      var total := q.total - 1;
      assert Valid(q) ==> element == Some(Elements(q)[0]) by {
        if Valid(q) { WindowRemoveFirst(q.total, q.head, q.tail, q.data); }
      }
      if total > 0 then
        var after := Queue(q.head + 1, q.tail, total, data);
        assert Valid(q) ==> Valid(after) && Elements(after) == Elements(q)[1..] by {
          if Valid(q) { WindowRemoveFirst(q.total, q.head, q.tail, q.data); }
        }
        Removed(element, after)
      else
        assert Valid(q) ==> data == map[] by {
          if Valid(q) { WindowRemoveFirst(q.total, q.head, q.tail, q.data); }
        }
        Removed(element, Queue(0, 0, total, data))
    else Removed(None, q)
  }

  /** The oldest element without removing it; `None` when empty. */
  function Peek<T>(q: Queue<T>): (r: Option<T>)
    ensures Valid(q) ==> r == if Elements(q) == [] then None else Some(Elements(q)[0])
  {
    Get(q.data, q.head)
  }

  function Clear<T>(q: Queue<T>): (r: Queue<T>)
    ensures Valid(r) && Size(r) == 0 && IsEmpty(r)
  {
    Queue(0, 0, 0, map[])
  }

  /** `[...queue]` as written: the cursor starts at `head` and the test
      `qIndex > tail` comes before any read. */
  function Iterate<T>(q: Queue<T>): (r: seq<Option<T>>)
    ensures Valid(q) && Elements(q) != [] ==> r == Somes(Elements(q))
  {
    ScanUp(q.data, q.head, q.tail)
  }

  /** On an empty queue `head == tail == 0`, so the iterator reads slot 0
      once and yields a single `undefined`. */
  lemma EmptyIterationYieldsUndefined<T>()
    ensures Iterate(New<T>()) == [None]
  {
  }

  /** The corrected iteration: every element, oldest first,
      and nothing at all for an empty queue. */
  function IterateFixed<T>(q: Queue<T>): (r: seq<Option<T>>)
    ensures Valid(q) ==> r == Somes(Elements(q))
  {
    if IsEmpty(q) then [] else Iterate(q)
  }

  /** `queue.enqueue(x)` for each element in order. */
  function EnqueueAll<T>(q: Queue<T>, xs: seq<T>): (r: Queue<T>)
    ensures Valid(q) ==> Valid(r) && Elements(r) == Elements(q) + xs
    decreases |xs|
  {
    if xs == [] then q
    else
      var q' := Enqueue(q, Defined(xs[0])).value;
      var r := EnqueueAll(q', xs[1..]);
      assert Valid(q) ==> Elements(r) == Elements(q) + xs by {
        if Valid(q) {
          assert Elements(r) == Elements(q') + xs[1..];
          assert Elements(q) + xs == Elements(q) + [xs[0]] + xs[1..];
        }
      }
      r
  }

  /** What `while (!queue.isEmpty()) out.push(queue.dequeue())` collects. */
  function Drain<T>(q: Queue<T>): (r: seq<Option<T>>)
    requires Valid(q)
    ensures r == Somes(Elements(q))
    decreases q.total
  {
    if IsEmpty(q) then []
    else
      var d := Dequeue(q);
      SomesOfCons(Elements(q));
      [d.value] + Drain(d.after)
  }

  /** FIFO: enqueueing `xs` into a fresh queue and draining it gives back
      `xs` in the same order, and the drained queue is fresh again, so a
      further `dequeue` yields `undefined`. */
  lemma {:induction false} FillThenDrainIsFifo<T>(xs: seq<T>)
    ensures Drain(EnqueueAll(New(), xs)) == Somes(xs)
    ensures Dequeue(DequeueTimes(EnqueueAll(New(), xs), |xs|)) == Removed(None, New())
  {
    DequeueTimesEmpties(EnqueueAll(New(), xs));
  }

  /** The queue after `n` calls to `dequeue`. */
  function DequeueTimes<T>(q: Queue<T>, n: nat): (r: Queue<T>)
    decreases n
  {
    if n == 0 then q else DequeueTimes(Dequeue(q).after, n - 1)
  }

  /** Dequeueing as many times as there are elements leaves a fresh queue. */
  lemma {:induction false} DequeueTimesEmpties<T>(q: Queue<T>)
    requires Valid(q)
    ensures DequeueTimes(q, |Elements(q)|) == New()
    decreases |Elements(q)|
  {
    if |Elements(q)| == 0 {
      assert q == New() by { NoMemberMeansEmpty(q.data.Keys); }
    } else if |Elements(q)| == 1 {
      assert DequeueTimes(q, 1) == DequeueTimes(Dequeue(q).after, 0);
    } else {
      DequeueTimesEmpties(Dequeue(q).after);
    }
  }

  /** One call made on a queue, as a test script makes it. */
  datatype Op<T> = EnqueueOp(element: JsValue<T>) | DequeueOp | ClearOp

  /** Runs `ops` in order; a rejected `enqueue` throws before changing
      anything, so the script carries on with the queue unchanged. */
  function Run<T>(q: Queue<T>, ops: seq<Op<T>>): (r: Queue<T>)
    decreases |ops|
  {
    if ops == [] then q
    else
      var next := match ops[0]
        case EnqueueOp(e) => (var r := Enqueue(q, e); if r.Ok? then r.value else q)
        case DequeueOp => Dequeue(q).after
        case ClearOp => Clear(q);
      Run(next, ops[1..])
  }

  /** The same script run on a plain sequence: the reference queue. */
  function RunReference<T>(xs: seq<T>, ops: seq<Op<T>>): (r: seq<T>)
    decreases |ops|
  {
    if ops == [] then xs
    else
      var next := match ops[0]
        case EnqueueOp(e) => if e.Defined? then xs + [e.value] else xs
        case DequeueOp => if xs == [] then [] else xs[1..]
        case ClearOp => [];
      RunReference(next, ops[1..])
  }

  /** How many calls of the script are `enqueue` calls. */
  function EnqueueCount<T>(ops: seq<Op<T>>): (n: nat)
  {
    if ops == [] then 0 else (if ops[0].EnqueueOp? then 1 else 0) + EnqueueCount(ops[1..])
  }

  /** Any script keeps the invariant and behaves as the reference queue. */
  lemma {:induction false} RunMatchesReference<T>(q: Queue<T>, ops: seq<Op<T>>)
    requires Valid(q)
    ensures Valid(Run(q, ops)) && Elements(Run(q, ops)) == RunReference(Elements(q), ops)
    decreases |ops|
  {
    if ops != [] {
      match ops[0]
      case EnqueueOp(e) =>
        var r := Enqueue(q, e);
        RunMatchesReference(if r.Ok? then r.value else q, ops[1..]);
      case DequeueOp =>
        RunMatchesReference(Dequeue(q).after, ops[1..]);
      case ClearOp =>
        RunMatchesReference(Clear(q), ops[1..]);
    }
  }

  /** The size of the reference queue never exceeds its start plus the
      number of `enqueue` calls. */
  lemma {:induction false} ReferenceSizeBound<T>(xs: seq<T>, ops: seq<Op<T>>)
    ensures |RunReference(xs, ops)| <= |xs| + EnqueueCount(ops)
    decreases |ops|
  {
    if ops != [] {
      match ops[0]
      case EnqueueOp(e) =>
        ReferenceSizeBound(if e.Defined? then xs + [e.value] else xs, ops[1..]);
      case DequeueOp =>
        ReferenceSizeBound(if xs == [] then [] else xs[1..], ops[1..]);
      case ClearOp =>
        ReferenceSizeBound([], ops[1..]);
    }
  }

  /** From a fresh queue, any script of enqueues, dequeues and clears leaves
      a size that is never negative and never above the number of enqueue
      calls. */
  lemma SizeStaysWithinEnqueues<T>(ops: seq<Op<T>>)
    ensures 0 <= Size(Run(New(), ops)) <= EnqueueCount(ops)
  {
    RunMatchesReference(New(), ops);
    ReferenceSizeBound([], ops);
  }
}
