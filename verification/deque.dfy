/** The double-ended queue of `src/Deque.js`: the Queue's `head..tail`
    scheme, with removal at the rear and an O(n) insertion at the front that
    rebuilds the whole store. */
module Deques {
  import opened Boundary
  import opened SlotStore
  import opened Sequences

  datatype Deque<T> = Deque(total: int, head: int, tail: int, data: map<int, T>)

  /** The representation invariant, the same as the Queue's: an empty deque
      has both indices at 0 and no slot; a non-empty one has live keys
      exactly `head..tail`, starting at 1 or above, and `total` counts them. */
  ghost predicate Valid<T>(d: Deque<T>)
  {
    WindowValid(d.total, d.head, d.tail, d.data)
  }

  /** The abstract deque, front first: `data[head], ..., data[tail]`. */
  ghost function Elements<T>(d: Deque<T>): seq<T>
    requires Valid(d)
  {
    Window(d.total, d.head, d.tail, d.data)
  }

  /** A valid deque whose front sits at key 1 (or that is empty): the only
      states in which `enqueueFront` keeps the invariant. */
  ghost predicate FrontAligned<T>(d: Deque<T>)
  {
    Valid(d) && d.head <= 1
  }

  /** `new Deque()`. */
  function New<T>(): (d: Deque<T>)
    ensures FrontAligned(d) && Elements(d) == []
  {
    Deque(0, 0, 0, map[])
  }

  function IsEmpty<T>(d: Deque<T>): (b: bool)
    ensures Valid(d) ==> (b <==> Elements(d) == [])
  {
    d.total == 0
  }

  function Size<T>(d: Deque<T>): (n: int)
    ensures Valid(d) ==> n == |Elements(d)|
  {
    d.total
  }

  /** The front element without removing it; `None` when empty. */
  function PeekFront<T>(d: Deque<T>): (r: Option<T>)
    ensures Valid(d) ==> r == if Elements(d) == [] then None else Some(Elements(d)[0])
  {
    Get(d.data, d.head)
  }

  /** The rear element without removing it; `None` when empty. */
  function PeekRear<T>(d: Deque<T>): (r: Option<T>)
    ensures Valid(d) ==> r == if Elements(d) == [] then None else Some(Elements(d)[|Elements(d)| - 1])
  {
    Get(d.data, d.tail)
  }

  /** `enqueueFront` as written. On a non-empty deque it lists the stored
      values in key order, rebuilds the store with the new element at key 1
      and the old values at keys 2, 3, ..., and advances `tail`; `head` is
      left where it was. */
  function EnqueueFront<T>(d: Deque<T>, element: JsValue<T>): (r: Result<Deque<T>>)
    ensures element.IsNullish() ==> r == Err(EnqueueRejected(element))
    ensures element.Defined? ==> r.Ok? && r.value.total == d.total + 1
    ensures FrontAligned(d) && r.Ok? ==>
      && FrontAligned(r.value)
      && Elements(r.value) == [element.value] + Elements(d)
  {
    if element.IsNullish() then Err(EnqueueRejected(element))
    else if IsEmpty(d) then
      var r := Deque(d.total + 1, d.head + 1, d.tail + 1, d.data[d.head + 1 := element.value]);
      assert FrontAligned(d) ==> FrontAligned(r) && Elements(r) == [element.value] + Elements(d) by {
        if FrontAligned(d) { WindowAppend(d.total, d.head, d.tail, d.data, element.value); }
      }
      Ok(r)
    else
      var r := Deque(d.total + 1, d.head, d.tail + 1, PrependStore(ValuesInKeyOrder(d.data), element.value));
      assert FrontAligned(d) ==> FrontAligned(r) && Elements(r) == [element.value] + Elements(d) by {
        if FrontAligned(d) { WindowPrepend(d.total, d.head, d.tail, d.data, element.value); }
      }
      Ok(r)
  }

  /** `enqueueFront` with the index reset its renumbering calls for: after
      the rebuild the live keys are `1..total`, so `head` becomes 1 and
      `tail` the new size. */
  function EnqueueFrontFixed<T>(d: Deque<T>, element: JsValue<T>): (r: Result<Deque<T>>)
    ensures element.IsNullish() ==> r == Err(EnqueueRejected(element))
    ensures element.Defined? ==> r.Ok? && r.value.total == d.total + 1
    ensures Valid(d) && r.Ok? ==>
      && FrontAligned(r.value)
      && Elements(r.value) == [element.value] + Elements(d)
  {
    if element.IsNullish() then Err(EnqueueRejected(element))
    else if IsEmpty(d) then
      var r := Deque(d.total + 1, d.head + 1, d.tail + 1, d.data[d.head + 1 := element.value]);
      assert Valid(d) ==> FrontAligned(r) && Elements(r) == [element.value] + Elements(d) by {
        if Valid(d) { WindowAppend(d.total, d.head, d.tail, d.data, element.value); }
      }
      Ok(r)
    else
      var r := Deque(d.total + 1, 1, d.total + 1, PrependStore(ValuesInKeyOrder(d.data), element.value));
      assert Valid(d) ==> FrontAligned(r) && Elements(r) == [element.value] + Elements(d) by {
        if Valid(d) { WindowPrepend(d.total, d.head, d.tail, d.data, element.value); }
      }
      Ok(r)
  }

  /** Rejects `null` and `undefined`; otherwise stores at `tail + 1`, also
      advancing `head` when the deque was empty. */
  function EnqueueRear<T>(d: Deque<T>, element: JsValue<T>): (r: Result<Deque<T>>)
    ensures element.IsNullish() ==> r == Err(EnqueueRejected(element))
    ensures element.Defined? ==> r.Ok? && r.value.total == d.total + 1
    ensures Valid(d) && r.Ok? ==> Valid(r.value) && Elements(r.value) == Elements(d) + [element.value]
    ensures FrontAligned(d) && r.Ok? ==> FrontAligned(r.value)
  {
    if element.IsNullish() then Err(EnqueueRejected(element))
    else
      var head := if IsEmpty(d) then d.head + 1 else d.head;
      var r := Deque(d.total + 1, head, d.tail + 1, d.data[d.tail + 1 := element.value]);
      assert Valid(d) ==> Valid(r) && Elements(r) == Elements(d) + [element.value] by {
        if Valid(d) { WindowAppend(d.total, d.head, d.tail, d.data, element.value); }
      }
      Ok(r)
  }

  /** Removes and returns the front element; `None` and no change when
      empty; the indices collapse to 0 when the last element leaves. */
  function DequeueFront<T>(d: Deque<T>): (r: Removed<T, Deque<T>>)
    ensures Valid(d) ==> Valid(r.after)
    ensures Valid(d) && Elements(d) == [] ==> r == Removed(None, d)
    ensures Valid(d) && Elements(d) != [] ==> r.value == Some(Elements(d)[0]) && Elements(r.after) == Elements(d)[1..]
    ensures Valid(d) && |Elements(d)| == 1 ==> r.after == New()
  {
    if !IsEmpty(d) then
      var element := Get(d.data, d.head);
      var data := d.data - {d.head};
      assert Valid(d) ==> element == Some(Elements(d)[0]) && (d.head < d.tail <==> d.total > 1) by {
        if Valid(d) { WindowRemoveFirst(d.total, d.head, d.tail, d.data); }
      }
      if d.head < d.tail then
        var after := Deque(d.total - 1, d.head + 1, d.tail, data);
        assert Valid(d) ==> Valid(after) && Elements(after) == Elements(d)[1..] by {
          if Valid(d) { WindowRemoveFirst(d.total, d.head, d.tail, d.data); }
        }
        Removed(element, after)
      else
        assert Valid(d) ==> data == map[] by {
          if Valid(d) { WindowRemoveFirst(d.total, d.head, d.tail, d.data); }
        }
        Removed(element, Deque(d.total - 1, 0, 0, data))
    else Removed(None, d)
  }

  /** Removes and returns the rear element; `None` and no change when
      empty; the indices collapse to 0 when the last element leaves. */
  function DequeueRear<T>(d: Deque<T>): (r: Removed<T, Deque<T>>)
    ensures Valid(d) ==> Valid(r.after)
    ensures FrontAligned(d) ==> FrontAligned(r.after)
    ensures Valid(d) && Elements(d) == [] ==> r == Removed(None, d)
    ensures Valid(d) && Elements(d) != [] ==>
      && r.value == Some(Elements(d)[|Elements(d)| - 1])
      && Elements(r.after) == Elements(d)[..|Elements(d)| - 1]
    ensures Valid(d) && |Elements(d)| == 1 ==> r.after == New()
  {
    if !IsEmpty(d) then
      var element := Get(d.data, d.tail);
      var data := d.data - {d.tail};
      assert Valid(d) ==> element == Some(Elements(d)[d.total - 1]) && (d.head < d.tail <==> d.total > 1) by {
        if Valid(d) { WindowRemoveLast(d.total, d.head, d.tail, d.data); }
      }
      if d.tail > d.head then
        var after := Deque(d.total - 1, d.head, d.tail - 1, data);
        assert Valid(d) ==> Valid(after) && Elements(after) == Elements(d)[..d.total - 1] by {
          if Valid(d) { WindowRemoveLast(d.total, d.head, d.tail, d.data); }
        }
        Removed(element, after)
      else
        assert Valid(d) ==> data == map[] by {
          if Valid(d) { WindowRemoveLast(d.total, d.head, d.tail, d.data); }
        }
        Removed(element, Deque(d.total - 1, 0, 0, data))
    else Removed(None, d)
  }

  function Clear<T>(d: Deque<T>): (r: Deque<T>)
    ensures FrontAligned(r) && Size(r) == 0 && IsEmpty(r)
  {
    Deque(0, 0, 0, map[])
  }

  /** `clear` returns to the state of `new Deque()`; a second `clear`
      changes nothing. */
  lemma ClearIsNew<T>(d: Deque<T>)
    ensures Clear(d) == New()
    ensures Clear(Clear(d)) == Clear(d)
  {
  }

  /** `[...deque]` as written: the cursor starts at `head` and the test
      `index > tail` comes before any read. */
  function Iterate<T>(d: Deque<T>): (r: seq<Option<T>>)
    ensures Valid(d) && Elements(d) != [] ==> r == Somes(Elements(d))
  {
    ScanUp(d.data, d.head, d.tail)
  }

  /** On an empty deque `head == tail == 0`, so the iterator reads slot 0
      once and yields a single `undefined`. */
  lemma EmptyIterationYieldsUndefined<T>()
    ensures Iterate(New<T>()) == [None]
  {
  }

  /** The corrected iteration: every element, front first,
      and nothing at all for an empty deque. */
  function IterateFixed<T>(d: Deque<T>): (r: seq<Option<T>>)
    ensures Valid(d) ==> r == Somes(Elements(d))
  {
    if IsEmpty(d) then [] else Iterate(d)
  }

  /** On a front-aligned deque the as-written `enqueueFront` is the
      corrected one. */
  lemma EnqueueFrontAgreesWhenAligned<T>(d: Deque<T>, element: JsValue<T>)
    requires FrontAligned(d)
    ensures EnqueueFront(d, element) == EnqueueFrontFixed(d, element)
  {
  }

  /** Once a `dequeueFront` has moved `head` past 1, the as-written
      `enqueueFront` always breaks the invariant: the rebuilt store has a
      slot at key 1, below the unchanged `head`. */
  lemma EnqueueFrontBreaksUnalignedDeque<T>(d: Deque<T>, x: T)
    requires Valid(d) && d.head > 1
    ensures !Valid(EnqueueFront(d, Defined(x)).value)
  {
    var e := EnqueueFront(d, Defined(x)).value;
    assert 1 in e.data;
  }

  /** The first steps of the concrete run: after enqueueRear 1, enqueueRear
      2 and dequeueFront, the deque holds 2 at key 2 alone. */
  lemma ExampleAfterDequeueFront()
    ensures DequeueFront(EnqueueRear(EnqueueRear(New(), Defined(1)).value, Defined(2)).value).after
         == Deque(1, 2, 2, map[2 := 2])
  {
    var d0 := EnqueueRear(New<int>(), Defined(1)).value;
    assert d0 == Deque(1, 1, 1, map[1 := 1]);
    var d1 := EnqueueRear(d0, Defined(2)).value;
    assert d1 == Deque(2, 1, 2, map[1 := 1, 2 := 2]);
    assert d1.data - {1} == map[2 := 2];
  }

  /** The last step of the concrete run: enqueueFront 3 rebuilds the store
      as {1: 3, 2: 2} but keeps `head` at 2. */
  lemma ExampleEnqueueFront()
    ensures EnqueueFront(Deque(1, 2, 2, map[2 := 2]), Defined(3)).value == Deque(2, 2, 3, map[1 := 3, 2 := 2])
  {
    var d := Deque(1, 2, 2, map[2 := 2]);
    ValuesInKeyOrderOfRange(d.data, 2, 2);
    var store := PrependStore([2], 3);
    assert Slice(store, 1, 2) == [3, 2];
    assert store == map[1 := 3, 2 := 2];
  }

  /** A concrete run: enqueue 1 and 2 at the rear, dequeue the front, then
      enqueue 3 at the front. The deque should read `[3, 2]`; instead its
      front is still 2, its rear slot is missing, and iteration yields
      `[2, undefined]`. */
  lemma EnqueueFrontAfterDequeueFrontExample()
    ensures var d0 := EnqueueRear(New<int>(), Defined(1));
            var d1 := EnqueueRear(d0.value, Defined(2));
            var d := DequeueFront(d1.value).after;
            var e := EnqueueFront(d, Defined(3)).value;
            && Valid(d) && Elements(d) == [2]
            && Size(e) == 2
            && PeekFront(e) == Some(2)
            && PeekRear(e) == None
            && Iterate(e) == [Some(2), None]
  {
    ExampleAfterDequeueFront();
    ExampleEnqueueFront();
    ExampleObservations();
  }

  /** What the caller sees of the state the concrete run ends in. */
  lemma ExampleObservations()
    ensures var d := Deque(1, 2, 2, map[2 := 2]);
            var e := Deque(2, 2, 3, map[1 := 3, 2 := 2]);
            && Valid(d) && Elements(d) == [2]
            && Size(e) == 2
            && PeekFront(e) == Some(2)
            && PeekRear(e) == None
            && Iterate(e) == [Some(2), None]
  {
    var d := Deque(1, 2, 2, map[2 := 2]);
    assert Valid(d) && Elements(d) == [2];
    var e := Deque(2, 2, 3, map[1 := 3, 2 := 2]);
    assert ScanUp(e.data, 2, 3) == [Get(e.data, 2), Get(e.data, 3)];
  }

  /** One step of `FillFront`: after `enqueueFront` of the first element,
      reversing the remaining ones in front gives the whole input reversed
      in front of the original deque. */
  lemma FillFrontStep<T>(d: Deque<T>, xs: seq<T>)
    requires FrontAligned(d) && xs != []
    ensures var d' := EnqueueFront(d, Defined(xs[0])).value;
            && FrontAligned(d')
            && Reverse(xs[1..]) + Elements(d') == Reverse(xs) + Elements(d)
  {
    assert xs == [xs[0]] + xs[1..];
    ReverseOfCons(xs[0], xs[1..]);
  }

  /** `deque.enqueueFront(x)` for each element in order. */
  function FillFront<T>(d: Deque<T>, xs: seq<T>): (r: Deque<T>)
    ensures FrontAligned(d) ==> FrontAligned(r) && Elements(r) == Reverse(xs) + Elements(d)
    decreases |xs|
  {
    if xs == [] then d
    else
      var d' := EnqueueFront(d, Defined(xs[0])).value;
      assert FrontAligned(d) ==> FrontAligned(d') && Reverse(xs[1..]) + Elements(d') == Reverse(xs) + Elements(d) by {
        if FrontAligned(d) { FillFrontStep(d, xs); }
      }
      FillFront(d', xs[1..])
  }

  /** `deque.enqueueRear(x)` for each element in order. */
  function FillRear<T>(d: Deque<T>, xs: seq<T>): (r: Deque<T>)
    ensures Valid(d) ==> Valid(r) && Elements(r) == Elements(d) + xs
    ensures FrontAligned(d) ==> FrontAligned(r)
    decreases |xs|
  {
    if xs == [] then d
    else
      var d' := EnqueueRear(d, Defined(xs[0])).value;
      var r := FillRear(d', xs[1..]);
      assert Valid(d) ==> Elements(r) == Elements(d) + xs by {
        if Valid(d) {
          assert Elements(r) == Elements(d') + xs[1..];
          assert Elements(d) + xs == Elements(d) + [xs[0]] + xs[1..];
        }
      }
      r
  }

  /** What `while (!deque.isEmpty()) out.push(deque.dequeueFront())` collects. */
  function DrainFront<T>(d: Deque<T>): (r: seq<Option<T>>)
    requires Valid(d)
    ensures r == Somes(Elements(d))
    decreases d.total
  {
    if IsEmpty(d) then []
    else
      var p := DequeueFront(d);
      SomesOfCons(Elements(d));
      [p.value] + DrainFront(p.after)
  }

  /** What `while (!deque.isEmpty()) out.push(deque.dequeueRear())` collects. */
  function DrainRear<T>(d: Deque<T>): (r: seq<Option<T>>)
    requires Valid(d)
    ensures r == Somes(Reverse(Elements(d)))
    decreases d.total
  {
    if IsEmpty(d) then []
    else
      var p := DequeueRear(d);
      ReverseFromLast(Elements(d));
      SomesOfCons(Reverse(Elements(d)));
      [p.value] + DrainRear(p.after)
  }

  /** Filled at the front: the front end gives the elements back newest
      first, the rear end in insertion order. */
  lemma FrontFillDrains<T>(xs: seq<T>)
    ensures DrainFront(FillFront(New(), xs)) == Somes(Reverse(xs))
    ensures DrainRear(FillFront(New(), xs)) == Somes(xs)
  {
    var d := FillFront(New(), xs);
    assert Valid(d) && Elements(d) == Reverse(xs);
    ReverseReverse(xs);
  }

  /** Filled at the rear: the front end gives the elements back in
      insertion order, the rear end newest first; iteration of a non-empty
      deque lists them in insertion order. */
  lemma RearFillDrains<T>(xs: seq<T>)
    ensures DrainFront(FillRear(New(), xs)) == Somes(xs)
    ensures DrainRear(FillRear(New(), xs)) == Somes(Reverse(xs))
    ensures xs != [] ==> Iterate(FillRear(New(), xs)) == Somes(xs)
  {
    var d := FillRear(New(), xs);
    assert Valid(d) && Elements(d) == xs;
  }

  /** With one element both ends show it; with two different elements at
      the ends the two peeks differ. */
  lemma PeeksAtBothEnds<T>(d: Deque<T>)
    requires Valid(d)
    ensures |Elements(d)| == 1 ==> PeekFront(d) == PeekRear(d) == Some(Elements(d)[0])
    ensures |Elements(d)| >= 2 && Elements(d)[0] != Elements(d)[|Elements(d)| - 1] ==> PeekFront(d) != PeekRear(d)
  {
  }

  /** Two rear insertions followed by a front insertion: the front shows the
      last one, the rear the second, and draining from the front yields the
      three in the order front, first, second. */
  lemma MixedEndsScenario<T>(a: T, b: T, c: T)
    ensures var d := EnqueueFront(EnqueueRear(EnqueueRear(New(), Defined(a)).value, Defined(b)).value, Defined(c)).value;
            && PeekFront(d) == Some(c)
            && PeekRear(d) == Some(b)
            && Size(d) == 3
            && DrainFront(d) == [Some(c), Some(a), Some(b)]
  {
  }

  /** One call made on a deque, as a test script makes it. */
  datatype Op<T> =
    | EnqueueFrontOp(element: JsValue<T>)
    | EnqueueRearOp(element: JsValue<T>)
    | DequeueFrontOp
    | DequeueRearOp
    | ClearOp

  /** Runs `ops` in order with the corrected `enqueueFront`; a rejected
      insertion throws before changing anything, so the script carries on
      with the deque unchanged. */
  function Run<T>(d: Deque<T>, ops: seq<Op<T>>): (r: Deque<T>)
    decreases |ops|
  {
    if ops == [] then d
    else
      var next := match ops[0]
        case EnqueueFrontOp(e) => (var r := EnqueueFrontFixed(d, e); if r.Ok? then r.value else d)
        case EnqueueRearOp(e) => (var r := EnqueueRear(d, e); if r.Ok? then r.value else d)
        case DequeueFrontOp => DequeueFront(d).after
        case DequeueRearOp => DequeueRear(d).after
        case ClearOp => Clear(d);
      Run(next, ops[1..])
  }

  /** The same script run on a plain sequence: the reference deque. */
  function RunReference<T>(xs: seq<T>, ops: seq<Op<T>>): (r: seq<T>)
    decreases |ops|
  {
    if ops == [] then xs
    else
      var next := match ops[0]
        case EnqueueFrontOp(e) => if e.Defined? then [e.value] + xs else xs
        case EnqueueRearOp(e) => if e.Defined? then xs + [e.value] else xs
        case DequeueFrontOp => if xs == [] then [] else xs[1..]
        case DequeueRearOp => if xs == [] then [] else xs[..|xs| - 1]
        case ClearOp => [];
      RunReference(next, ops[1..])
  }

  /** Any script keeps the invariant and behaves as the reference deque. */
  lemma {:induction false} RunMatchesReference<T>(d: Deque<T>, ops: seq<Op<T>>)
    requires Valid(d)
    ensures Valid(Run(d, ops)) && Elements(Run(d, ops)) == RunReference(Elements(d), ops)
    decreases |ops|
  {
    if ops != [] {
      match ops[0]
      case EnqueueFrontOp(e) =>
        var r := EnqueueFrontFixed(d, e);
        RunMatchesReference(if r.Ok? then r.value else d, ops[1..]);
      case EnqueueRearOp(e) =>
        var r := EnqueueRear(d, e);
        RunMatchesReference(if r.Ok? then r.value else d, ops[1..]);
      case DequeueFrontOp =>
        RunMatchesReference(DequeueFront(d).after, ops[1..]);
      case DequeueRearOp =>
        RunMatchesReference(DequeueRear(d).after, ops[1..]);
      case ClearOp =>
        RunMatchesReference(Clear(d), ops[1..]);
    }
  }
}
