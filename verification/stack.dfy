/** The LIFO Stack of `src/Stack.js`: a store whose live keys are
    `1..index`, with `index` both the key of the top and the size. */
module Stacks {
  import opened Boundary
  import opened SlotStore
  import opened Sequences

  datatype Stack<T> = Stack(data: map<int, T>, index: int)

  /** What the constructor's `elements` parameter was given: no argument or
      an explicit `undefined` (the default `[]` applies to both), an array,
      or any other value, `null` included. */
  datatype CtorArg<T> = Omitted | ArrayArg(elements: seq<T>) | NotAnArray

  /** The representation invariant: `index` is non-negative and the live
      keys are exactly `1..index`. */
  ghost predicate Valid<T>(s: Stack<T>)
  {
    s.index >= 0 && HasKeys(s.data, 1, s.index)
  }

  /** The abstract stack, bottom first: `data[1], ..., data[index]`. */
  ghost function Elements<T>(s: Stack<T>): seq<T>
    requires Valid(s)
  {
    Slice(s.data, 1, s.index)
  }

  /** The fields as the constructor sets them before any element is pushed. */
  function Fresh<T>(): (s: Stack<T>)
    ensures Valid(s) && Elements(s) == []
  {
    Stack(map[], 0)
  }

  /** `new Stack(elements)`: rejects a non-array argument, otherwise pushes
      the elements in order. */
  function New<T>(arg: CtorArg<T>): (r: Result<Stack<T>>)
    ensures r.Err? <==> arg.NotAnArray?
    ensures r.Err? ==> r.message == InvalidConstructorParameter
    ensures r.Ok? ==> Valid(r.value)
    ensures r.Ok? ==> Elements(r.value) == if arg.ArrayArg? then arg.elements else []
  {
    if arg.NotAnArray? then Err(InvalidConstructorParameter)
    else Ok(PushAll(Fresh(), if arg.ArrayArg? then arg.elements else []))
  }

  /** `elements.forEach(element => this.push(element))`. */
  function PushAll<T>(s: Stack<T>, xs: seq<T>): (r: Stack<T>)
    ensures r.index == s.index + |xs|
    ensures Valid(s) ==> Valid(r) && Elements(r) == Elements(s) + xs
    decreases |xs|
  {
    if xs == [] then s
    else
      var r := PushAll(Push(s, xs[0]), xs[1..]);
      assert Valid(s) ==> Elements(s) + xs == Elements(s) + [xs[0]] + xs[1..];
      r
  }

  function IsEmpty<T>(s: Stack<T>): (b: bool)
    ensures Valid(s) ==> (b <==> Elements(s) == [])
  {
    s.index == 0
  }

  function Size<T>(s: Stack<T>): (n: int)
    ensures Valid(s) ==> n == |Elements(s)|
  {
    s.index
  }

  /** The top element without removing it; `None` when empty. */
  function Peek<T>(s: Stack<T>): (r: Option<T>)
    ensures Valid(s) ==> r == if Elements(s) == [] then None else Some(Elements(s)[|Elements(s)| - 1])
  {
    Get(s.data, s.index)
  }

  /** Accepts any value: the stack performs no validation. */
  function Push<T>(s: Stack<T>, x: T): (r: Stack<T>)
    ensures r.index == s.index + 1
    ensures Valid(s) ==> Valid(r) && Elements(r) == Elements(s) + [x]
  {
    var r := Stack(s.data[s.index + 1 := x], s.index + 1);
    assert Valid(s) ==> Elements(r) == Elements(s) + [x] by {
      if Valid(s) {
        assert forall i :: 0 <= i < s.index ==> Elements(r)[i] == Elements(s)[i];
      }
    }
    r
  }

  /** Reads the top slot first; only a positive `index` removes it. */
  function Pop<T>(s: Stack<T>): (r: Removed<T, Stack<T>>)
    ensures Valid(s) ==> Valid(r.after)
    ensures Valid(s) && Elements(s) == [] ==> r == Removed(None, s)
    ensures Valid(s) && Elements(s) != [] ==>
      && r.value == Some(Elements(s)[|Elements(s)| - 1])
      && Elements(r.after) == Elements(s)[..|Elements(s)| - 1]
  {
    var element := Get(s.data, s.index);
    if s.index > 0 then Removed(element, Stack(s.data - {s.index}, s.index - 1))
    else Removed(element, s)
  }

  function Clear<T>(s: Stack<T>): (r: Stack<T>)
    ensures Valid(r) && Size(r) == 0 && IsEmpty(r)
  {
    Stack(map[], 0)
  }

  /** `[...stack]`: every element, top first; nothing when empty. */
  function Iterate<T>(s: Stack<T>): (r: seq<Option<T>>)
    ensures Valid(s) ==> r == Somes(Reverse(Elements(s)))
  {
    var r := ScanDown(s.data, s.index);
    assert Valid(s) ==> r == Somes(Reverse(Elements(s))) by {
      if Valid(s) {
        var e := Elements(s);
        forall j | 0 <= j < s.index
          ensures r[j] == Somes(Reverse(e))[j]
        {
          assert Reverse(e)[j] == e[s.index - 1 - j] == s.data[s.index - j];
        }
      }
    }
    r
  }

  /** What `while (!stack.isEmpty()) out.push(stack.pop())` collects. */
  function Drain<T>(s: Stack<T>): (r: seq<Option<T>>)
    requires Valid(s)
    ensures r == Somes(Reverse(Elements(s)))
    decreases s.index
  {
    if IsEmpty(s) then []
    else
      var p := Pop(s);
      ReverseFromLast(Elements(s));
      SomesOfCons(Reverse(Elements(s)));
      [p.value] + Drain(p.after)
  }

  /** A push undone by a pop: the pushed value comes back and the stack is
      as it was. */
  lemma PushThenPop<T>(s: Stack<T>, x: T)
    requires Valid(s)
    ensures Pop(Push(s, x)) == Removed(Some(x), s)
  {
    assert s.data[s.index + 1 := x] - {s.index + 1} == s.data by {
      assert s.index + 1 !in s.data;
    }
  }

  /** Pops come out in reverse push order. */
  lemma ConstructedPopsInReverse<T>(xs: seq<T>)
    ensures New(ArrayArg(xs)).Ok?
    ensures Drain(New(ArrayArg(xs)).value) == Somes(Reverse(xs))
    ensures Peek(New(ArrayArg(xs)).value) == if xs == [] then None else Some(xs[|xs| - 1])
  {
  }

  /** A stack built from `[1, 2, 3]` pops 3 and then shows 2 on top with
      two elements left. */
  lemma PopAfterConstruction()
    ensures var s := New(ArrayArg([1, 2, 3])).value;
            var p := Pop(s);
            && p.value == Some(3)
            && Peek(p.after) == Some(2)
            && Size(p.after) == 2
  {
    var s := New(ArrayArg([1, 2, 3])).value;
    assert Elements(s) == [1, 2, 3];
    assert Elements(Pop(s).after) == [1, 2];
  }

  /** `clear` returns to the state of `new Stack()`, and a second `clear`
      changes nothing. */
  lemma ClearIsFresh<T>(s: Stack<T>)
    ensures Clear(s) == New<T>(Omitted).value
    ensures Clear(Clear(s)) == Clear(s)
  {
  }
}
