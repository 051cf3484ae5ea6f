# Array-free linear containers, modelled in Dafny

This project models the three containers of the `totus` JavaScript library:
`Stack` (LIFO), `Queue` (FIFO) and `Deque` (double-ended). None of them stores
its elements in an array. Each keeps a plain object used as a sparse map from
integer keys to elements, plus boundary indices:

- the Stack keeps one `index`, and its live keys are `1..index`;
- the Queue and the Deque keep `head`, `tail` and `total`, and their live keys
  are `head..tail`. Both indices collapse to 0 when the container empties;
- the Deque's `enqueueFront` rebuilds the whole store. The new element goes to
  key 1, and the old values, listed by `Object.values` in increasing key order,
  go to keys 2, 3, and so on.

Every container is an immutable datatype holding a `map<int, T>` and `int`
indices. Every operation is a pure function of the raw fields that follows the
source's branches, so a state the invariant does not cover can still be
modelled. A removal returns a `Removed(value, after)` pair. A read of a missing
key is `None`, which stands for JavaScript's `undefined`. A thrown `Error` is
`Err(message)`. Because a function returns a new state, "a rejected call changes
nothing" means that the caller keeps its old state.

Each container has a representation invariant (`Valid`) and an abstraction
function (`Elements`) to a `seq<T>`. The contracts state each operation's effect
on that sequence, and lemmas relate runs of operations to an independent
sequence model.

Modules: `Boundary` (JavaScript values at the API boundary, results, messages),
`Sequences` (wrapping and reversing, with their algebra), `SlotStore` (the keyed store, `Object.values`, the `reduce` rebuild, iterator
cursors), `Stacks`, `Queues`, `Deques`.

## Model

| member | source | states |
|---|---|---|
| SlotStore.ValuesInKeyOrder | src/Deque.js:101 | `Object.values` lists exactly as many values as the store has keys |
| SlotStore.ValuesInKeyOrderOfRange | src/Deque.js:101 | on a store keyed exactly `lo..hi`, `Object.values` yields `data[lo], ..., data[hi]` in that order |
| SlotStore.Reindex | src/Deque.js:102-109 | the `reduce` puts the i-th listed value at key i + 2, keeps the seed's other keys, and adds no other key |
| SlotStore.PrependStore | src/Deque.js:101-109 | the rebuilt store has keys exactly `1..n+1`, and read from key 1 it is the new element followed by the old values |
| SlotStore.ScanUp | src/Queue.js:23-35 | an ascending cursor yields one slot per key from its start through `tail`, each read as the stored value or `undefined` |
| SlotStore.ScanDown | src/Stack.js:30-42 | a descending cursor yields one slot per positive key from its start down to 1 |
| Stacks.Fresh | src/Stack.js:20-21 | the constructor's initial fields satisfy the invariant and hold no element |
| Stacks.New | src/Stack.js:18-27 | a non-array argument other than `undefined` throws "Invalid constructor parameter. Only Array is allowed." and nothing else does; an array gives a stack holding its elements in order, and an omitted or `undefined` argument gives an empty one |
| Stacks.PushAll | src/Stack.js:24 | pushing a sequence in order appends it to the abstract stack and raises `index` by its length |
| Stacks.IsEmpty | src/Stack.js:51-53 | `isEmpty` holds exactly when the abstract stack is empty |
| Stacks.Size | src/Stack.js:60-62 | `size` is the number of stacked elements |
| Stacks.Peek | src/Stack.js:69-71 | `peek` returns the most recently pushed element, or `undefined` when empty |
| Stacks.Push | src/Stack.js:78-83 | `push` accepts any value, always grows the size by one, keeps the invariant, and puts the value on top |
| Stacks.Pop | src/Stack.js:90-103 | `pop` keeps the invariant; on an empty stack it returns `undefined` and changes nothing; otherwise it returns the top and removes only it |
| Stacks.Clear | src/Stack.js:108-113 | after `clear` the invariant holds, `size` is 0 and `isEmpty` is true |
| Stacks.Iterate | src/Stack.js:30-42 | iteration yields the elements top first, and nothing when empty |
| Stacks.Drain | src/Stack.js:90-103 | popping until empty yields the elements in reverse push order |
| Stacks.PushThenPop | src/Stack.js:78-103 | `push(x)` then `pop()` returns `x` and restores the previous stack exactly |
| Stacks.ConstructedPopsInReverse | src/Stack.js:18-27 | a stack built from an array pops its elements last to first, and `peek` shows the last one |
| Stacks.PopAfterConstruction | src/Stack.js:18-103 | a stack built from `[1, 2, 3]` pops 3, after which `peek` shows 2 and `size` is 2 |
| Stacks.ClearIsFresh | src/Stack.js:108-113 | `clear` yields the state of `new Stack()`, and clearing twice equals clearing once |
| Queues.New | src/Queue.js:15-20 | a new queue satisfies the invariant and is empty |
| Queues.IsEmpty | src/Queue.js:44-46 | `isEmpty` holds exactly when the abstract queue is empty |
| Queues.Size | src/Queue.js:53-55 | `size` is the number of queued elements |
| Queues.Enqueue | src/Queue.js:63-74 | `null`/`undefined` throw "Not allowed to enqueue null/undefined element. Operation aborted." and produce no new state; any other value is accepted, grows `total` by one, keeps the invariant and is appended at the back |
| Queues.Dequeue | src/Queue.js:83-104 | `dequeue` keeps the invariant; on an empty queue it returns `undefined` and changes nothing; otherwise it returns the oldest element and removes only it; removing the last element gives back the fresh queue |
| Queues.Peek | src/Queue.js:111-115 | `peek` returns the oldest element, or `undefined` when empty |
| Queues.Clear | src/Queue.js:120-127 | after `clear` the invariant holds, `size` is 0 and `isEmpty` is true |
| Queues.Iterate | src/Queue.js:23-35 | on a non-empty queue, iteration yields the elements oldest to newest |
| Queues.EmptyIterationYieldsUndefined | src/Queue.js:25-31 | on an empty queue, iteration as written yields exactly one `undefined` |
| Queues.IterateFixed | src/Queue.js:23-35 | corrected iteration yields the elements oldest to newest for every valid queue, including the empty one |
| Queues.EnqueueAll | src/Queue.js:63-74 | enqueueing a sequence in order appends it to the abstract queue |
| Queues.Drain | src/Queue.js:83-104 | dequeueing until empty yields the elements in insertion order |
| Queues.FillThenDrainIsFifo | src/Queue.js:63-104 | after enqueueing `xs` into a fresh queue, the dequeues return `xs` in order, and one more `dequeue` returns `undefined` on a fresh queue |
| Queues.DequeueTimesEmpties | src/Queue.js:93-99 | as many dequeues as there are elements collapse the queue back to the fresh state |
| Queues.RunMatchesReference | src/Queue.js:63-127 | any script of enqueues (including rejected ones), dequeues and clears keeps the invariant and behaves like a plain sequence queue |
| Queues.SizeStaysWithinEnqueues | src/Queue.js:63-104 | from a fresh queue, after any script, the size is never negative and never above the number of `enqueue` calls |
| Deques.New | src/Deque.js:15-20 | a new deque satisfies the invariant, has its front at key 1 or below, and is empty |
| Deques.IsEmpty | src/Deque.js:43-45 | `isEmpty` holds exactly when the abstract deque is empty |
| Deques.Size | src/Deque.js:52-54 | `size` is the number of stored elements |
| Deques.PeekFront | src/Deque.js:63-65 | `peekFront` returns the front element, or `undefined` when empty |
| Deques.PeekRear | src/Deque.js:74-76 | `peekRear` returns the rear element, or `undefined` when empty |
| Deques.EnqueueFront | src/Deque.js:86-117 | `null`/`undefined` throw the fixed message and produce no new state; any other value grows `total` by one; on a deque whose head is at key 1 (or that is empty), the invariant is kept and the element is prepended |
| Deques.EnqueueFrontFixed | src/Deque.js:86-117 | with `head` reset to 1 after the rebuild, `enqueueFront` keeps the invariant and prepends on every valid deque |
| Deques.EnqueueFrontAgreesWhenAligned | src/Deque.js:98-113 | when the head is at key 1 or the deque is empty, the code as written and the corrected `enqueueFront` coincide |
| Deques.EnqueueFrontBreaksUnalignedDeque | src/Deque.js:98-113 | on every valid deque whose head has moved past 1, the code as written leaves a state that breaks the invariant |
| Deques.EnqueueFrontAfterDequeueFrontExample | src/Deque.js:98-113 | after enqueueRear 1, enqueueRear 2, dequeueFront, enqueueFront 3, the front still shows 2, the rear reads `undefined`, and iteration yields `[2, undefined]` |
| Deques.EnqueueRear | src/Deque.js:126-147 | `null`/`undefined` throw the fixed message and produce no new state; any other value grows `total` by one, keeps the invariant and is appended at the rear |
| Deques.DequeueFront | src/Deque.js:156-179 | `dequeueFront` keeps the invariant; on an empty deque it returns `undefined` and changes nothing; otherwise it returns the front element and removes only it; removing the last element gives back the fresh deque |
| Deques.DequeueRear | src/Deque.js:188-212 | `dequeueRear` keeps the invariant and a head at key 1; on an empty deque it returns `undefined` and changes nothing; otherwise it returns the rear element and removes only it; removing the last element gives back the fresh deque |
| Deques.Clear | src/Deque.js:217-224 | after `clear` the invariant holds, `size` is 0 and `isEmpty` is true |
| Deques.ClearIsNew | src/Deque.js:217-224 | `clear` yields the state of `new Deque()`, and clearing twice equals clearing once |
| Deques.Iterate | src/Deque.js:23-35 | on a non-empty deque, iteration yields the elements front to rear |
| Deques.EmptyIterationYieldsUndefined | src/Deque.js:25-32 | on an empty deque, iteration as written yields exactly one `undefined` |
| Deques.IterateFixed | src/Deque.js:23-35 | corrected iteration yields the elements front to rear for every valid deque, including the empty one |
| Deques.FillFront | src/Deque.js:86-117 | `enqueueFront` of a sequence in order, starting with the head at key 1, keeps the head there and puts the sequence reversed in front |
| Deques.FillRear | src/Deque.js:126-147 | `enqueueRear` of a sequence in order appends it at the rear |
| Deques.DrainFront | src/Deque.js:156-179 | `dequeueFront` until empty yields the elements front to rear |
| Deques.DrainRear | src/Deque.js:188-212 | `dequeueRear` until empty yields the elements rear to front |
| Deques.FrontFillDrains | src/Deque.js:86-212 | filled with `enqueueFront`, the deque drains newest first from the front and in insertion order from the rear |
| Deques.RearFillDrains | src/Deque.js:126-212 | filled with `enqueueRear`, the deque drains in insertion order from the front and newest first from the rear, and iterates in insertion order |
| Deques.PeeksAtBothEnds | src/Deque.js:56-76 | with one element both peeks return it; with two different elements at the ends the peeks differ |
| Deques.MixedEndsScenario | src/Deque.js:86-179 | after enqueueRear a, enqueueRear b, enqueueFront c: the front is c, the rear is b, the size is 3, and draining from the front yields c, a, b |
| Deques.RunMatchesReference | src/Deque.js:86-224 | any script of insertions at either end (including rejected ones), removals at either end and clears, using the corrected `enqueueFront`, keeps the invariant and behaves like a plain sequence deque |

## Left out

- `src/LinkedList.js` and `src/util/ListNode.js` are not part of this model. `src/LinkedList.js` exports nothing and runs a `console.log` demo when it loads (`src/LinkedList.js`, lines 85-90). `src/util/ListNode.js` is only the getter/setter node class it uses.
- The lazy iterator protocol is not modelled. `next()` closures read the live `tail` and `data`; the model treats iteration as a pure snapshot of the current state, and mutation during an iteration is not modelled.
- Queues.Iterate: the contract covers non-empty queues only, because the code as written yields one `undefined` on an empty queue (see Findings).
- Deques.Iterate: the contract covers non-empty deques only, for the same reason.
- Deques.EnqueueFront: prepending and keeping the invariant are proved only when the head is at key 1 or the deque is empty, because in any other state the code breaks the invariant (see Findings).
- JavaScript's dynamic typing is reduced to tags. `element == null` becomes `JsValue.IsNullish()`, and `Array.isArray` becomes the `CtorArg` tag. Because `constructor(elements = [])` applies its default to an explicit `undefined` as well, `new Stack(undefined)` is `Omitted` and gives an empty stack; `null` and every other non-array value is `NotAnArray`. Extra constructor arguments (`new Stack(1, 2, 3)`) are ignored, as in JavaScript, so only the first one matters.
- Array arguments are modelled as dense sequences. `forEach` skips the holes of a sparse array, so `new Stack(Array(3))` is empty in JavaScript, whereas an `ArrayArg` of three elements gives a stack of size 3.
- Stored `undefined` versus an empty stack: the Stack accepts any value, so a pushed `null` or `undefined` is an ordinary element of `T` here. The model's `Some(x)`/`None` therefore tells a popped `undefined` apart from the `undefined` returned by an empty stack, which JavaScript cannot do.
- The `null` writes before the two `delete`s in the Deque (`data[head] = null` in `dequeueFront`, `src/Deque.js` line 162; `data[tail] = null` in `dequeueRear`, line 194) are skipped. The key is deleted on the next line, so neither write can be observed.
- Indices are unbounded `int`. JavaScript number precision and overflow are not modelled.
- Costs are not modelled. That `enqueueFront` is O(n) and every other operation is O(1) appears only in the structure of the definitions.
- Error messages for values other than `null` and `undefined` are not modelled, since only those two are ever rejected.
- Concerns of the library's own test suite are left out: random sizes, reflection over method names, and instance and identity checks.

## Findings

| source | as written | input that shows it | evidently intended | confidence | as-written member | corrected member |
|---|---|---|---|---|---|---|
| src/Deque.js:98-113 | a non-empty `enqueueFront` renumbers the store from key 1 but leaves `head` unchanged | `enqueueRear(1); enqueueRear(2); dequeueFront(); enqueueFront(3)` leaves `head == 2`, `tail == 3` and keys {1, 2}: `peekFront()` is 2, `peekRear()` is `undefined`, and iteration yields `[2, undefined]` | reset `head` to 1 (and `tail` to the new size) after the rebuild | high, not executed | Deques.EnqueueFront (shown by Deques.EnqueueFrontAfterDequeueFrontExample and Deques.EnqueueFrontBreaksUnalignedDeque) | Deques.EnqueueFrontFixed (used by Deques.Run) |
| src/Queue.js:25-31 | the iterator tests `qIndex > tail` before reading, starting from `head` | `[...new Queue()]` is `[undefined]` | an empty queue iterates over nothing | high, not executed | Queues.Iterate (shown by Queues.EmptyIterationYieldsUndefined) | Queues.IterateFixed |
| src/Deque.js:25-32 | the iterator tests `index > tail` before reading, starting from `head` | `[...new Deque()]` is `[undefined]` | an empty deque iterates over nothing | high, not executed | Deques.Iterate (shown by Deques.EmptyIterationYieldsUndefined) | Deques.IterateFixed |
