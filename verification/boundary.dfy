/** How JavaScript values at the containers' boundary are modelled: the
    `undefined` a lookup of a missing key yields, the `null`/`undefined`
    arguments the validated insertion points reject, the `Error` a rejected
    call throws, and the pair a removal hands back. */
module Boundary {

  /** The result of reading a store slot: `None` is the `undefined` that
      JavaScript returns for a missing key. */
  datatype Option<+T> = None | Some(value: T)

  /** An argument passed to a validated insertion point. */
  datatype JsValue<+T> = Undefined | Null | Defined(value: T) {

    /** JavaScript's loose `element == null` test: true of `null` and
        `undefined` and of nothing else. */
    predicate IsNullish() {
      !Defined?
    }
  }

  /** A call either returns normally or throws an `Error` with a message. */
  datatype Result<+T> = Ok(value: T) | Err(message: string)

  /** What a removal (`pop`, `dequeue`, ...) returns, together with the
      container as it is after the call. */
  datatype Removed<+T, +C> = Removed(value: Option<T>, after: C)

  /** How a template literal prints a nullish value. */
  function NullishText<T>(v: JsValue<T>): (text: string)
    requires v.IsNullish()
  {
    if v.Null? then "null" else "undefined"
  }

  /** The message of the `Error` thrown by `enqueue`, `enqueueFront` and
      `enqueueRear` when given `null` or `undefined`. */
  function EnqueueRejected<T>(v: JsValue<T>): (message: string)
    requires v.IsNullish()
  {
    "Not allowed to enqueue " + NullishText(v) + " element. Operation aborted."
  }

  /** The message of the `Error` thrown by the Stack constructor when its
      argument is not an array. */
  const InvalidConstructorParameter: string :=
    "Invalid constructor parameter. Only Array is allowed."
}
