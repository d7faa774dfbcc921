/** Option and Result, used for JavaScript's `null` results and thrown errors. */
module Wrappers {

  /** `None` stands for JavaScript's `null` (or `undefined`) where the source returns "nothing". */
  datatype Option<+T> = None | Some(value: T)

  /** `Failure` stands for an exception thrown by the source. */
  datatype Result<+T, +E> = Success(value: T) | Failure(error: E)
}

/** The JavaScript values that the validators inspect, and the status enum of a control. */
module JsValues {

  /**
   * Plain JavaScript data: what a control's `value` can hold. Numbers are
   * modelled as reals (no NaN, no infinities); strings as sequences of
   * characters, one per Unicode scalar value, so a character outside the
   * Basic Multilingual Plane counts once where JavaScript counts two code units.
   */
  datatype Value =
    | Null
    | Undefined
    | Bool(b: bool)
    | Num(n: real)
    | Str(s: string)
    | Arr(items: seq<Value>)
    | Obj(fields: map<string, Value>)

  /** `v == null` in JavaScript's loose equality: true for `null` and `undefined`. */
  predicate IsNullish(v: Value) {
    v.Null? || v.Undefined?
  }

  /**
   * The `length` property of a non-nullish value: the length of a string or
   * an array, the `length` member of an object if it has one, and
   * `undefined` for booleans and numbers.
   */
  function LengthProp(v: Value): (r: Value)
    requires !IsNullish(v)
    ensures v.Str? ==> r == Num(|v.s| as real)
    ensures v.Arr? ==> r == Num(|v.items| as real)
    ensures (v.Bool? || v.Num?) ==> r == Undefined
  {
    match v
    case Str(s) => Num(|s| as real)
    case Arr(items) => Num(|items| as real)
    case Obj(fields) => if "length" in fields then fields["length"] else Undefined
    case _ => Undefined
  }

  /** A validation error map (`ValidationErrors`): error key to error detail. */
  type ErrMap = map<string, Value>

  /** The status of a control (`ReactiveFormStatus`). */
  datatype Status = VALID | INVALID | PENDING | DISABLED
}
