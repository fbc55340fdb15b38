/** JavaScript values as the client pages see them: a value that may be missing
    (null or undefined) and the truthiness tests the pages apply to it. */
module JsValues {

  /** A value that may be null or undefined (None). */
  datatype Option<+T> = None | Some(value: T)

  /** `if (x)` on a string: null, undefined and "" are falsy. */
  predicate TruthyString(x: Option<string>) {
    x.Some? && x.value != ""
  }

  /** `if (x)` on a number: null, undefined and 0 are falsy (NaN is not modelled). */
  predicate TruthyNumber(x: Option<int>) {
    x.Some? && x.value != 0
  }

  /** `if (x)` on a boolean that may still be null (a state not yet loaded). */
  predicate TruthyBool(x: Option<bool>) {
    x == Some(true)
  }
}
