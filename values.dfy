/** JavaScript values that reach the planner from user input. */
module Values {

  /** A value that may be absent: a `null` prompt answer, an unset timestamp. */
  datatype Option<+T> = None | Some(value: T)

  /**
   * The result of `parseInt`: an integer or `NaN`. Which strings parse to
   * which integer is outside the model; the planner only ever sees the result.
   */
  datatype Num = NaN | Int(value: int) {
    /** JavaScript truthiness of a number: `NaN` and `0` are falsy. */
    predicate Truthy() {
      Int? && value != 0
    }
  }
}
