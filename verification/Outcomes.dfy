/** Result types shared by the modules of this project. */
module Outcomes {

  datatype Option<+T> = None | Some(value: T)

  /** A stage of the description compiler either yields a value or makes the
      process exit with a diagnostic at a line and a column. */
  datatype Outcome<+T> = Ok(value: T) | Fail(line: nat, col: nat) {
    predicate IsFailure() {
      Fail?
    }

    function PropagateFailure<U>(): Outcome<U>
      requires Fail?
    {
      Fail(line, col)
    }

    function Extract(): T
      requires Ok?
    {
      value
    }
  }
}
