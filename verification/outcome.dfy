/**
 The two ways a step of the assembler can end: with a value, or with the
 exception Python would raise.  Both types work with Dafny's `:-`, so a chain
 of steps stops at the first failure, as the Python code does.
 */
module Outcome {

  /** A value that may be absent (`dict.get` without a default, a number that does not parse). */
  datatype Option<+T> = None | Some(value: T)
  {
    predicate IsFailure() { None? }

    function PropagateFailure<U>(): Option<U>
      requires None?
    {
      None
    }

    function Extract(): T
      requires Some?
    {
      value
    }
  }

  /** A value, or the error that stopped the computation. */
  datatype Result<+T, +E> = Ok(value: T) | Err(error: E)
  {
    predicate IsFailure() { Err? }

    function PropagateFailure<U>(): Result<U, E>
      requires Err?
    {
      Err(error)
    }

    function Extract(): T
      requires Ok?
    {
      value
    }
  }

  /** Why assembling stops: an exception of the Python code, or a register number the model refuses. */
  datatype Fault =
    | NotANumber(text: string)          // `int(...)` raised ValueError
    | RegisterOutOfRange(value: int)    // a number outside 0..31, which Python would pack unmasked
    | MissingOperand(position: nat)     // `operands[position]` raised IndexError
    | EmptyInstruction                  // `parts[0]` raised IndexError: the line held only commas
}
