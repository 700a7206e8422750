/** Values shared by every part of the model: an optional value, a result that
    may carry one of the script's faults, and the faults themselves. */
module Common {

  datatype Option<+T> = None | Some(value: T)

  /** The exceptions primer_design.py can raise on the paths modelled here. */
  datatype Fault =
    | MissingField(field: nat)        // IndexError: the locus line has too few fields
    | NotAnInteger(field: nat)        // ValueError: int() rejects a locus field
    | UnknownSequence(name: string)   // KeyError: the locus names no indexed sequence
    | LineWidthUnset                  // NameError: base_per_line was never assigned
    | ZeroLineWidth                   // ZeroDivisionError: base_per_line is 0
    | NegativeSeek(position: int)     // ValueError: seek to a negative position
    | TableUnset                      // NameError: no result table was ever built

  /** A value, or the fault that stopped the computation (usable with `:-`). */
  datatype Result<+R> = Ok(value: R) | Err(error: Fault) {
    predicate IsFailure() {
      Err?
    }

    function PropagateFailure<U>(): Result<U>
      requires Err?
    {
      Err(error)
    }

    function Extract(): R
      requires Ok?
    {
      value
    }
  }
}
