/** Failure-compatible wrappers and the failures the detection pipeline can end in. */
module Outcomes {

  datatype Option<+T> = None | Some(value: T)

  datatype Result<+T, +E> = Ok(value: T) | Err(error: E) {

    predicate IsFailure() {
      Err?
    }

    function PropagateFailure<U>(): Result<U, E>
      requires Err?
    {
      Err(error)
    }

    function Extract(): T
      requires Ok?
    {
      value
    }
  }

  /** Every way a detection request can stop without a result.
      HttpError is an HTTPException raised on purpose by an endpoint; the other
      kinds are exceptions the Python code lets escape (a web framework answers
      them with status 500). */
  datatype Failure =
    | HttpError(status: nat, detail: string)
    | UnreadableCsv                          // read_csv raised outside any handler
    | TooFewColumns                          // ValueError from predict_flows
    | NonNumericCell(row: nat, column: nat)  // astype(float) on a text cell of the feature block
    | ClassifierRaised                       // model.predict rejected its input
    | MaskLengthMismatch                     // boolean mask whose length differs from the rows
    | PositionOutOfRange                     // iloc / list index past the end
    | MissingColumn(name: string)            // KeyError on a column lookup by name
}
