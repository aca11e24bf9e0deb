/** Option and Result values shared by every module of the R*-tree model, and
    the error kinds the index can report instead of throwing. */
module Wrappers {

  datatype Option<+T> = None | Some(value: T)

  /** The failures the index reports.  Each one stands for an exception the
      implementation throws (or would throw) at the corresponding point. */
  datatype Error =
    | InvalidBounds      // a Bounds whose lower value exceeds its upper value
    | InvalidSplit       // no candidate distribution to choose a split from
    | NodeMissing        // a node block read returned nothing
    | CorruptNode        // a node read from the store does not fit the index
    | MissingParent      // an operation that needs the parent entry got none
    | MissingChild       // an entry that should point at a child node points nowhere
    | EmptyNode          // a choice among the entries of a node that has none
    | WrongEntryCount    // forced reinsertion on a node without M+1 entries
    | OutOfRange         // an index or dimension outside the valid range
    | BufferOverflow     // an encoding does not fit into one block
    | BufferUnderflow    // a decoding ran past the bytes that were read
    | OutOfFuel          // the recursion bound of the model was exhausted

  datatype Result<+T> = Ok(value: T) | Err(error: Error) {

    predicate IsFailure() {
      Err?
    }

    function PropagateFailure<U>(): Result<U>
      requires Err?
    {
      Err(error)
    }

    function Extract(): T
      requires Ok?
    {
      value
    }
  }
}
