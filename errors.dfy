/** The converter's exceptions, as a datatype of error kinds, and the wrappers that carry them. */
module Errors {

  /** Optional values: Python's `None` or a present value. */
  datatype Option<+T> = None | Some(value: T)

  /** The exception classes of converter/records_to_tree_exceptions.py. */
  datatype ConverterError =
    | DataAttributeMissing(missingCount: nat)  // how many records lack a nesting attribute
    | InvalidDataStructure
    | DuplicateNodesFound
    | MissingNode
    | MissingRecord
    | MissingNestingLevels
    | BranchDoesNotExist                       // declared by the source, never raised
    | NoTreeCreated

  /** The outcome of an operation that either returns a value or raises one of the errors. */
  datatype Result<+T> = Ok(value: T) | Err(error: ConverterError)
}
