/** The error outcomes of the modelled operations. */
module Faults {

  /** What the source raises: `IndexOutOfRange` is the `IndexError` of a `del` at a
      position the list does not have; `NoRecords` is the `ValueError` of unpacking the
      surfaces of an empty record list. */
  datatype Fault = IndexOutOfRange | NoRecords

  datatype Result<T> = Success(value: T) | Failure(error: Fault)

  /** An argument that may be absent (Python's `None`). */
  datatype Option<T> = None | Some(value: T)
}
