/** Small result types shared by the capture engine and the preview window. */
module Wrappers {

  /** A value that may be absent: a null `std::shared_ptr`, a null COM pointer,
      or a platform call that produced nothing. */
  datatype Option<+T> = None | Some(value: T)

  /** The outcome of an operation that either completes or raises an error. */
  datatype Outcome<+E> = Pass | Fail(error: E)
}
