/** Option and Result datatypes shared by the game model. */
module Wrappers {

  /** An optional value; the game uses it for the buffered key request and
      for the last erased tail cell, both of which start out as Python's None. */
  datatype Option<+T> = None | Some(value: T)

  /** The outcome of an operation that can raise; `Err` carries the error. */
  datatype Result<+R, +E> = Ok(value: R) | Err(error: E)
}
