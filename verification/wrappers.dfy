/** Small failure-carrying datatypes used by the list model. */
module Wrappers {

  /** A possibly absent value; `None` plays the role of a null node pointer. */
  datatype Option<+T> = None | Some(value: T)

  /** The exception the list throws: `std::out_of_range` with its message. */
  datatype Error = OutOfRange(message: string)

  /** Either a value or the exception raised instead of it. */
  datatype Result<+T> = Ok(value: T) | Err(error: Error)
}
