/** Option and Result wrappers used across the model: Python's `None` and raised exceptions. */
module Wrappers {

  /** `None` stands for Python's `None` (an absent key, a missing attribute). */
  datatype Option<+T> = None | Some(value: T)

  /** The exceptions the modelled code raises, by Python exception class. */
  datatype Error =
    | KeyError       // an unknown key or an already registered serializer tag
    | StructError    // struct.pack given a value outside the int32 range
    | ValueError     // an unresolved handler name
    | RuntimeError   // a thread started twice, a record without a routing id
    | TypeError      // iterating over `None`

  datatype Result<+T> = Ok(value: T) | Err(error: Error)
}
