/** The nullable result of a GL call. */
module Wrappers {

  /** `None` stands for a null pointer returned by the driver. */
  datatype Option<+T> = None | Some(value: T)
}
