/** Optional values: the driver's "no reading" state. */
module Wrappers {

  /** A value that may be missing; the driver uses None where the C++ code stores NaN. */
  datatype Option<+T> = None | Some(value: T)
}
