/** An optional value. The distance computation returns None where the
    floating-point result would be NaN (the mean over zero dimensions). */
module Wrappers {

  datatype Option<+T> = None | Some(value: T)
}
