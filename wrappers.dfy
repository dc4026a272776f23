/** Optional values: the result of `parseInt` (None stands for NaN) and a
    percentage that JavaScript computes as 0 / 0. */
module Wrappers {

  datatype Option<+T> = None | Some(value: T)

}
