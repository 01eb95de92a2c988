/** Option and Result, used for the missing cells of a reindexed table and
    for the colour generator's "not enough candidates" outcome. */
module Wrappers {

  datatype Option<+T> = None | Some(value: T)

  datatype Result<+R, +E> = Success(value: R) | Failure(error: E)
}
