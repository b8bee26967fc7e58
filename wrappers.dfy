/** Optional values: `None` stands for a missing cell (NaN) of the dataset. */
module Wrappers {

  datatype Option<+T> = None | Some(value: T)
}
