/** Optional values, used for detector/capture reads that may fail and for
    searches that may find nothing. */
module Wrappers {

  datatype Option<+T> = None | Some(value: T)
}
