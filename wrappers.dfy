/** Optional values: the `null` slots and `replacedFrameIndex` of the engine,
    and the parser's NaN and thrown error. */
module Wrappers {

  datatype Option<T> = None | Some(value: T)
}
