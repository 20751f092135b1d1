/** The usual optional-value wrapper, standing in for the C source's nullable pointers
    and "found / not found" results. */
module Wrappers {

  datatype Option<+T> = None | Some(value: T)
}
