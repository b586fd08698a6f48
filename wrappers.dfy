/** Optional values, used where the visualizer may produce nothing. */
module Wrappers {

  datatype Option<+T> = None | Some(value: T)
}
