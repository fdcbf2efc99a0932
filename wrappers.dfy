/** Optional values: `None` stands for the operations of the C++ core that throw
    (an unknown slash symbol, an argument index out of range, a spine step past
    an atomic category). */
module Wrappers {
  datatype Option<+T> = None | Some(value: T)
}
