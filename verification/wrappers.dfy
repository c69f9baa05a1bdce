/** Optional values, used where the C# record leaves a reference field null. */
module Wrappers {

  /** A value that may be absent; None stands for an unset (null) string. */
  datatype Option<+T> = None | Some(value: T)
}
