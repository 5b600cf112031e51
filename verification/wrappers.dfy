/** Optional values, used where the program either produces a value or fails. */
module Wrappers {

  /** `None` stands for "no value": a failed lookup or an exhausted search. */
  datatype Option<+T> = None | Some(value: T)
}
