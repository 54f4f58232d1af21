// Optional values: the model's stand-in for Python's None and SQL's NULL.
module Wrappers {

  datatype Option<+T> = None | Some(value: T)
}
