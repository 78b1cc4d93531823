/** An optional value: `None` where the .NET code throws, returns `null` or reports
    failure through a `bool` result. */
module Wrappers {
  datatype Option<+T> = None | Some(value: T)
}
