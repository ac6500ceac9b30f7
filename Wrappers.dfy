/** Option stands for the C# nullable values and nullable references the source returns. */
module Wrappers {
  datatype Option<+T> = None | Some(value: T)
}
