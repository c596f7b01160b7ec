/** The optional value used for C# nullable references. */
module Wrappers {

  datatype Option<+T> = None | Some(value: T)
}
