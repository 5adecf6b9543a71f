/** The optional value that stands for the C# code's nullable references. */
module Wrappers {

  /** None plays the part of a null reference. */
  datatype Option<+T> = None | Some(value: T)
}
