/** The Option datatype that stands for C#'s nullable references throughout the model. */
module Wrappers {

  /** `None` is the C# `null`: an absent value, or a tombstone in the memory tier. */
  datatype Option<+T> = None | Some(value: T)
}
