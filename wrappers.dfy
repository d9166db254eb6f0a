/** C#'s nullable reference: `None` stands for `null`. */
module Wrappers {

  datatype Option<+T> = None | Some(value: T)
}
