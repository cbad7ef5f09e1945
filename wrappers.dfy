/** The optional result of a lookup: `None` stands for the null pointer the registry returns. */
module Wrappers {

  datatype Option<+T> = None | Some(value: T)
}
