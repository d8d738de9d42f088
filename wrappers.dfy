/** The optional value the model uses wherever the Python code returns `None`
    or raises an exception that its caller catches. */
module Wrappers {

  datatype Option<+T> = None | Some(value: T)
}
