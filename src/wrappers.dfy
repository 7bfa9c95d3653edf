/** The optional value the model uses wherever the program gets `None` back
    or an operating-system call can fail. */
module Wrappers {

  datatype Option<+T> = None | Some(value: T)
}
