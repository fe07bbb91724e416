/** The optional value used throughout: None stands for a missing value or for a Python exception. */
module Options {

  datatype Option<T> = None | Some(value: T)
}
