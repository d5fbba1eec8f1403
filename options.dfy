/** The usual optional-value datatype, used for Ruby's `nil` results and unset instance variables. */
module Options {

  datatype Option<+T> = None | Some(value: T)
}
