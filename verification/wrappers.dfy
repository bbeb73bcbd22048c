/** The optional value used where the Python code has "no result" (a failed
    table search, a format it does not recognise). */
module Wrappers {

  datatype Option<+T> = None | Some(value: T)

}
