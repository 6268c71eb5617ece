/** The optional value used wherever the scripts either produce a value or
    fail (an unparseable number, an aggregate of an empty dataset). */
module Wrappers {

  datatype Option<+T> = None | Some(value: T)
}
