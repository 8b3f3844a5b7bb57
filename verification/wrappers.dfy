/** The Some/None datatype used wherever the application returns `None`
    or an operation may fail (an index error, an unparsable timestamp). */
module Wrappers {

  datatype Option<+T> = None | Some(value: T)
}
