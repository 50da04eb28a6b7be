/** An optional value: the model's stand-in for Python's `None` and for
    "no match" results of the pattern scanners. */
module Opt {

  datatype Option<+T> = None | Some(value: T)

}
