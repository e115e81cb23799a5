/** A value that may be missing: used for the normal-form rewriting when its
    step budget runs out. */
module Wrappers {

  datatype Option<+T> = None | Some(value: T)
}
