/** The optional-value datatype used for regular-expression captures, a pending
    package name, the changelog file that may be absent, and a write that may
    not happen. */
module Wrappers {

  datatype Option<+T> = None | Some(value: T)

}
