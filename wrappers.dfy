/** The optional value used for a storage key that may be absent and for a
    save that may be refused. */
module Wrappers {

  datatype Option<+T> = None | Some(value: T)
}
