/** The optional value the store's lookups and the nullable results of the
    authentication module are expressed with. */
module Wrappers {

  datatype Option<+T> = None | Some(value: T)
}
