/** The optional value used where the allocator returns a pointer or NULL. */
module Wrappers {

  datatype Option<+T> = None | Some(value: T)

}
