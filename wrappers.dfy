/** The optional value used for the stored cursor and for the cursor read back from it. */
module Wrappers {

  datatype Option<+T> = None | Some(value: T)
}
