/** Optional values, used where the database query may find no row. */
module Wrappers {

  datatype Option<+T> = None | Some(value: T)
}
