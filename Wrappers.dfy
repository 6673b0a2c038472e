/** The absence value of the scripts (`null`, `undefined`, an empty `find`). */
module Wrappers {

  datatype Option<+T> = None | Some(value: T)
}
