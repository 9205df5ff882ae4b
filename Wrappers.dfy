/** The absent-or-present marker used where the Java code returns `null`. */
module Wrappers {

  datatype Option<+T> = None | Some(value: T)
}
