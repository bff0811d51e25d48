/** The NULL-or-value result that the containers hand back. */
module Wrappers {

  /** `None` stands for the C `NULL` a container returns when it has nothing to give. */
  datatype Option<+T> = None | Some(value: T)
}
