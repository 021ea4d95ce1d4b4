/** Failure-free absence of a value, shared by the heap and both stacks. */
module Wrappers {

  /** `None` stands for the `null` / `undefined` the containers return when empty. */
  datatype Option<+T> = None | Some(value: T)
}
