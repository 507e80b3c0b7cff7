/** Small value wrappers shared by the other modules. */
module Wrappers {

  /** Java's `Optional<T>`: `None` is an empty optional (or a null reference). */
  datatype Option<+T> = None | Some(value: T)
}
