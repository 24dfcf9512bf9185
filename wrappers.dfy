/** An optional value: `None` stands for an operation that fails, as a
    Java method that throws does, or for a receiver that rejects its input. */
module Wrappers {
  datatype Option<T> = None | Some(value: T)
}
