/** The Option type shared by the models: Rust's `Option<T>`. */
module Wrappers {

  datatype Option<+T> = None | Some(value: T)

}
