/** Option and failure values shared by the renderer modules. */
module Wrappers {

  /** An optional value: `None` stands for "no intersection" / "no hit". */
  datatype Option<+T> = None | Some(value: T)

  /** The result of an operation that may abort: `Panic` models a Rust `panic!`. */
  datatype Outcome<+T> = Ok(value: T) | Panic(message: string)
}
