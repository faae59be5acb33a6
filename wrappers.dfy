/** Option and Result values shared by the kernel modules. */
module Wrappers {

  /** Rust's `Option<T>`. */
  datatype Option<+T> = None | Some(value: T)

  /** Rust's `Result<T, E>`; `PageEntry::address` returns both halves carrying an address. */
  datatype Result<+T, +E> = Ok(value: T) | Err(error: E)
}
