/** Rust's `Option<T>`: the accumulator of the nearest-key fold and its result. */
module Optional {

  datatype Option<T> = None | Some(value: T)

}
