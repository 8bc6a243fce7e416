/** Option and Result, the two wrappers the generator's Rust code returns, and Max on naturals. */
module Common {

  datatype Option<+T> = None | Some(value: T)

  datatype Result<+T, +E> = Ok(value: T) | Err(error: E)

  /** The larger of two naturals; the room-fit and overlap reasoning use it. */
  function Max(a: nat, b: nat): nat { if a < b then b else a }
}
