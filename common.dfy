/** Small value types shared by every module of the model. */
module Common {

  /** Rust's `Option<T>`. */
  datatype Option<+T> = None | Some(value: T)

  /** `anyhow::Result<T>` with the error detail dropped: only success or failure matters. */
  datatype Result<+T> = Ok(value: T) | Err

  /** Raw file content, as the request body and the download body carry it. */
  type Bytes = seq<bv8>
}
