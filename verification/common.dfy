/** Optional values, thrown-or-returned results and byte strings shared by the model. */
module Common {

  /** Swift's `Optional`: `None` stands for `nil`. */
  datatype Option<+T> = None | Some(value: T)

  /** The outcome of a throwing Swift function: the value it returned or the error it threw. */
  datatype Result<+T, +E> = Ok(value: T) | Err(error: E)

  /** An octet. */
  type Byte = b: int | 0 <= b < 256

  /** Foundation's `Data`: a sequence of octets. */
  type Bytes = seq<Byte>
}
