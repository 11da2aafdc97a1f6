/** Small value types shared by every module of the model. */
module Common {

  /** Python's `None` or a value. */
  datatype Option<T> = None | Some(value: T)

  /** One octet of a downloaded file. */
  newtype byte = x: int | 0 <= x < 256
}
