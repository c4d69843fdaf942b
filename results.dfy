/** Option and result values for the decoder and the input gates. */
module Results {

  datatype Option<+T> = None | Some(value: T)

  /** Either a computed value or the reason no value was produced. */
  datatype Result<+T, +E> = Success(value: T) | Failure(error: E)
}
