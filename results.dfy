/** The exceptions the two tables raise, as values. */
module Results {

  /** `KeyError` for a key that is not stored; `FullError` when a probe
      finds neither the key nor a free slot. */
  datatype Error = KeyError | FullError

  datatype Result<T> = Ok(value: T) | Err(error: Error)

  /** A slot of an array that may hold nothing (`None` in the source). */
  datatype Option<T> = None | Some(value: T)
}
