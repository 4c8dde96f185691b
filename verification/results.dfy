/** Failure-carrying values for the error paths of the modelled code. */
module Results {

  datatype Option<+T> = None | Some(value: T)

  /** `Err` stands for a Python exception (IndexError, KeyError, ValueError, ...). */
  datatype Result<+T> = Ok(value: T) | Err(error: string)
}
