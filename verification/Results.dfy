// Outcomes: a value that may be missing, and a result that may be a ValueError.
module Results {
  datatype Option<+T> = None | Some(value: T)

  datatype Result<+T> = Ok(value: T) | ValueError
}
