/** Outcome of a step that, in the calculator, either returns a value or throws. */
module Results {
  datatype Result<T> = Ok(value: T) | Fail

  datatype Option<T> = None | Some(value: T)
}
