/** Outcomes of the Python tools, whose exceptions are values here. */
module Results {
  datatype Option<+T> = Some(value: T) | None

  datatype Result<+T> = Ok(value: T) | Err(message: string)
}
