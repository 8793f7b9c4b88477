/** Failure-carrying results shared by the modules of the project. */
module Results {
  datatype Option<+T> = None | Some(value: T)

  /** `Err` stands for an exception thrown (or an ereport raised) by the modelled code. */
  datatype Result<+T> = Ok(value: T) | Err
}
