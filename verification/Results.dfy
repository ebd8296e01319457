/** The two result types shared by every module: a value that may be missing,
    and a value that may be replaced by the error the program reports. */
module Results {
  datatype Option<+T> = None | Some(value: T)

  datatype Result<+T, +E> = Ok(value: T) | Err(error: E)
}
