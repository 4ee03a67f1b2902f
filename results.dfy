/** The error surface shared by the column engine and the database (src/result.rs). */
module Results {
  import opened Bytes

  /** `Error::DBFile { path }` and `Error::IOError { error }`; the wrapped `io::Error`
      is not modelled, only the fact that some filesystem step failed. */
  datatype Error = DBFile(path: seq<byte>) | IOError

  datatype Option<+T> = None | Some(value: T)

  /** `result::Result<T>` = `std::result::Result<T, Error>`. */
  datatype Result<+T> = Ok(value: T) | Err(error: Error)
}
