/** Zero-or-one values and fallible results, as the queries and `main` produce them. */
module Results {

  /** A `limit 1` query's answer (no row or one row), or a nullable column. */
  datatype Option<+T> = None | Some(value: T)

  /** Either a value or the error that made the run stop. */
  datatype Result<+T, +E> = Success(value: T) | Failure(error: E)
}
