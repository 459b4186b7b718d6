/** The failure-carrying values of the pipeline: an `Error` and the `Result`
    that plays the part of the `Either<Error, T>` the exporter is written with. */
module Results {

  /** Why a run stopped. Every failure of the exporter ends up as one `Error`. */
  datatype Error =
    /** a failure reported by a collaborator that is not modelled: a file that
        cannot be read, text the CSV parser or `JSON.parse` rejects, or a
        decoded value that does not match the abolished-municipality schema */
    | External(cause: string)
    /** row `row` of the cadastral table has no name field (fewer than two
        fields), so reading its name throws */
    | MissingNameField(row: nat)

  datatype Option<T> = None | Some(value: T)

  /** `Ok` is the right side of an `Either`, `Err` its left side. */
  datatype Result<T> = Ok(value: T) | Err(error: Error) {

    /** `chain`: runs `f` on a success, passes a failure on untouched */
    function Chain<U>(f: T -> Result<U>): Result<U> {
      match this
      case Ok(v) => f(v)
      case Err(e) => Err(e)
    }

    /** `map`: transforms a success, passes a failure on untouched */
    function Map<U>(f: T -> U): Result<U> {
      match this
      case Ok(v) => Ok(f(v))
      case Err(e) => Err(e)
    }
  }
}
