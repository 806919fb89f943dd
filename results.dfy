/** Optional values, the errors a run of the reference compiler can end in, and a
    failure-compatible Result carrying one of them. */
module Results {

  datatype Option<+T> = None | Some(value: T)

  /** Why a run aborts. */
  datatype Error =
    | ListingFailed(dir: string)   // fs.readdirSync failed with a code other than ENOENT
    | MalformedDocument            // JSON.parse rejected the base document
    | TypeError                    // a property was read from, or written through, undefined or null

  datatype Result<+T> = Ok(value: T) | Err(error: Error) {

    predicate IsFailure() {
      Err?
    }

    function PropagateFailure<U>(): Result<U>
      requires Err?
    {
      Err(error)
    }

    function Extract(): T
      requires Ok?
    {
      value
    }
  }
}
