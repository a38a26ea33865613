/** Small value wrappers shared by every module of the model. */
module Wrappers {

  /** A value that may be missing: JavaScript's `null`/`undefined` versus a present value. */
  datatype Option<+T> = None | Some(value: T)

  /** The abstract outcome of one HTTP request: the body it delivered, or a failure
      (network error or a non-2xx status, which axios turns into a thrown error). */
  datatype Fetch<+T> = Failed | Fetched(body: T)
}
