/** Failure-carrying values shared by every module: Python's `None` and the
    exceptions the download pipeline lets propagate. */
module Common {

  datatype Option<+T> = None | Some(value: T)

  /** The exceptions the pipeline can raise; none of them is caught. */
  datatype Error =
    | HttpError(code: int, text: string)  // requests.HTTPError from check_response
    | IndexError                          // a list subscript past its end
    | KeyError                            // a dictionary subscript with a missing key

  datatype Result<+T> = Success(value: T) | Failure(error: Error)
}
