/** Small failure-carrying datatypes shared by the modules of the model. */
module Wrappers {

  /** An optional value: `None` stands for a missing or failed one. */
  datatype Option<+T> = None | Some(value: T)

  /**
   * What an HTTP handler of the conversion service decides: status 400 with
   * its message, status 500 with its message, or `Ok` with a body. For the
   * asset handlers `Ok` is the status-200 answer; for the conversion handler
   * it is the request that passed its checks and goes on to the rate fetch,
   * which may still end in 500.
   */
  datatype Response<+T> =
    | BadRequest(message: string)
    | InternalError(message: string)
    | Ok(body: T)
}
