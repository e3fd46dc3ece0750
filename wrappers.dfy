/** Option and Result, the failure-carrying values used by every controller. */
module Wrappers {

  datatype Option<+T> = None | Some(value: T)

  /** Either a value or an error; the controllers' IActionResult outcomes map onto it. */
  datatype Result<+T, +E> = Ok(value: T) | Err(error: E)

  /** The HTTP rejections the controllers produce (200/201/204 are `Ok`). */
  datatype Status = BadRequest | Conflict | NotFound
}
