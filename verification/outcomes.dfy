/**
 The outcome types shared by the record model and the request handlers.
 An HTTP 422 (request validation failed) becomes `Invalid`, an HTTP 404
 ("Movie not found") becomes `NotFound`; success carries the response body.
 */
module Outcomes {

  /** An optional value: a query parameter that may be absent, or the index of a lookup. */
  datatype Option<+T> = None | Some(value: T)

  /** The two client errors the service reports. */
  datatype Error = Invalid | NotFound

  /** Either the response value of a handler or the error it reports. */
  datatype Result<+T> = Ok(value: T) | Err(error: Error)
}
