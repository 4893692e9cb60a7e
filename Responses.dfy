/** Error responses of the product API and the wrappers the handlers return. */
module Responses {

  datatype Option<+T> = None | Some(value: T)

  /** An HTTP error: its status code and the `error` text of its JSON body. */
  datatype Error = Error(status: int, message: string)

  /** What a handler answers: a value on success, an error response otherwise. */
  datatype Result<+T> = Ok(value: T) | Err(error: Error)

  const NoApiKey := Error(401, "Unauthorized. No API key provided.")
  const InvalidApiKey := Error(401, "Unauthorized. Invalid API key.")
  const NotFound := Error(404, "Product not found")
  const MissingFields := Error(400, "Missing or invalid fields")
  const InvalidTypes := Error(400, "Invalid input types")
  const QueryRequired := Error(400, "Search query is required")
  /** What the global error handler sends for anything a handler throws. */
  const Internal := Error(500, "Internal Server Error")
}
