/** Failure-compatible wrappers shared by the model. */
module Results {

  datatype Option<T> = None | Some(value: T)

  /** The two fatal conditions the transformer raises. */
  datatype Error =
    | NotFound        // no docker-compose.yml in the working directory or any ancestor
    | MissingVersion  // the base file has no non-empty `version`

  datatype Result<T> = Ok(value: T) | Err(error: Error)

  /** The message the runtime exception carries for each error. */
  function Message(e: Error): string
  {
    match e
    case NotFound => "Could not find docker-compose.yml in this or any parent directory."
    case MissingVersion => "Must specify a version in the base docker-compose.yml file"
  }
}
