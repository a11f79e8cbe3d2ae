/** The error responses the Express handlers send: a status code and the JSON `error` message. */
module Http {

  datatype HttpError =
    | BadRequest(message: string)
    | NotFound(message: string)
    | ServerError(message: string)
  {
    function Status(): int {
      match this
      case BadRequest(_) => 400
      case NotFound(_) => 404
      case ServerError(_) => 500
    }
  }
}
