/** What a handler answers: a JSON body flagged `success: true`, or one of the
    error envelopes the application registers with `errorhandler`. */
module Replies {

  datatype ErrorCode = BadRequest | NotFound | Unprocessable | InternalError
  {
    function Status(): int
    {
      match this
      case BadRequest => 400
      case NotFound => 404
      case Unprocessable => 422
      case InternalError => 500
    }
  }

  datatype Reply<+T> = Ok(body: T) | Error(code: ErrorCode)
  {
    function Status(): int
    {
      if Ok? then 200 else code.Status()
    }
  }
}
