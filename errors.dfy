/** The ways a request can fail: the HTTPExceptions raised by the routes and
    the request-body validation done by the framework before a handler runs. */
module Errors {

  datatype Error =
    | Unprocessable(fields: set<string>)  // body validation failed on these fields (422)
    | UserNotFound                        // 404, detail 'User ID not found'
    | TweetNotFound                       // 404, detail 'Tweet ID not found'
    | NotOwner                            // 400, detail 'The tweet does not belong to this user'

  /** The HTTP status code each failure is answered with. */
  function StatusCode(e: Error): (code: int)
    ensures code == 422 <==> e.Unprocessable?
    ensures code == 404 <==> e.UserNotFound? || e.TweetNotFound?
    ensures code == 400 <==> e.NotOwner?
  {
    match e
    case Unprocessable(_) => 422
    case UserNotFound => 404
    case TweetNotFound => 404
    case NotOwner => 400
  }
}
