/** The error kinds of the backend and the HTTP status each one is answered with
    (the `errorMap` object of the server). */
module Errors {
  import opened Wrappers

  datatype ErrorKind =
    | BadRequest
    | Unauthorized
    | NotFound
    | MethodNotAllowed
    | Conflict
    | InternalServerError

  /** What a handler does with a request: answers success, answers with one
      error kind, or throws inside a query callback (`Crashed`), so that no
      answer is sent and the server process stops. */
  datatype Outcome = Ok | Err(kind: ErrorKind) | Crashed

  /** The status code `errorMap` attaches to each kind: client faults are 4xx,
      only the internal error is 5xx. */
  function StatusCode(e: ErrorKind): (code: nat)
    ensures 400 <= code <= 500
    ensures code == 500 <==> e.InternalServerError?
    ensures e == Conflict <==> code == 409
    ensures e == NotFound <==> code == 404
    ensures e == Unauthorized <==> code == 401
  {
    match e
    case BadRequest => 400
    case Unauthorized => 401
    case NotFound => 404
    case MethodNotAllowed => 405
    case Conflict => 409
    case InternalServerError => 500
  }

  /** The `message` field of each `errorMap` entry. The handlers send their
      own messages, so this only mirrors the table. */
  function Message(e: ErrorKind): string
  {
    match e
    case BadRequest => "Bad Request"
    case Unauthorized => "Unauthorized"
    case NotFound => "Not Found"
    case MethodNotAllowed => "Method Not Allowed"
    case Conflict => "Conflict"
    case InternalServerError => "Internal Server Error"
  }

  /** Reverse lookup of `errorMap` by status code: a code names at most one kind. */
  function KindOfStatus(code: nat): (r: Option<ErrorKind>)
    ensures r.Some? ==> StatusCode(r.value) == code
    ensures r.None? ==> forall e: ErrorKind :: StatusCode(e) != code
  {
    if code == 400 then Some(BadRequest)
    else if code == 401 then Some(Unauthorized)
    else if code == 404 then Some(NotFound)
    else if code == 405 then Some(MethodNotAllowed)
    else if code == 409 then Some(Conflict)
    else if code == 500 then Some(InternalServerError)
    else None
  }

  /** Distinct kinds are answered with distinct status codes, so the status code
      alone tells a client which kind of error occurred. */
  lemma StatusCodeRoundTrip(e: ErrorKind)
    ensures KindOfStatus(StatusCode(e)) == Some(e)
  {
  }
}
