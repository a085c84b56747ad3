/** The part of an HTTP response the dispatcher writes to: a status line, a header
    list kept in insertion order, a body, and the errors reported on it. */
module Responses {

  newtype byte = x: int | 0 <= x < 256

  datatype Header = Header(name: string, value: string)

  /** One call of `sendError(code, message)`. */
  datatype SentError = SentError(code: int, message: string)

  /** The observable state of a response, as a value. */
  datatype ResponseState = ResponseState(
    status: int,
    statusMessage: string,
    headers: seq<Header>,
    body: seq<byte>,
    errors: seq<SentError>
  )

  /** A response that the dispatcher updates in place. */
  class Response {
    var status: int
    var statusMessage: string
    var headers: seq<Header>
    var body: seq<byte>
    var errors: seq<SentError>

    /** The abstract value of this response. */
    function State(): (r: ResponseState)
      reads this
    {
      ResponseState(status, statusMessage, headers, body, errors)
    }

    /** Replaces the status code and its message; nothing else changes. */
    method SetStatus(code: int, message: string)
      modifies this
      ensures State() == old(State()).(status := code, statusMessage := message)
    {
      status, statusMessage := code, message;
    }

    /** Appends one header after all the existing ones; nothing else changes. */
    method AddHeader(name: string, value: string)
      modifies this
      ensures State() == old(State()).(headers := old(headers) + [Header(name, value)])
    {
      headers := headers + [Header(name, value)];
    }

    /** Appends bytes to the body; nothing else changes. */
    method Write(data: seq<byte>)
      modifies this
      ensures State() == old(State()).(body := old(body) + data)
    {
      body := body + data;
    }

    /** Records an error report; the headers and the body are left alone. */
    method SendError(code: int, message: string)
      modifies this
      ensures State() == old(State()).(errors := old(errors) + [SentError(code, message)])
    {
      errors := errors + [SentError(code, message)];
    }
  }
}
