/**
 * How the binding turns the native library's status codes into Go errors
 * (error.go). Every fallible native call returns an integer code, and the
 * message of a failure is taken afterwards from the library's last-error slot.
 */
module Errors {
  import opened Wrappers

  /**
   * What the native library answers to one fallible call: its status code and
   * the message waiting in its last-error slot afterwards.
   */
  datatype Reply = Reply(code: int, lastError: string)

  /**
   * A Go `error`: the sentinel `ErrCannotGetErrorMessage`, or an error made
   * by `errors.New` from the library's message. The sentinel is a value of
   * its own: no error made from a message equals it, whatever its text.
   */
  datatype Error = CannotGetErrorMessage | Failure(text: string)
  {
    /** `Error()`: the text the error reports. */
    function Message(): string
    {
      if CannotGetErrorMessage? then "cannot get error message from underlying lol_html lib" else text
    }
  }

  /** getError: an error made from the pending message, or the sentinel when there is none. */
  function GetError(lastError: string): (e: Error)
    ensures lastError != "" ==> e == Failure(lastError) && e.Message() == lastError
    ensures lastError == "" ==> e == CannotGetErrorMessage
    ensures e.Message() != ""
  {
    if lastError != "" then Failure(lastError) else CannotGetErrorMessage
  }

  /**
   * The rule every status-returning call follows: code 0 means success (a nil
   * error); any other code yields the pending error.
   */
  function FromCode(code: int, lastError: string): (r: Option<Error>)
    ensures r.None? <==> code == 0
    ensures r.Some? ==> r.value == GetError(lastError) && r.value.Message() != ""
  {
    if code == 0 then None else Some(GetError(lastError))
  }

  /** The Go error a call returns for the native library's reply. */
  function ErrorOf(reply: Reply): (r: Option<Error>)
    ensures r.None? <==> reply.code == 0
    ensures r.Some? ==> r.value == GetError(reply.lastError)
  {
    FromCode(reply.code, reply.lastError)
  }
}
