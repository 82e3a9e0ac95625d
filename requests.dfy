/**
 * What the pages see of a network call: the response body on success, or the
 * `detail` field of the error body (when there is one) on failure.
 */
module Requests {
  import opened Wrappers

  datatype Outcome<T> = Success(value: T) | Failure(detail: Option<string>)

  /**
   * `err.response?.data?.detail || fallback`: the server's detail when it is a
   * non-empty string, otherwise the page's own message.
   */
  function ErrorText(detail: Option<string>, fallback: string): (r: string)
    ensures detail.Some? && detail.value != [] ==> r == detail.value
    ensures detail.None? || detail.value == [] ==> r == fallback
    ensures fallback != [] ==> r != []
  {
    match detail
    case Some(d) => if d != [] then d else fallback
    case None => fallback
  }
}
