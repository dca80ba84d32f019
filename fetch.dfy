/**
 * The three client forms (upload, compare, submit) all talk to the server the same way:
 * `fetch`, then `response.json()`, then either the `error` field of a failed response or
 * the data of a successful one, with a `catch` for anything that throws.  The reply is an
 * input of the model; this module says which error text each kind of reply leaves behind.
 */
module Fetch {
  import opened Wrappers

  /** How a request ended, as seen by the handler that awaited it. */
  datatype Reply<T> =
    | FetchThrew                       // `fetch` itself rejected (network failure)
    | BodyThrew(ok: bool)              // a response arrived, but `response.json()` rejected
    | NotOk(errorField: Option<string>) // `!response.ok`; the body's `error` field, if any
    | Ok(data: T)                      // `response.ok`, with the decoded body

  /** `data.error || fallback`: a missing or empty `error` field falls back to the form's own text. */
  function ErrorOr(field: Option<string>, fallback: string): (m: string)
    ensures field.Some? && field.value != "" ==> m == field.value
    ensures field.None? || field.value == "" ==> m == fallback
    ensures fallback != "" ==> m != ""
  {
    if field.Some? && field.value != "" then field.value else fallback
  }

  /**
   * The error a handler sets once the request is over: none on success, the server's
   * message (or `failed`) on a refused request, and `caught` whenever something threw.
   */
  function ReplyError<T>(reply: Reply<T>, failed: string, caught: string): (m: Option<string>)
    ensures m.None? <==> reply.Ok?
    ensures reply.NotOk? ==> m == Some(ErrorOr(reply.errorField, failed))
    ensures reply.FetchThrew? || reply.BodyThrew? ==> m == Some(caught)
    ensures failed != "" && caught != "" && m.Some? ==> m.value != ""
  {
    match reply
    case Ok(_) => None
    case NotOk(field) => Some(ErrorOr(field, failed))
    case _ => Some(caught)
  }
}
