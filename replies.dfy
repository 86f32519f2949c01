/**
 * What the controllers share about requests and replies: the truthiness test
 * they apply to JSON fields, and the status code and body they send. Every
 * handler ends in `res.json(...)` after an optional `res.status(code)`;
 * errors thrown inside the `try` are answered by its `catch` block.
 */
module Replies {
  import opened Wrappers

  /** The status an Express response carries until `res.status` changes it. */
  const EXPRESS_DEFAULT_STATUS: nat := 200
  const SERVER_ERROR: nat := 500

  /** A string field of a request body is truthy when present and not empty. */
  predicate Truthy(o: Option<string>) {
    o.Some? && o.value != ""
  }

  /** A JSON reply: a payload, or `{ message }` with an error status. */
  datatype Reply<+T> = Reply(status: nat, body: T) | ErrorReply(status: nat, message: string)

  /**
   * The catch blocks as written: `res.status(res.statusCode || 500)`, where
   * `statusCode` is whatever the response held when the error was thrown.
   * The handlers use this rule, so an error thrown before any `res.status`
   * call (a failed encryption, decryption or validation) keeps the default 200.
   */
  function CatchStatusAsWritten(statusCode: nat): (s: nat)
    ensures statusCode != 0 ==> s == statusCode
  {
    if statusCode != 0 then statusCode else SERVER_ERROR
  }

  /**
   * The catch blocks as intended: the status chosen before the throw (400 or
   * 404), or 500 for an error nothing anticipated.
   */
  function CatchStatus(preset: Option<nat>): (s: nat)
    ensures preset.Some? ==> s == preset.value
    ensures preset.None? ==> s == SERVER_ERROR
  {
    match preset
    case Some(code) => code
    case None => SERVER_ERROR
  }

  /** With the intended rule, every caught error is reported as an error (4xx or 5xx). */
  lemma CaughtErrorsAreErrors(preset: Option<nat>)
    requires preset.Some? ==> preset.value >= 400
    ensures CatchStatus(preset) >= 400
    ensures CatchStatus(preset) != CatchStatusAsWritten(EXPRESS_DEFAULT_STATUS)
  {
  }
}
