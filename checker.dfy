/** What a health probe reports. A Go `Checker` returns `nil` on success or an
    error whose `Error()` text is the failure description; the model keeps only
    that observable result. */
module Checker {

  /** The result of one `Check` call: success, or a failure carrying the
      error's message. */
  datatype Outcome = Pass | Fail(msg: string)
}
