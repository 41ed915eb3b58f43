/** Failure values shared by the whole toolkit. The source raises Python
    exceptions; here every operation that can raise returns a `Result`, and
    the `Error` says which check fired. */
module Errors {

  /** The Python exception class an error is raised as. */
  datatype ExceptionKind = ValueError | TypeError

  /** One constructor per check that can abort an operation. */
  datatype Error =
    | MissingDate           // the date is empty
    | InvalidDate           // the date is not YYYY-MM-DD or not a calendar date
    | MissingSegments       // no segments argument was given
    | EmptySegments         // the segments list is empty
    | QualityMaxOutOfRange  // quality_max is not in [0, 100]
    | MalformedSegment      // a segment is not a (duration, quality) pair
    | DurationNotFloat      // a segment duration is an int rather than a float
    | NegativeDuration      // a duration is below zero
    | NonPositiveMax        // the scale maximum for normalisation is <= 0
    | QualityOutOfRange     // a normalised quality is outside [0, 100]
    | TooFewValues          // fewer than two durations for a spike or trend
  {
    /** Only the int-versus-float duration check raises TypeError. */
    function Kind(): ExceptionKind {
      if DurationNotFloat? then TypeError else ValueError
    }
  }

  datatype Result<+T> = Ok(value: T) | Err(error: Error)

  datatype Option<+T> = None | Some(value: T)
}
