/**
 * Optional values and the outcomes of the paths on which the bot's Python
 * code raises instead of returning.
 */
module Outcomes {

  datatype Option<T> = None | Some(value: T)

  /** The places where the source raises. */
  datatype Failure =
    | CustomPartType   // `type - match.group('part')` with `type` None
    | NoLastRowEnd     // `match.start(0)` on a failed search
    | NoTotal          // `total_match.group('total')` on a failed search
    | TableUnassigned  // `table` read before it was ever assigned

  datatype Result<T> = Ok(value: T) | Fail(failure: Failure)
}
