/** Optional values (the component's `T | null` state) and the outcome of one
    asynchronous step: a resolved value or a rejection carrying an error message. */
module Outcomes {

  /** `None` stands for JavaScript's `null`. */
  datatype Option<+T> = None | Some(value: T)

  /** The outcome of an awaited step. An `Err` whose message is empty stands for a
      rejection whose error has no (or an empty) `message` property. */
  datatype Outcome<+T> = Ok(value: T) | Err(message: string)
}
