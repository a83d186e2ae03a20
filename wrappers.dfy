/** Failure-carrying values used where the modelled Java code throws or returns null. */
module Wrappers {

  /** `None` stands for an absent value or for a call that threw. */
  datatype Option<+T> = None | Some(value: T)

  /** The outcome of a call that returns nothing: it either completes normally or throws. */
  datatype Outcome = Completed | Threw(reason: string)
}
