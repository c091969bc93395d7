/** Results of the contact book's operations. The modelled code raises a
    `ValueError` from the field checks and from `edit_phone` when no phone
    matches, and an `AttributeError` in the birthday countdown; the model does
    not tell exception kinds apart, so one failure outcome suffices. */
module Outcomes {

  /** A value or its absence (`None` in the source). */
  datatype Option<+T> = None | Some(value: T)

  /** The outcome of a call that may raise: its value, or the raise. */
  datatype Outcome<+T> = Ok(value: T) | Fail
}
