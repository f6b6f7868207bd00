/** The two result shapes the models share: an optional value, and a check that
    either accepts with a value or rejects. A rejection stands for any exception
    the source raises; which message it carries is not modelled. */
module Outcomes {
  datatype Option<+T> = None | Some(value: T)

  datatype Result<+T> = Accepted(value: T) | Rejected
}
