/** The optional-value datatype the lint model returns its findings in. */
module Wrappers {

  /** Either nothing (`None`) or exactly one value (`Some`). */
  datatype Option<+T> = None | Some(value: T)
}
