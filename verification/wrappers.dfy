/** The optional-value wrapper used throughout the model for JavaScript's
    `null`/`undefined` results (a regex that did not match, an absent decoration). */
module Wrappers {
  datatype Option<+T> = None | Some(value: T)
}
