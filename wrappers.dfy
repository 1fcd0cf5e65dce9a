/** The optional-value datatype the rest of the model uses for JavaScript's
    `null`/`undefined` and for operations that can fail. */
module Wrappers {

  datatype Option<+T> = None | Some(value: T)

}
