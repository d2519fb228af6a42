/** The optional-value datatype used for SQL NULL, JavaScript `undefined`/`null` and
    "no row found" throughout the model. */
module Wrappers {

  datatype Option<+T> = None | Some(value: T)
}
