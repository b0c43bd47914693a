/** The optional value used throughout the model: `None` stands for JavaScript's
    `undefined` or SQL `NULL`, depending on where it appears. */
module Wrappers {

  datatype Option<+T> = None | Some(value: T)
}
