/** The optional-value datatype shared by the model: `None` stands for JavaScript's
    `undefined` (or a missing result), `Some(v)` for a present value. */
module Wrappers {

  datatype Option<+T> = None | Some(value: T)
}
