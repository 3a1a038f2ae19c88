/** The optional result of a lookup: `None` stands for Python's `None`
    ("movie not found"), `Some(v)` for a found value. */
module Wrappers {

  datatype Option<+T> = None | Some(value: T)

}
