/** The optional value used for every operation that can abort. */
module Wrappers {

  /** `None` stands for a panic (an `unwrap` of nothing, a failed `assert`). */
  datatype Option<+T> = None | Some(value: T)
}
